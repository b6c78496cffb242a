/** The string rewrites the kayak grid (app/components/KayakGrid.tsx) runs
    over the model's text before parsing it, in the order the component
    chains them: fence removal, whitespace collapse, the heuristic
    quote/unit/seat repairs (taken as one uninterpreted step), trailing-comma
    removal, comma insertion after `}` and after `]`, removal of an
    enclosing quote pair, and removal of a final comma. */
module ClientCleanup {

  import opened Wrappers
  import opened Text
  import opened Seqs
  import opened Fences

  // ---------------------------------------------------------------------
  // `.replace(/[\n\r\t\s]+/g, ' ')`

  /** Whitespace survives only as single spaces. */
  predicate Collapsed(s: string)
  {
    && (forall i :: 0 <= i < |s| && IsWhitespace(s[i]) ==> s[i] == ' ')
    && (forall i :: 0 < i < |s| && IsWhitespace(s[i]) ==> !IsWhitespace(s[i - 1]))
  }

  /** Every maximal run of whitespace becomes one space. */
  function CollapseWhitespace(s: string): (r: string)
    ensures Collapsed(r)
    ensures |r| > 0 <==> |s| > 0
    ensures |r| > 0 ==> (IsWhitespace(r[0]) <==> IsWhitespace(s[0]))
    decreases |s|
  {
    if |s| == 0 then ""
    else if IsWhitespace(s[0]) then
      " " + CollapseWhitespace(TrimStart(s))
    else
      [s[0]] + CollapseWhitespace(s[1..])
  }

  /** No newline, carriage return or tab survives the step. */
  lemma CollapsedHasNoControl(s: string)
    ensures '\n' !in CollapseWhitespace(s) && '\r' !in CollapseWhitespace(s) && '\t' !in CollapseWhitespace(s)
  {
    var r := CollapseWhitespace(s);
    forall i | 0 <= i < |r|
      ensures r[i] != '\n' && r[i] != '\r' && r[i] != '\t'
    {
      if IsWhitespace(r[i]) {
        assert r[i] == ' ';
      }
    }
  }

  /** The step keeps every visible character, in order. */
  lemma {:induction false} CollapseKeepsVisible(s: string)
    ensures Filter(IsVisible, CollapseWhitespace(s)) == Filter(IsVisible, s)
    decreases |s|
  {
    if |s| > 0 {
      assert s == [s[0]] + s[1..];
      if IsWhitespace(s[0]) {
        var t := TrimStart(s);
        CollapseKeepsVisible(t);
        assert s == s[..|s| - |t|] + t;
        FilterConcat(IsVisible, s[..|s| - |t|], t);
        FilterNone(IsVisible, s[..|s| - |t|]);
        FilterConcat(IsVisible, " ", CollapseWhitespace(t));
      } else {
        CollapseKeepsVisible(s[1..]);
        FilterConcat(IsVisible, [s[0]], s[1..]);
        FilterConcat(IsVisible, [s[0]], CollapseWhitespace(s[1..]));
      }
    }
  }

  lemma {:induction false} FilterNone(p: char -> bool, s: string)
    requires p == IsVisible && AllWhitespace(s)
    ensures Filter(p, s) == []
    decreases |s|
  {
    if |s| > 0 {
      FilterNone(p, s[1..]);
    }
  }

  lemma CollapsedTail(s: string)
    requires |s| > 0 && Collapsed(s)
    ensures Collapsed(s[1..])
  {
    var t := s[1..];
    forall i | 0 < i < |t| && IsWhitespace(t[i])
      ensures !IsWhitespace(t[i - 1])
    {
      assert t[i] == s[i + 1] && t[i - 1] == s[i];
    }
  }

  /** Collapsed text is left as it is: the step is idempotent. */
  lemma {:induction false} CollapseIdempotent(s: string)
    requires Collapsed(s)
    ensures CollapseWhitespace(s) == s
    decreases |s|
  {
    if |s| > 0 {
      CollapsedTail(s);
      CollapseIdempotent(s[1..]);
      if IsWhitespace(s[0]) {
        SpaceThenVisible(s);
      } else {
        assert s == [s[0]] + s[1..];
      }
    }
  }

  lemma SpaceThenVisible(s: string)
    requires Collapsed(s) && |s| > 0 && IsWhitespace(s[0])
    ensures CollapseWhitespace(s) == " " + CollapseWhitespace(s[1..])
  {
    if |s| > 1 {
      assert !IsWhitespace(s[1]);
    }
    TrimStartOfVisible(s[1..]);
  }

  /** A run of whitespace between visible text becomes exactly one space:
      with `v` visible, `w` a non-empty run and `t` starting visible, the
      run is replaced and nothing else changes. */
  lemma {:induction false} CollapseRun(v: string, w: string, t: string)
    requires forall i :: 0 <= i < |v| ==> IsVisible(v[i])
    requires |w| > 0 && AllWhitespace(w)
    requires |t| == 0 || IsVisible(t[0])
    ensures CollapseWhitespace(v + w + t) == v + " " + CollapseWhitespace(t)
    decreases |v|
  {
    if |v| == 0 {
      assert v + w + t == w + t;
      TrimStartConcat(w, t);
      TrimStartOfVisible(t);
    } else {
      assert (v + w + t)[1..] == v[1..] + w + t;
      CollapseRun(v[1..], w, t);
      assert v == [v[0]] + v[1..];
    }
  }

  lemma CollapseTwice(s: string)
    ensures CollapseWhitespace(CollapseWhitespace(s)) == CollapseWhitespace(s)
  {
    CollapseIdempotent(CollapseWhitespace(s));
  }

  // ---------------------------------------------------------------------
  // `.replace(/,(\s*[\]}])/g, '$1')`

  predicate IsCloser(c: char)
  {
    c == ']' || c == '}'
  }

  /** The first character of `s` that is not whitespace, if any. */
  function FirstVisible(s: string): Option<char>
    decreases |s|
  {
    if |s| == 0 then None
    else if IsWhitespace(s[0]) then FirstVisible(s[1..])
    else Some(s[0])
  }

  /** `s` begins with optional whitespace and then a closing bracket:
      `\s*[\]}]` matches at its start. */
  predicate CloserAhead(s: string)
  {
    var v := FirstVisible(s);
    v.Some? && IsCloser(v.value)
  }

  /** The comma at `s[i]` is dangling: only whitespace separates it from a
      closing bracket. */
  predicate Dangling(s: string, i: nat)
    requires i < |s|
  {
    s[i] == ',' && CloserAhead(s[i + 1..])
  }

  /** Deletes exactly the dangling commas and keeps every other character,
      in order. */
  function DropTrailingCommas(s: string): string
    decreases |s|
  {
    if |s| == 0 then ""
    else
      var rest := DropTrailingCommas(s[1..]);
      if Dangling(s, 0) then rest else [s[0]] + rest
  }

  /** The step only deletes, and it deletes nothing but commas. */
  lemma {:induction false} DropTrailingCommasDeletesCommas(s: string)
    ensures IsSubsequence(DropTrailingCommas(s), s)
    ensures Filter(NotComma, DropTrailingCommas(s)) == Filter(NotComma, s)
    decreases |s|
  {
    if |s| > 0 {
      var rest := DropTrailingCommas(s[1..]);
      DropTrailingCommasDeletesCommas(s[1..]);
      assert s == [s[0]] + s[1..];
      FilterConcat(NotComma, [s[0]], s[1..]);
      if Dangling(s, 0) {
        SubsequenceOfSuffix(rest, s, 1);
      } else {
        SubsequenceCons(s[0], rest, s[1..]);
        FilterConcat(NotComma, [s[0]], rest);
      }
    }
  }

  predicate NotComma(c: char)
  {
    c != ','
  }

  /** The number of whitespace characters `s` starts with. */
  function LeadingSpace(s: string): (n: nat)
    ensures n <= |s|
    decreases |s|
  {
    if |s| > 0 && IsWhitespace(s[0]) then 1 + LeadingSpace(s[1..]) else 0
  }

  /** Where `\s*[\]}]` ends: the bracket sits right after the whitespace
      run. */
  lemma {:induction false} CloserAt(t: string)
    requires CloserAhead(t)
    ensures LeadingSpace(t) < |t| && IsCloser(t[LeadingSpace(t)])
    ensures forall k :: 0 <= k < LeadingSpace(t) ==> IsWhitespace(t[k])
    decreases |t|
  {
    if IsWhitespace(t[0]) {
      CloserAt(t[1..]);
      forall k | 0 < k < LeadingSpace(t)
        ensures IsWhitespace(t[k])
      {
        assert t[k] == t[1..][k - 1];
      }
    }
  }

  /** The regular-expression engine's view: at a comma it tries
      `,\s*[\]}]`; on a match it writes the whitespace and the bracket and
      resumes after the bracket. */
  function ScanTrailingCommas(s: string): string
    decreases |s|
  {
    if |s| == 0 then ""
    else if s[0] == ',' && CloserAhead(s[1..]) then
      CloserAt(s[1..]);
      var w := LeadingSpace(s[1..]);
      s[1..w + 2] + ScanTrailingCommas(s[w + 2..])
    else [s[0]] + ScanTrailingCommas(s[1..])
  }

  /** The match-and-resume scan deletes exactly the dangling commas. */
  lemma {:induction false} ScanDropsDanglingCommas(s: string)
    ensures ScanTrailingCommas(s) == DropTrailingCommas(s)
    decreases |s|
  {
    if |s| > 0 {
      if s[0] == ',' && CloserAhead(s[1..]) {
        CloserAt(s[1..]);
        var w := LeadingSpace(s[1..]);
        DanglingJump(s);
        ScanDropsDanglingCommas(s[w + 2..]);
      } else {
        ScanDropsDanglingCommas(s[1..]);
        DropHead(s);
      }
    }
  }

  /** After a dangling comma the whitespace and the bracket are kept, so
      the scan's jump over them agrees with the deletion. */
  lemma DanglingJump(s: string)
    requires |s| > 0 && s[0] == ',' && CloserAhead(s[1..])
    ensures LeadingSpace(s[1..]) + 2 <= |s|
    ensures DropTrailingCommas(s)
            == s[1..LeadingSpace(s[1..]) + 2] + DropTrailingCommas(s[LeadingSpace(s[1..]) + 2..])
  {
    var t := s[1..];
    CloserAt(t);
    var w := LeadingSpace(t);
    assert forall k :: 0 <= k < w + 1 ==> t[k] != ',' by {
      forall k | 0 <= k < w + 1
        ensures t[k] != ','
      {
        assert IsWhitespace(t[k]) || IsCloser(t[k]);
      }
    }
    KeepCommaFree(t, w + 1);
    assert t[..w + 1] == s[1..w + 2];
    assert t[w + 1..] == s[w + 2..];
  }

  /** A character that is not a dangling comma is kept. */
  lemma DropHead(s: string)
    requires |s| > 0 && !Dangling(s, 0)
    ensures DropTrailingCommas(s) == [s[0]] + DropTrailingCommas(s[1..])
  {
  }

  /** A run without commas is kept as it is. */
  lemma {:induction false} KeepCommaFree(t: string, n: nat)
    requires n <= |t| && forall k :: 0 <= k < n ==> t[k] != ','
    ensures DropTrailingCommas(t) == t[..n] + DropTrailingCommas(t[n..])
    decreases n
  {
    if n > 0 {
      DropHead(t);
      var u := t[1..];
      assert forall k :: 0 <= k < n - 1 ==> u[k] != ',' by {
        forall k | 0 <= k < n - 1
          ensures u[k] != ','
        {
          assert u[k] == t[k + 1];
        }
      }
      KeepCommaFree(u, n - 1);
      assert u[n - 1..] == t[n..];
      assert t[..n] == [t[0]] + u[..n - 1];
    }
  }

  /** The step is not idempotent: a doubled comma loses only one. */
  lemma TrailingCommasNotIdempotent()
    ensures DropTrailingCommas(",]") == "]"
    ensures DropTrailingCommas(",,]") == ",]"
  {
    LastCommaDangles();
    FirstCommaKept();
  }

  lemma LastCommaDangles()
    ensures DropTrailingCommas(",]") == "]"
  {
    assert DropTrailingCommas("]") == "]" by {
      assert "]"[1..] == "";
      DropHead("]");
    }
    assert Dangling(",]", 0) by {
      assert ",]"[1..] == "]";
      VisibleHead("]");
    }
    assert ",]"[1..] == "]";
  }

  lemma FirstCommaKept()
    requires DropTrailingCommas(",]") == "]"
    ensures DropTrailingCommas(",,]") == ",]"
  {
    CommaBeforeComma();
    DropHead(",,]");
    assert ",,]"[1..] == ",]";
  }

  lemma CommaBeforeComma()
    ensures !Dangling(",,]", 0)
  {
    assert ",,]"[1..] == ",]";
    VisibleHead(",]");
  }

  // ---------------------------------------------------------------------
  // `.replace(/}(?!\s*[,\]}])/g, '},')` and the same for `]`

  predicate IsDelimiter(c: char)
  {
    c == ',' || c == ']' || c == '}'
  }

  /** `\s*[,\]}]` matches at the start of `s`. */
  predicate DelimiterAhead(s: string)
  {
    var v := FirstVisible(s);
    v.Some? && IsDelimiter(v.value)
  }

  /** Every `closer` in `s` is followed, after optional whitespace, by a
      delimiter. */
  predicate Delimited(s: string, closer: char)
  {
    forall i :: 0 <= i < |s| && s[i] == closer ==> DelimiterAhead(s[i + 1..])
  }

  /** Writes a comma after every `closer` the lookahead rejects. */
  function InsertComma(s: string, closer: char): string
    requires IsCloser(closer)
    decreases |s|
  {
    if |s| == 0 then ""
    else if s[0] == closer && !DelimiterAhead(s[1..]) then
      [s[0], ','] + InsertComma(s[1..], closer)
    else
      [s[0]] + InsertComma(s[1..], closer)
  }

  /** Text without the closer passes through a pass untouched. */
  lemma {:induction false} InsertCommaPrefix(z: string, t: string, closer: char)
    requires IsCloser(closer) && closer !in z
    ensures InsertComma(z + t, closer) == z + InsertComma(t, closer)
    decreases |z|
  {
    if |z| > 0 {
      assert (z + t)[0] == z[0] && (z + t)[1..] == z[1..] + t;
      InsertCommaPrefix(z[1..], t, closer);
      assert z == [z[0]] + z[1..];
      Regroup3([z[0]], z[1..], InsertComma(t, closer));
    } else {
      assert z + t == t;
    }
  }

  /** The comma written after a closer: one when the lookahead rejects
      what follows, none otherwise. */
  lemma InsertCommaAtCloser(closer: char, y: string)
    requires IsCloser(closer)
    ensures InsertComma([closer] + y, closer)
            == [closer] + (if DelimiterAhead(y) then "" else ",") + InsertComma(y, closer)
  {
    assert ([closer] + y)[1..] == y;
  }

  /** Where a pass writes commas: after closer-free text, the first closer
      gets exactly one comma when the lookahead rejects what follows it,
      and none otherwise; the rest is processed on its own. With
      `InsertCommaPrefix` this determines the pass on every input. */
  lemma InsertCommaAfterRun(x: string, closer: char, y: string)
    requires IsCloser(closer) && closer !in x
    ensures InsertComma(x + [closer] + y, closer)
            == x + [closer] + (if DelimiterAhead(y) then "" else ",") + InsertComma(y, closer)
  {
    assert x + [closer] + y == x + ([closer] + y);
    InsertCommaPrefix(x, [closer] + y, closer);
    InsertCommaAtCloser(closer, y);
    Regroup3(x, [closer] + (if DelimiterAhead(y) then "" else ","), InsertComma(y, closer));
    Regroup3(x, [closer], if DelimiterAhead(y) then "" else ",");
  }

  /** The step adds commas and nothing else. */
  lemma {:induction false} InsertCommaAddsOnlyCommas(s: string, closer: char)
    requires IsCloser(closer)
    ensures Filter(NotComma, InsertComma(s, closer)) == Filter(NotComma, s)
    ensures |InsertComma(s, closer)| >= |s|
    decreases |s|
  {
    if |s| > 0 {
      var rest := InsertComma(s[1..], closer);
      InsertCommaAddsOnlyCommas(s[1..], closer);
      assert s == [s[0]] + s[1..];
      FilterConcat(NotComma, [s[0]], s[1..]);
      if s[0] == closer && !DelimiterAhead(s[1..]) {
        FilterConcat(NotComma, [s[0], ','], rest);
      } else {
        FilterConcat(NotComma, [s[0]], rest);
      }
    }
  }

  /** Inserting commas never changes which visible character comes first:
      a comma is only written right after a non-whitespace closer. */
  lemma {:induction false} FirstVisibleKept(s: string, closer: char)
    requires IsCloser(closer)
    ensures FirstVisible(InsertComma(s, closer)) == FirstVisible(s)
    decreases |s|
  {
    if |s| > 0 {
      if IsWhitespace(s[0]) {
        var rest := InsertComma(s[1..], closer);
        assert InsertComma(s, closer) == [s[0]] + rest;
        FirstVisibleKept(s[1..], closer);
        assert s == [s[0]] + s[1..];
        FirstVisibleSkips(s[0], s[1..]);
        FirstVisibleSkips(s[0], rest);
      } else {
        VisibleHead(s);
        VisibleHead(InsertComma(s, closer));
      }
    }
  }

  lemma FirstVisibleSkips(c: char, t: string)
    requires IsWhitespace(c)
    ensures FirstVisible([c] + t) == FirstVisible(t)
  {
    assert ([c] + t)[1..] == t;
  }

  lemma VisibleHead(s: string)
    requires |s| > 0 && !IsWhitespace(s[0])
    ensures FirstVisible(s) == Some(s[0])
  {
  }

  /** The dropped head of delimited text leaves it delimited. */
  lemma DelimitedTail(s: string, closer: char)
    requires |s| > 0 && Delimited(s, closer)
    ensures Delimited(s[1..], closer)
  {
    forall i | 0 <= i < |s[1..]| && s[1..][i] == closer
      ensures DelimiterAhead(s[1..][i + 1..])
    {
      assert s[i + 1] == closer;
      assert s[1..][i + 1..] == s[i + 2..];
    }
  }

  /** A character put in front of delimited text keeps it delimited when
      it is no `closer` or a delimiter follows it. */
  lemma DelimitedCons(c: char, t: string, closer: char)
    requires Delimited(t, closer)
    requires c == closer ==> DelimiterAhead(t)
    ensures Delimited([c] + t, closer)
  {
    var r := [c] + t;
    forall i | 0 <= i < |r| && r[i] == closer
      ensures DelimiterAhead(r[i + 1..])
    {
      if i == 0 {
        assert r[1..] == t;
      } else {
        assert r[i] == t[i - 1];
        assert r[i + 1..] == t[i..];
      }
    }
  }

  lemma CommaAhead(t: string)
    ensures DelimiterAhead([','] + t)
  {
    VisibleHead([','] + t);
  }

  /** After the step every `closer` is followed by a delimiter. */
  lemma {:induction false} InsertCommaDelimits(s: string, closer: char)
    requires IsCloser(closer)
    ensures Delimited(InsertComma(s, closer), closer)
    decreases |s|
  {
    if |s| > 0 {
      var rest := InsertComma(s[1..], closer);
      InsertCommaDelimits(s[1..], closer);
      if s[0] == closer && !DelimiterAhead(s[1..]) {
        assert InsertComma(s, closer) == [s[0]] + ([','] + rest);
        DelimitedCons(',', rest, closer);
        CommaAhead(rest);
        DelimitedCons(s[0], [','] + rest, closer);
      } else {
        assert InsertComma(s, closer) == [s[0]] + rest;
        FirstVisibleKept(s[1..], closer);
        DelimitedCons(s[0], rest, closer);
      }
    }
  }

  /** Text in which every `closer` is already delimited is left unchanged. */
  lemma {:induction false} InsertCommaKeepsDelimited(s: string, closer: char)
    requires IsCloser(closer) && Delimited(s, closer)
    ensures InsertComma(s, closer) == s
    decreases |s|
  {
    if |s| > 0 {
      DelimitedTail(s, closer);
      InsertCommaKeepsDelimited(s[1..], closer);
      assert s[0] == closer ==> DelimiterAhead(s[1..]);
      assert s == [s[0]] + s[1..];
    }
  }

  /** Comma insertion is idempotent. */
  lemma InsertCommaIdempotent(s: string, closer: char)
    requires IsCloser(closer)
    ensures InsertComma(InsertComma(s, closer), closer) == InsertComma(s, closer)
  {
    InsertCommaDelimits(s, closer);
    InsertCommaKeepsDelimited(InsertComma(s, closer), closer);
  }

  /** The `]` pass keeps what the `}` pass established. */
  lemma {:induction false} BracketPassKeepsBraces(s: string)
    requires Delimited(s, '}')
    ensures Delimited(InsertComma(s, ']'), '}')
    decreases |s|
  {
    if |s| > 0 {
      DelimitedTail(s, '}');
      BracketPassKeepsBraces(s[1..]);
      var rest := InsertComma(s[1..], ']');
      if s[0] == ']' && !DelimiterAhead(s[1..]) {
        assert InsertComma(s, ']') == [s[0]] + ([','] + rest);
        DelimitedCons(',', rest, '}');
        DelimitedCons(s[0], [','] + rest, '}');
      } else {
        assert InsertComma(s, ']') == [s[0]] + rest;
        assert s[0] == '}' ==> DelimiterAhead(s[1..]);
        FirstVisibleKept(s[1..], ']');
        DelimitedCons(s[0], rest, '}');
      }
    }
  }

  // ---------------------------------------------------------------------
  // `.replace(/^"/, '').replace(/"$/, '')`

  /** Drops one leading and then one trailing double quote. */
  function StripQuotes(s: string): (r: string)
    ensures |r| <= |s| <= |r| + 2
    ensures |s| > 0 && s[0] == '"' ==> |r| < |s| && r == s[1..1 + |r|]
    ensures (|s| == 0 || s[0] != '"') ==> r == s[..|r|]
    ensures |r| < |s| <==> (|s| > 0 && s[0] == '"') || EndsWith(s, '"')
  {
    var t := if |s| > 0 && s[0] == '"' then s[1..] else s;
    if EndsWith(t, '"') then t[..|t| - 1] else t
  }

  /** A quoted text loses exactly its enclosing quotes, a text quoted on
      one side only loses just that quote, and an unquoted one is
      unchanged. */
  lemma StripQuotesOfQuoted(x: string)
    ensures StripQuotes("\"" + x + "\"") == x
    ensures (|x| == 0 || x[|x| - 1] != '"') ==> StripQuotes("\"" + x) == x
    ensures (|x| == 0 || x[0] != '"') ==> StripQuotes(x + "\"") == x
    ensures (|x| == 0 || (x[0] != '"' && x[|x| - 1] != '"')) ==> StripQuotes(x) == x
  {
    assert ("\"" + x + "\"")[1..] == x + "\"";
    assert ("\"" + x)[1..] == x;
    assert (x + "\"")[..|x|] == x;
    if |x| > 0 {
      assert (x + "\"")[0] == x[0];
    }
  }

  // ---------------------------------------------------------------------
  // `.replace(/^(.+),\s*$/, '$1')`

  /** The text minus its last visible character when that is a comma with
      at least one character, and no line terminator, before it; the text
      itself otherwise. */
  function DropFinalComma(s: string): (r: string)
    ensures r == s || (EndsWith(TrimEnd(s), ',') && r == TrimEnd(s)[..|TrimEnd(s)| - 1])
    ensures |r| <= |s| && r == s[..|r|]
    ensures r != s <==> && |TrimEnd(s)| >= 2 && EndsWith(TrimEnd(s), ',')
                        && NoLineTerminator(TrimEnd(s)[..|TrimEnd(s)| - 1])
  {
    var t := TrimEnd(s);
    if |t| >= 2 && t[|t| - 1] == ',' && NoLineTerminator(t[..|t| - 1]) then t[..|t| - 1] else s
  }

  /** The pattern's own reading: a non-empty run without line terminators,
      a comma, and trailing whitespace give back the run. */
  lemma DropFinalCommaMatches(p: string, w: string)
    requires |p| > 0 && NoLineTerminator(p) && AllWhitespace(w)
    ensures DropFinalComma(p + "," + w) == p
  {
    var s := p + "," + w;
    TrimEndOfPadded(p + ",", w);
    assert (p + ",")[..|p|] == p;
  }

  lemma TrimEndOfPadded(a: string, w: string)
    requires |a| > 0 && !IsWhitespace(a[|a| - 1]) && AllWhitespace(w)
    ensures TrimEnd(a + w) == a
  {
    TrimEndConcat(a, w);
    TrimEndOfVisible(a);
  }

  /** Two texts the pattern leaves alone although they end in a comma:
      `.+` needs a character before the comma, and `.` stops at a line
      terminator. */
  lemma DropFinalCommaNeedsOneLine(p: string, q: string)
    ensures DropFinalComma(",") == ","
    ensures DropFinalComma(p + "\n" + q + ",") == p + "\n" + q + ","
  {
    var s := p + "\n" + q + ",";
    var t := TrimEnd(s);
    TrimEndOfVisible(s);
    assert t[..|t| - 1][|p|] == '\n';
  }

  /** When the text does not end in a comma (after whitespace) the step
      leaves it unchanged. */
  lemma DropFinalCommaOnlyAtEnd(s: string)
    requires !EndsWith(TrimEnd(s), ',')
    ensures DropFinalComma(s) == s
  {
  }

  // ---------------------------------------------------------------------

  /** The two comma-insertion passes: afterwards every `}` and every `]`
      is followed by a delimiter, and no character other than a comma was
      added or lost. */
  function InsertCommas(s: string): (r: string)
    ensures Delimited(r, '}') && Delimited(r, ']')
    ensures Filter(NotComma, r) == Filter(NotComma, s)
  {
    var b := InsertComma(s, '}');
    InsertCommaAddsOnlyCommas(s, '}');
    InsertCommaAddsOnlyCommas(b, ']');
    InsertCommaDelimits(s, '}');
    InsertCommaDelimits(b, ']');
    BracketPassKeepsBraces(b);
    InsertComma(b, ']')
  }

  /** Text with no closer is left as it is by both passes. */
  lemma InsertCommasOfPlain(x: string)
    requires '}' !in x && ']' !in x
    ensures InsertCommas(x) == x
  {
    assert x + "" == x;
    InsertCommaPrefix(x, "", '}');
    InsertCommaPrefix(x, "", ']');
  }

  /** Where the two passes write commas: the first closer after
      closer-free text gets exactly one comma when the lookahead rejects
      what follows it, and none otherwise. The `}` pass never changes the
      first visible character after a `]`, so the `]` pass sees the same
      lookahead. With `InsertCommasOfPlain` this determines both passes on
      every input. */
  lemma InsertCommasAfterRun(x: string, c: char, y: string)
    requires '}' !in x && ']' !in x && IsCloser(c)
    ensures InsertCommas(x + [c] + y) == x + [c] + (if DelimiterAhead(y) then "" else ",") + InsertCommas(y)
  {
    var m := if DelimiterAhead(y) then "" else ",";
    var y1 := InsertComma(y, '}');
    if c == '}' {
      InsertCommaAfterRun(x, '}', y);
      var z := x + [c] + m;
      assert ']' !in z;
      InsertCommaPrefix(z, y1, ']');
    } else {
      assert x + [c] + y == (x + [c]) + y;
      InsertCommaPrefix(x + [c], y, '}');
      FirstVisibleKept(y, '}');
      InsertCommaAfterRun(x, ']', y1);
    }
  }

  /** The whole chain, with the heuristic repairs of lines 91-103 as the
      uninterpreted `fixes`. */
  function CleanContent(text: string, fixes: string -> string): string
  {
    var c := CollapseWhitespace(StripFences(text));
    DropFinalComma(StripQuotes(InsertCommas(DropTrailingCommas(fixes(c)))))
  }
}
