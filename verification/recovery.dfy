/** Partial-entry recovery of the kayak route (app/api/kayaks/route.ts): the
    global match of `/\{[^{]*"id":[^}]*"reviewDate":[^}]*\}/g` over the
    cleaned completion, the per-fragment parse check of the first four
    matches, and the rebuilt array text. */
module Recovery {

  import opened Wrappers
  import opened Text
  import opened Seqs
  import opened JsValues

  const IdKey: string := "\"id\":"
  const DateKey: string := "\"reviewDate\":"

  /** No occurrence of `c` in `s[lo..hi]`. */
  predicate NoChar(s: string, lo: nat, hi: nat, c: char)
    requires lo <= hi <= |s|
  {
    forall k :: lo <= k < hi ==> s[k] != c
  }

  /** `"reviewDate":` occurs wholly inside `s[lo..hi]`. */
  predicate DateBetween(s: string, lo: nat, hi: nat)
    requires lo <= hi <= |s|
  {
    exists q: nat :: lo <= q < hi && q + |DateKey| <= hi && HasAt(s, q, DateKey)
  }

  /** `s[i..e]` matches the pattern with its `"id":` at `p`: an opening
      brace, no `{` up to the `"id":`, then no `}` before the closing brace
      and a `"reviewDate":` somewhere in that stretch. */
  predicate AnchorAt(s: string, i: nat, e: nat, p: nat)
  {
    && i < p && p + |IdKey| < e <= |s|
    && s[i] == '{' && s[e - 1] == '}'
    && HasAt(s, p, IdKey)
    && NoChar(s, i + 1, p, '{')
    && NoChar(s, p + |IdKey|, e - 1, '}')
    && DateBetween(s, p + |IdKey|, e - 1)
  }

  /** `s[i..e]` is a match of the recovery pattern. */
  ghost predicate FragmentAt(s: string, i: nat, e: nat)
  {
    exists p: nat :: AnchorAt(s, i, e, p)
  }

  /** A whole string the recovery pattern matches exactly. */
  ghost predicate IsFragment(f: string)
  {
    FragmentAt(f, 0, |f|)
  }

  /** Index of the first `c` at or after `from`, or `|s|`. */
  function FirstIndexOf(s: string, c: char, from: nat): (k: nat)
    requires from <= |s|
    ensures from <= k <= |s|
    ensures k < |s| ==> s[k] == c
    ensures NoChar(s, from, k, c)
    decreases |s| - from
  {
    if from == |s| || s[from] == c then from else FirstIndexOf(s, c, from + 1)
  }

  /** The `"id":` at `p` can anchor a match: a `}` follows it, and a
      `"reviewDate":` lies between them. */
  predicate Candidate(s: string, p: nat)
  {
    && HasAt(s, p, IdKey)
    && FirstIndexOf(s, '}', p + |IdKey|) < |s|
    && DateBetween(s, p + |IdKey|, FirstIndexOf(s, '}', p + |IdKey|))
  }

  /** A match anchored at `p` ends at the first `}` after its `"id":`. */
  lemma AnchorIsCandidate(s: string, i: nat, e: nat, p: nat)
    requires AnchorAt(s, i, e, p)
    ensures Candidate(s, p) && FirstIndexOf(s, '}', p + |IdKey|) == e - 1
  {
  }

  lemma AnchorsAreCandidates(s: string, i: nat, p: nat)
    ensures forall e: nat :: AnchorAt(s, i, e, p) ==> Candidate(s, p)
  {
    forall e: nat | AnchorAt(s, i, e, p)
      ensures Candidate(s, p)
    {
      AnchorIsCandidate(s, i, e, p);
    }
  }

  /** The backtracking of the greedy `[^{]*`: the `"id":` candidates below
      `hi` are tried from the last one down; for a candidate the match must
      end at the first `}` after it, which needs a `"reviewDate":` before
      that brace. */
  function TryAnchors(s: string, i: nat, hi: nat): (r: Option<nat>)
    requires i < hi <= |s| && s[i] == '{'
    requires NoChar(s, i + 1, hi, '{')
    ensures r.Some? ==> FragmentAt(s, i, r.value)
    ensures r.Some? ==> exists p: nat :: AnchorAt(s, i, r.value, p) && NoAnchorIn(s, i, p, hi)
    ensures r.None? ==> forall e: nat, p: nat :: p < hi ==> !AnchorAt(s, i, e, p)
    decreases hi
  {
    if hi == i + 1 then None
    else
      var p := hi - 1;
      if Candidate(s, p) then
        var c := FirstIndexOf(s, '}', p + |IdKey|);
        assert AnchorAt(s, i, c + 1, p) && NoAnchorIn(s, i, p, hi);
        Some(c + 1)
      else
        AnchorsAreCandidates(s, i, p);
        var r := TryAnchors(s, i, p);
        if r.Some? then
          SkipRejected(s, i, r.value, p);
          r
        else r
  }

  /** No `"id":` strictly between `lo` and `hi` anchors a match from `i`. */
  ghost predicate NoAnchorIn(s: string, i: nat, lo: nat, hi: nat)
  {
    forall q: nat, e: nat :: lo < q < hi ==> !AnchorAt(s, i, e, q)
  }

  /** A candidate that cannot anchor a match does not displace a lower
      one. */
  lemma SkipRejected(s: string, i: nat, e: nat, p: nat)
    requires exists p0: nat :: AnchorAt(s, i, e, p0) && NoAnchorIn(s, i, p0, p)
    requires forall e': nat :: !AnchorAt(s, i, e', p)
    ensures exists p0: nat :: AnchorAt(s, i, e, p0) && NoAnchorIn(s, i, p0, p + 1)
  {
    var p0: nat :| AnchorAt(s, i, e, p0) && NoAnchorIn(s, i, p0, p);
    assert NoAnchorIn(s, i, p0, p + 1);
  }

  /** With every anchor below `hi`, the last one below `hi` is the last
      one anywhere. */
  lemma NoAnchorAbove(s: string, i: nat, e: nat, hi: nat)
    requires exists p0: nat :: AnchorAt(s, i, e, p0) && NoAnchorIn(s, i, p0, hi)
    requires forall e': nat, q: nat :: AnchorAt(s, i, e', q) ==> q < hi
    ensures exists p0: nat :: AnchorAt(s, i, e, p0) && NoAnchorIn(s, i, p0, |s|)
  {
    var p0: nat :| AnchorAt(s, i, e, p0) && NoAnchorIn(s, i, p0, hi);
    assert NoAnchorIn(s, i, p0, |s|);
  }

  /** Whether the pattern matches starting at `i`, and where that match
      ends. */
  function MatchAt(s: string, i: nat): (r: Option<nat>)
    requires i <= |s|
    ensures r.Some? ==> i < r.value <= |s| && FragmentAt(s, i, r.value)
    ensures r.Some? ==> exists p: nat :: AnchorAt(s, i, r.value, p) && NoAnchorIn(s, i, p, |s|)
    ensures r.None? ==> forall e: nat :: !FragmentAt(s, i, e)
  {
    if i == |s| || s[i] != '{' then None
    else
      var l := FirstIndexOf(s, '{', i + 1);
      var r := TryAnchors(s, i, l);
      assert forall e: nat, p: nat :: AnchorAt(s, i, e, p) ==> p < l by {
        forall e: nat, p: nat | AnchorAt(s, i, e, p)
          ensures p < l
        {
          if l < |s| {
            assert s[l] == '{' && s[p] == '"';
          }
        }
      }
      if r.Some? then
        NoAnchorAbove(s, i, r.value, l);
        r
      else r
  }

  /** The greedy `[^{]*` settles on the last `"id":` that can anchor a
      match, and the match then ends at the first `}` after it: a match
      whose anchor has no later rival is the one reported. */
  lemma LastAnchorReported(s: string, i: nat, e: nat, p: nat)
    requires AnchorAt(s, i, e, p)
    requires NoAnchorIn(s, i, p, |s|)
    ensures MatchAt(s, i) == Some(e)
  {
    var r := MatchAt(s, i);
    assert r.Some?;
    LastAnchorUnique(s, i, e, p, r.value);
  }

  /** The last `"id":` anchor is unique, and so is the end it gives. */
  lemma LastAnchorUnique(s: string, i: nat, e: nat, p: nat, e0: nat)
    requires AnchorAt(s, i, e, p) && NoAnchorIn(s, i, p, |s|)
    requires exists p0: nat :: AnchorAt(s, i, e0, p0) && NoAnchorIn(s, i, p0, |s|)
    ensures e0 == e
  {
    var p0: nat :| AnchorAt(s, i, e0, p0) && NoAnchorIn(s, i, p0, |s|);
    assert !(p < p0) by {
      assert !AnchorAt(s, i, e0, p0) || !(p < p0 < |s|);
    }
    assert !(p0 < p) by {
      assert !AnchorAt(s, i, e, p) || !(p0 < p < |s|);
    }
    AnchorIsCandidate(s, i, e, p);
    AnchorIsCandidate(s, i, e0, p);
  }

  /** A match `[start, end)` of the pattern in the text. */
  datatype Span = Span(start: nat, end: nat)

  predicate Ordered(r: seq<Span>)
  {
    forall j :: 0 <= j < |r| - 1 ==> r[j].end <= r[j + 1].start
  }

  /** `String.prototype.match` with the `g` flag, from position `k`: the
      leftmost match, then the search resumes at its end. */
  function MatchesFrom(s: string, k: nat): (r: seq<Span>)
    requires k <= |s|
    ensures forall j :: 0 <= j < |r| ==> k <= r[j].start < r[j].end <= |s|
    ensures Ordered(r)
    decreases |s| - k
  {
    if k == |s| then []
    else
      match MatchAt(s, k)
      case Some(e) => [Span(k, e)] + MatchesFrom(s, e)
      case None => MatchesFrom(s, k + 1)
  }

  /** Every reported span is a match. */
  lemma {:induction false} MatchesAreFragments(s: string, k: nat)
    requires k <= |s|
    ensures forall j :: 0 <= j < |MatchesFrom(s, k)| ==>
              FragmentAt(s, MatchesFrom(s, k)[j].start, MatchesFrom(s, k)[j].end)
    decreases |s| - k
  {
    if k < |s| {
      match MatchAt(s, k)
      case Some(e) =>
        MatchesAreFragments(s, e);
        FragmentsCons(s, k, e, MatchesFrom(s, e));
      case None =>
        MatchesAreFragments(s, k + 1);
    }
  }

  lemma FragmentsCons(s: string, k: nat, e: nat, rest: seq<Span>)
    requires FragmentAt(s, k, e)
    requires forall j :: 0 <= j < |rest| ==> FragmentAt(s, rest[j].start, rest[j].end)
    ensures forall j :: 0 <= j < |rest| + 1 ==>
              FragmentAt(s, ([Span(k, e)] + rest)[j].start, ([Span(k, e)] + rest)[j].end)
  {
    var r := [Span(k, e)] + rest;
    forall j | 0 <= j < |r|
      ensures FragmentAt(s, r[j].start, r[j].end)
    {
      if j > 0 {
        assert r[j] == rest[j - 1];
      }
    }
  }

  /** Some span of `r` contains position `i`. */
  predicate Covers(r: seq<Span>, i: nat)
  {
    exists j :: 0 <= j < |r| && r[j].start <= i < r[j].end
  }

  lemma CoversCons(sp: Span, r: seq<Span>, i: nat)
    requires Covers(r, i)
    ensures Covers([sp] + r, i)
  {
    var j :| 0 <= j < |r| && r[j].start <= i < r[j].end;
    assert ([sp] + r)[j + 1] == r[j];
  }

  /** No match is missed: every place where the pattern could match lies
      inside one of the reported matches. */
  lemma {:induction false} MatchesCoverEveryFragment(s: string, k: nat, i: nat, e: nat)
    requires k <= i <= |s| && FragmentAt(s, i, e)
    ensures Covers(MatchesFrom(s, k), i)
    decreases |s| - k
  {
    var p: nat :| AnchorAt(s, i, e, p);
    assert k < |s|;
    match MatchAt(s, k)
    case Some(e') =>
      var rest := MatchesFrom(s, e');
      assert MatchesFrom(s, k) == [Span(k, e')] + rest;
      if i < e' {
        assert MatchesFrom(s, k)[0] == Span(k, e');
      } else {
        MatchesCoverEveryFragment(s, e', i, e);
        CoversCons(Span(k, e'), rest, i);
      }
    case None =>
      if i == k {
        assert false;
      }
      MatchesCoverEveryFragment(s, k + 1, i, e);
  }

  /** The matched fragments, in text order. */
  function Fragments(s: string): (r: seq<string>)
    ensures forall j :: 0 <= j < |r| ==> IsFragment(r[j])
    ensures |r| == |MatchesFrom(s, 0)|
    ensures forall j :: 0 <= j < |r| ==> r[j] == s[MatchesFrom(s, 0)[j].start..MatchesFrom(s, 0)[j].end]
  {
    var spans := MatchesFrom(s, 0);
    MatchesAreFragments(s, 0);
    var r := seq(|spans|, j requires 0 <= j < |spans| => s[spans[j].start..spans[j].end]);
    assert forall j :: 0 <= j < |r| ==> IsFragment(r[j]) by {
      forall j | 0 <= j < |r| {
        FragmentShift(s, spans[j].start, spans[j].end);
      }
    }
    r
  }

  /** A match inside a longer text is a match of the extracted substring. */
  lemma FragmentShift(s: string, i: nat, e: nat)
    requires i <= e <= |s| && FragmentAt(s, i, e)
    ensures IsFragment(s[i..e])
  {
    var f := s[i..e];
    var p: nat :| AnchorAt(s, i, e, p);
    HasAtShift(s, i, e, p, IdKey);
    NoCharShift(s, i, e, i + 1, p, '{');
    NoCharShift(s, i, e, p + |IdKey|, e - 1, '}');
    DateBetweenShift(s, i, e, p + |IdKey|, e - 1);
    assert f[0] == s[i] && f[|f| - 1] == s[e - 1];
    assert AnchorAt(f, 0, |f|, p - i);
  }

  lemma DateBetweenShift(s: string, i: nat, e: nat, lo: nat, hi: nat)
    requires i <= lo <= hi <= e <= |s| && DateBetween(s, lo, hi)
    ensures DateBetween(s[i..e], lo - i, hi - i)
  {
    var q: nat :| lo <= q < hi && q + |DateKey| <= hi && HasAt(s, q, DateKey);
    HasAtShift(s, i, e, q, DateKey);
    assert lo - i <= q - i < hi - i && HasAt(s[i..e], q - i, DateKey);
  }

  lemma HasAtShift(s: string, i: nat, e: nat, q: nat, pattern: string)
    requires i <= q && q + |pattern| <= e <= |s| && HasAt(s, q, pattern)
    ensures HasAt(s[i..e], q - i, pattern)
  {
    var f := s[i..e];
    forall k | 0 <= k < |pattern|
      ensures f[q - i..q - i + |pattern|][k] == pattern[k]
    {
      assert f[q - i..q - i + |pattern|][k] == s[q + k] == s[q..q + |pattern|][k];
    }
  }

  lemma NoCharShift(s: string, i: nat, e: nat, lo: nat, hi: nat, c: char)
    requires i <= lo <= hi <= e <= |s| && NoChar(s, lo, hi, c)
    ensures NoChar(s[i..e], lo - i, hi - i, c)
  {
    forall k | lo - i <= k < hi - i
      ensures s[i..e][k] != c
    {
      assert s[i..e][k] == s[i + k];
    }
  }

  /** The prompted record shape nests the `specs` object between `"id":`
      and `"reviewDate":`. Any string with a `{` and a later `}` strictly
      inside its outer braces is not a match: the `{` must come after the
      `"id":`, and then the `}` lies between the `"id":` and the closing
      brace. */
  lemma NestedObjectNeverMatches(f: string, a: nat, b: nat)
    requires 1 <= a < b < |f| - 1 && f[a] == '{' && f[b] == '}'
    ensures !IsFragment(f)
  {
    forall p: nat
      ensures !AnchorAt(f, 0, |f|, p)
    {
      if a < p <= |f| {
        assert !NoChar(f, 1, p, '{');
      } else if p <= a && HasAt(f, p, IdKey) && p + |IdKey| < |f| {
        forall k | p <= k < p + |IdKey|
          ensures f[k] != '{'
        {
          assert f[k] == f[p..p + |IdKey|][k - p];
        }
        assert !NoChar(f, p + |IdKey|, |f| - 1, '}');
      }
    }
  }

  /** The record text the route's prompt asks the model for, with each
      field value given as raw JSON text. */
  function PromptedRecord(id: string, title: string, specs: string, summary: string, reviewDate: string): string
  {
    "{\"id\": " + id + ", \"title\": " + title + ", \"specs\": {" + specs
      + "}, \"summary\": " + summary + ", \"reviewDate\": " + reviewDate + "}"
  }

  /** Whatever the field values, a record of the prompted shape is never a
      match, so recovery can never return it. */
  lemma PromptedRecordNeverRecovered(id: string, title: string, specs: string, summary: string,
                                     reviewDate: string, text: string)
    ensures !IsFragment(PromptedRecord(id, title, specs, summary, reviewDate))
    ensures PromptedRecord(id, title, specs, summary, reviewDate) !in Fragments(text)
  {
    var head := "{\"id\": " + id + ", \"title\": " + title + ", \"specs\": ";
    var tail := "}, \"summary\": " + summary + ", \"reviewDate\": " + reviewDate + "}";
    var f := PromptedRecord(id, title, specs, summary, reviewDate);
    assert f == head + "{" + specs + tail;
    var a := |head|;
    var b := |head| + 1 + |specs|;
    assert f[a] == '{';
    assert f[b] == tail[0] == '}';
    assert |tail| > 2;
    NestedObjectNeverMatches(f, a, b);
  }

  /** In contrast, a flat record, with no brace between its `"id":` and its
      closing brace, is a match. */
  lemma FlatRecordMatches(before: string, after: string)
    requires forall k :: 0 <= k < |before| ==> before[k] != '}'
    requires forall k :: 0 <= k < |after| ==> after[k] != '}'
    ensures IsFragment("{" + IdKey + before + DateKey + after + "}")
  {
    var f := "{" + IdKey + before + DateKey + after + "}";
    var q := 1 + |IdKey| + |before|;
    assert f[1..1 + |IdKey|] == IdKey;
    assert f[q..q + |DateKey|] == DateKey;
    assert HasAt(f, q, DateKey);
    assert forall k :: 1 + |IdKey| <= k < |f| - 1 ==> f[k] != '}' by {
      forall k | 1 + |IdKey| <= k < |f| - 1
        ensures f[k] != '}'
      {
        if k < q {
          assert f[k] == before[k - 1 - |IdKey|];
        } else if k < q + |DateKey| {
          assert f[k] == DateKey[k - q];
        } else {
          assert f[k] == after[k - q - |DateKey|];
        }
      }
    }
    assert AnchorAt(f, 0, |f|, 1);
  }

  /** Outcome of the recovery branch. */
  datatype Recovery =
    | NoMatch
    | NoneParsed
    | Rebuilt(survivors: seq<string>, text: string)

  predicate Parses(parse: string -> ParseResult, f: string)
  {
    parse(f).Parsed?
  }

  /** The test `entries.slice(0, 4).filter(...)` applies to a fragment. */
  function ParsesBy(parse: string -> ParseResult): string -> bool
  {
    f => Parses(parse, f)
  }

  /** Not one of `candidates` parses. */
  predicate NoneParses(candidates: seq<string>, parse: string -> ParseResult)
  {
    forall f :: f in candidates ==> !Parses(parse, f)
  }

  /** `entries.slice(0, 4).filter(parses)` and the rebuilt `[a,b,...]`. */
  function Recover(clean: string, parse: string -> ParseResult): (r: Recovery)
    ensures r.NoMatch? <==> |Fragments(clean)| == 0
    ensures r.NoneParsed? <==> |Fragments(clean)| > 0 && NoneParses(Take(Fragments(clean), 4), parse)
    ensures r.Rebuilt? ==> SurvivorsOf(r.survivors, Take(Fragments(clean), 4), parse)
    ensures r.Rebuilt? ==> r.text == "[" + Join(r.survivors, ",") + "]"
  {
    var entries := Fragments(clean);
    if |entries| == 0 then NoMatch
    else
      var first := Take(entries, 4);
      var valid := Filter(ParsesBy(parse), first);
      if |valid| == 0 then
        assert NoneParses(first, parse);
        NoneParsed
      else
        SurvivorsLemma(first, valid, parse);
        Rebuilt(valid, "[" + Join(valid, ",") + "]")
  }

  /** What survives the parse check: between one and four fragments, in
      their original order, each of which parses, and as many of them as
      there are parsing candidates, so a fragment that occurs twice
      survives twice. */
  ghost predicate SurvivorsOf(survivors: seq<string>, candidates: seq<string>, parse: string -> ParseResult)
  {
    && 1 <= |survivors| <= 4
    && IsSubsequence(survivors, candidates)
    && (forall j :: 0 <= j < |survivors| ==> IsFragment(survivors[j]) && Parses(parse, survivors[j]))
    && (forall f :: f in candidates && Parses(parse, f) ==> f in survivors)
    && |survivors| == Count(ParsesBy(parse), candidates)
  }

  /** The survivor description admits exactly one list: the candidates
      that parse, in order and with their repetitions. */
  lemma SurvivorsAreFiltered(survivors: seq<string>, candidates: seq<string>, parse: string -> ParseResult)
    requires SurvivorsOf(survivors, candidates, parse)
    ensures survivors == Filter(ParsesBy(parse), candidates)
  {
    FullSubsequenceIsFilter(ParsesBy(parse), survivors, candidates);
  }

  lemma SurvivorsLemma(first: seq<string>, valid: seq<string>, parse: string -> ParseResult)
    requires |first| <= 4 && forall j :: 0 <= j < |first| ==> IsFragment(first[j])
    requires valid == Filter(ParsesBy(parse), first) && |valid| > 0
    ensures SurvivorsOf(valid, first, parse)
    ensures !NoneParses(first, parse)
  {
    SubsequenceLength(valid, first);
    SubsequenceMembers(valid, first, valid[0]);
    forall j | 0 <= j < |valid|
      ensures IsFragment(valid[j])
    {
      SubsequenceMembers(valid, first, valid[j]);
    }
  }

  /** Every match begins at a `{` of the text. */
  lemma FragmentsNeedBrace(s: string)
    ensures |Fragments(s)| > 0 ==> '{' in s
  {
    if |Fragments(s)| > 0 {
      var sp := MatchesFrom(s, 0)[0];
      MatchesAreFragments(s, 0);
      assert FragmentAt(s, sp.start, sp.end);
      assert s[sp.start] == '{';
    }
  }
}
