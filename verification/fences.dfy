/** Removal of Markdown code fences around a model completion:
    `text.replace(/```json\n?|\n?```/g, '').trim()`, written identically in
    app/api/kayaks/route.ts and app/components/KayakGrid.tsx. */
module Fences {

  import opened Text
  import opened Seqs

  predicate NoBacktick(s: string)
  {
    forall i :: 0 <= i < |s| ==> s[i] != '`'
  }

  /** The global replace, scanning left to right. At each position the
      first alternative, an opening fence with its newline, is tried before
      the second, a closing fence with the newline before it; text that
      matches neither is kept one character at a time. */
  function RemoveFences(s: string): (r: string)
    ensures IsSubsequence(r, s)
    ensures NoBacktick(s) ==> r == s
    decreases |s|
  {
    if |s| == 0 then ""
    else if HasAt(s, 0, "```json") then
      assert s[0] == "```json"[0];
      var k := if HasAt(s, 7, "\n") then 8 else 7;
      var r := RemoveFences(s[k..]);
      SubsequenceOfSuffix(r, s, k);
      r
    else if HasAt(s, 0, "\n```") then
      assert s[1] == "\n```"[1];
      var r := RemoveFences(s[4..]);
      SubsequenceOfSuffix(r, s, 4);
      r
    else if HasAt(s, 0, "```") then
      assert s[0] == "```"[0];
      var r := RemoveFences(s[3..]);
      SubsequenceOfSuffix(r, s, 3);
      r
    else
      var r := RemoveFences(s[1..]);
      SubsequenceCons(s[0], r, s[1..]);
      assert [s[0]] + s[1..] == s;
      [s[0]] + r
  }

  /** Fence removal followed by `trim()`. */
  function StripFences(s: string): string
  {
    Trim(RemoveFences(s))
  }

  lemma {:induction false} ClosingFenceRemoved(body: string)
    requires NoBacktick(body)
    ensures RemoveFences(body + "\n```") == body
    decreases |body|
  {
    var s := body + "\n```";
    if |body| == 0 {
      assert s == "\n```";
      assert HasAt(s, 0, "\n```");
      assert s[4..] == "";
    } else {
      assert s[0] == body[0] != '`';
      assert !HasAt(s, 0, "```json") && !HasAt(s, 0, "```");
      if |body| == 1 {
        assert s[1..4] == "\n``";
      } else {
        assert s[1] == body[1];
      }
      assert !HasAt(s, 0, "\n```");
      assert s[1..] == body[1..] + "\n```";
      ClosingFenceRemoved(body[1..]);
      assert [body[0]] + body[1..] == body;
    }
  }

  /** The fences the pattern removes, each with what may follow it so that
      the match is exactly `f`: an opening fence without its newline must
      not be followed by one, and a bare fence must not be followed by
      `json`. */
  predicate FenceBefore(f: string, y: string)
  {
    || f == "```json\n"
    || (f == "```json" && !HasAt(y, 0, "\n"))
    || f == "\n```"
    || (f == "```" && !HasAt(y, 0, "json"))
  }

  /** A fence after backtick-free text is removed and nothing else in that
      text is touched. A fence that starts with a backtick must not follow
      a newline, since that newline would be taken by the second
      alternative. */
  lemma FenceRemoved(x: string, f: string, y: string)
    requires NoBacktick(x) && FenceBefore(f, y)
    requires f[0] == '`' ==> !EndsWith(x, '\n')
    ensures RemoveFences(x + f + y) == x + RemoveFences(y)
  {
    var s := x + f + y;
    assert s[..|x|] == x && s[|x|..] == f + y;
    assert forall k :: 0 <= k < |x| ==> s[k] == x[k];
    PrefixKept(s, |x|);
    FenceAtStart(f, y);
  }

  /** The first `n` characters of `s` are kept as they are when they hold
      no backtick, unless the last of them is a newline that begins a
      closing fence with the backtick after it. */
  lemma {:induction false} PrefixKept(s: string, n: nat)
    requires n <= |s| && forall k :: 0 <= k < n ==> s[k] != '`'
    requires 0 < n < |s| && s[n - 1] == '\n' ==> s[n] != '`'
    ensures RemoveFences(s) == s[..n] + RemoveFences(s[n..])
    decreases n
  {
    if n > 0 {
      KeptPlainCharacter(s);
      var u := s[1..];
      assert forall k :: 0 <= k < n - 1 ==> u[k] != '`' by {
        forall k | 0 <= k < n - 1
          ensures u[k] != '`'
        {
          assert u[k] == s[k + 1];
        }
      }
      PrefixKept(u, n - 1);
      assert u[n - 1..] == s[n..];
      assert s[..n] == [s[0]] + u[..n - 1];
      ConsAssociates(s[0], u[..n - 1], RemoveFences(s[n..]));
    }
  }

  lemma Regroup(a: string, b: string, c: string, d: string)
    ensures (a + b) + c + d == a + ((b + c) + d)
  {
  }

  lemma ConsAssociates(c: char, v: string, w: string)
    ensures [c] + (v + w) == ([c] + v) + w
  {
  }

  /** A character that starts no fence is kept, a backtick included. */
  lemma KeptCharacter(s: string)
    requires |s| > 0 && !HasAt(s, 0, "```") && !HasAt(s, 0, "\n```")
    ensures RemoveFences(s) == [s[0]] + RemoveFences(s[1..])
  {
    JsonFenceIsFence(s);
  }

  lemma JsonFenceIsFence(s: string)
    ensures HasAt(s, 0, "```json") ==> HasAt(s, 0, "```")
  {
    if 7 <= |s| {
      assert s[0..3] == s[0..7][0..3];
    }
  }

  /** A character that is no backtick, and no newline before one, starts
      no fence. */
  lemma StartsNoFence(s: string)
    requires |s| > 0 && s[0] != '`'
    requires s[0] == '\n' && |s| > 1 ==> s[1] != '`'
    ensures !HasAt(s, 0, "```") && !HasAt(s, 0, "\n```")
  {
    Mismatch(s, 0, "```", 0);
    if s[0] == '\n' && |s| > 1 {
      Mismatch(s, 0, "\n```", 1);
    } else if s[0] != '\n' {
      Mismatch(s, 0, "\n```", 0);
    }
  }

  lemma KeptPlainCharacter(s: string)
    requires |s| > 0 && s[0] != '`'
    requires s[0] == '\n' && |s| > 1 ==> s[1] != '`'
    ensures RemoveFences(s) == [s[0]] + RemoveFences(s[1..])
  {
    StartsNoFence(s);
    KeptCharacter(s);
  }

  /** A lone backtick is not a fence and stays. */
  lemma LoneBacktickKept(x: string, y: string)
    requires NoBacktick(x) && NoBacktick(y) && !EndsWith(x, '\n')
    ensures RemoveFences(x + "`" + y) == x + "`" + y
  {
    var s := x + "`" + y;
    var t := "`" + y;
    assert s == x + t;
    assert forall k :: 0 <= k < |x| ==> s[k] == x[k];
    assert s[..|x|] == x && s[|x|..] == t;
    PrefixKept(s, |x|);
    if |t| >= 3 {
      assert t[1] != '`' by {
        assert t[1] == y[0];
      }
      Mismatch(t, 0, "```", 1);
    }
    Mismatch(t, 0, "\n```", 0);
    KeptCharacter(t);
    assert t[1..] == y;
    Regroup3(x, "`", y);
  }

  lemma Regroup3(a: string, b: string, c: string)
    ensures a + (b + c) == (a + b) + c
  {
  }

  /** Each fence at the start of the text is removed whole. */
  lemma FenceAtStart(f: string, y: string)
    requires FenceBefore(f, y)
    ensures RemoveFences(f + y) == RemoveFences(y)
  {
    var s := f + y;
    if f == "```json\n" {
      assert HasAt(s, 0, "```json") && HasAt(s, 7, "\n");
      assert s[8..] == y;
    } else if f == "```json" {
      assert HasAt(s, 0, "```json");
      if 8 <= |s| {
        assert s[7..8] == y[0..1];
      }
      assert s[7..] == y;
    } else if f == "\n```" {
      Mismatch(s, 0, "```json", 0);
      assert HasAt(s, 0, "\n```");
      assert s[4..] == y;
    } else {
      BareFenceAtStart(y);
    }
  }

  lemma BareFenceAtStart(y: string)
    requires !HasAt(y, 0, "json")
    ensures RemoveFences("```" + y) == RemoveFences(y)
  {
    var s := "```" + y;
    if 7 <= |s| {
      assert s[3..7] == y[0..4];
      assert s[0..7] == "```" + y[0..4];
    }
    assert !HasAt(s, 0, "```json");
    Mismatch(s, 0, "\n```", 0);
    assert HasAt(s, 0, "```");
    assert s[3..] == y;
  }

  /** A payload wrapped in a json fence comes out as the trimmed payload,
      provided the payload itself has no backtick. */
  lemma FencedPayloadRecovered(body: string)
    requires NoBacktick(body)
    ensures StripFences("```json\n" + body + "\n```") == Trim(body)
  {
    var s := "```json\n" + body + "\n```";
    assert HasAt(s, 0, "```json") && HasAt(s, 7, "\n");
    assert s[8..] == body + "\n```";
    ClosingFenceRemoved(body);
  }

  /** When the opening fence follows a newline, the second alternative
      matches first at the newline and consumes "\n```", so the word
      "json" survives in front of the payload. */
  lemma FenceAfterNewlineLeavesTag(payload: string)
    requires NoBacktick(payload)
    ensures StripFences("\n```" + "json\n" + payload + "\n```") == TrimEnd("json\n" + payload)
  {
    var body := "json\n" + payload;
    assert NoBacktick(body) by {
      forall k | 0 <= k < |body|
        ensures body[k] != '`'
      {
        if k >= 5 {
          assert body[k] == payload[k - 5];
        }
      }
    }
    var y := body + "\n```";
    Regroup("\n```", "json\n", payload, "\n```");
    FenceAtStart("\n```", y);
    ClosingFenceRemoved(body);
    TrimStartOfVisible(body);
  }
}
