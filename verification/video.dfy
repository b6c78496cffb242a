/** `extractVideoId` of the bike review card
    (app/components/BikeReviewCard.tsx): the first match of
    `/(?:youtu\.be\/|youtube\.com(?:\/embed\/|\/v\/|\/watch\?v=|\/watch\?.+&v=))([\w-]{11})/`
    in a URL, its captured eleven characters, and the embed address built
    from them. */
module VideoId {

  import opened Wrappers
  import opened Text

  const IdLength: nat := 11
  const ShortPrefix: string := "youtu.be/"
  const EmbedPrefix: string := "youtube.com/embed/"
  const VPrefix: string := "youtube.com/v/"
  const WatchVPrefix: string := "youtube.com/watch?v="
  const WatchPrefix: string := "youtube.com/watch?"
  const AmpV: string := "&v="
  const EmbedBase: string := "https://www.youtube.com/embed/"

  /** `[\w-]`: an ASCII letter or digit, `_` or `-`. */
  predicate IdChar(c: char)
  {
    ('A' <= c <= 'Z') || ('a' <= c <= 'z') || ('0' <= c <= '9') || c == '_' || c == '-'
  }

  predicate IsVideoId(id: string)
  {
    |id| == IdLength && forall j :: 0 <= j < |id| ==> IdChar(id[j])
  }

  /** Eleven id characters start at `k`. */
  predicate IdAt(s: string, k: nat)
  {
    k + IdLength <= |s| && IsVideoId(s[k..k + IdLength])
  }

  /** The pattern's meaning, without its search order: `id` follows one of
      the accepted prefixes, which starts at `i`. The last form allows any
      run of at least one character other than a line terminator between
      `/watch?` and `&v=`. */
  ghost predicate AcceptedAt(s: string, i: nat, id: string)
  {
    && IsVideoId(id)
    && (|| (HasAt(s, i, ShortPrefix) && HasAt(s, i + |ShortPrefix|, id))
        || (HasAt(s, i, EmbedPrefix) && HasAt(s, i + |EmbedPrefix|, id))
        || (HasAt(s, i, VPrefix) && HasAt(s, i + |VPrefix|, id))
        || (HasAt(s, i, WatchVPrefix) && HasAt(s, i + |WatchVPrefix|, id))
        || (exists j: nat :: WatchAmpAt(s, i, j) && HasAt(s, j + |AmpV|, id)))
  }

  /** `youtube.com/watch?`, then one or more characters that are not line
      terminators, then `&v=` at `j`. */
  predicate WatchAmpAt(s: string, i: nat, j: nat)
  {
    && HasAt(s, i, WatchPrefix)
    && i + |WatchPrefix| < j <= |s|
    && NoLineTerminator(s[i + |WatchPrefix|..j])
    && HasAt(s, j, AmpV)
  }

  /** The `&v=` at `j` is the one the greedy `.+` settles on: an id follows
      it, and no later `&v=` the `.+` can reach is followed by one. */
  ghost predicate LastWatchId(s: string, i: nat, j: nat)
  {
    && WatchAmpAt(s, i, j) && IdAt(s, j + |AmpV|)
    && forall j': nat :: j < j' && WatchAmpAt(s, i, j') ==> !IdAt(s, j' + |AmpV|)
  }

  /** Index of the first line terminator at or after `from`, or `|s|`. */
  function LineEnd(s: string, from: nat): (e: nat)
    requires from <= |s|
    ensures from <= e <= |s|
    ensures NoLineTerminator(s[from..e])
    ensures e < |s| ==> IsLineTerminator(s[e])
    ensures forall j :: from <= j <= |s| && NoLineTerminator(s[from..j]) ==> j <= e
    decreases |s| - from
  {
    if from == |s| then from
    else if IsLineTerminator(s[from]) then
      assert forall j :: from < j <= |s| ==> s[from..j][0] == s[from];
      from
    else
      var e := LineEnd(s, from + 1);
      assert s[from..e] == [s[from]] + s[from + 1..e];
      assert forall j :: from < j <= |s| ==> s[from + 1..j] == s[from..j][1..];
      e
  }

  /** The greedy `.+` gives back characters from the right until `&v=` and
      eleven id characters follow: the largest candidate `j` in
      `(lo, hi]` wins. */
  function LastAmpV(s: string, lo: nat, hi: nat): (r: Option<nat>)
    ensures r.Some? ==> lo < r.value <= hi && HasAt(s, r.value, AmpV) && IdAt(s, r.value + |AmpV|)
    ensures r.Some? ==> forall j :: r.value < j <= hi ==> !(HasAt(s, j, AmpV) && IdAt(s, j + |AmpV|))
    ensures r.None? ==> forall j :: lo < j <= hi ==> !(HasAt(s, j, AmpV) && IdAt(s, j + |AmpV|))
    decreases hi
  {
    if hi <= lo then None
    else if HasAt(s, hi, AmpV) && IdAt(s, hi + |AmpV|) then Some(hi)
    else LastAmpV(s, lo, hi - 1)
  }

  /** One of the four fixed prefixes, followed by an id, starts at `i`. */
  predicate FixedIdAt(s: string, i: nat)
  {
    || (HasAt(s, i, ShortPrefix) && IdAt(s, i + |ShortPrefix|))
    || (HasAt(s, i, EmbedPrefix) && IdAt(s, i + |EmbedPrefix|))
    || (HasAt(s, i, VPrefix) && IdAt(s, i + |VPrefix|))
    || (HasAt(s, i, WatchVPrefix) && IdAt(s, i + |WatchVPrefix|))
  }

  /** The pattern tried at one start position, its alternatives in order. */
  function MatchAt(s: string, i: nat): (r: Option<string>)
    ensures r.Some? ==> AcceptedAt(s, i, r.value)
    ensures r.Some? && !FixedIdAt(s, i) ==>
              exists j: nat :: LastWatchId(s, i, j) && r.value == s[j + |AmpV|..j + |AmpV| + IdLength]
    ensures r.None? ==> forall id :: !AcceptedAt(s, i, id)
  {
    if HasAt(s, i, ShortPrefix) && IdAt(s, i + |ShortPrefix|) then
      Some(s[i + |ShortPrefix|..i + |ShortPrefix| + IdLength])
    else if HasAt(s, i, EmbedPrefix) && IdAt(s, i + |EmbedPrefix|) then
      Some(s[i + |EmbedPrefix|..i + |EmbedPrefix| + IdLength])
    else if HasAt(s, i, VPrefix) && IdAt(s, i + |VPrefix|) then
      Some(s[i + |VPrefix|..i + |VPrefix| + IdLength])
    else if HasAt(s, i, WatchVPrefix) && IdAt(s, i + |WatchVPrefix|) then
      Some(s[i + |WatchVPrefix|..i + |WatchVPrefix| + IdLength])
    else
      FixedPrefixesFail(s, i);
      if HasAt(s, i, WatchPrefix) then
        match WatchMatchAt(s, i)
        case Some(id) => Some(id)
        case None =>
          NothingAccepted(s, i);
          None
      else
        NothingAccepted(s, i);
        None
  }

  /** The last alternative, `youtube.com/watch?.+&v=` and an id. */
  function WatchMatchAt(s: string, i: nat): (r: Option<string>)
    requires HasAt(s, i, WatchPrefix)
    ensures r.Some? ==> AcceptedAt(s, i, r.value)
    ensures r.Some? ==> exists j: nat :: LastWatchId(s, i, j) && r.value == s[j + |AmpV|..j + |AmpV| + IdLength]
    ensures r.None? ==> forall j: nat, id :: WatchAmpAt(s, i, j) && IsVideoId(id) ==> !HasAt(s, j + |AmpV|, id)
  {
    var lo := i + |WatchPrefix|;
    var e := LineEnd(s, lo);
    match LastAmpV(s, lo, e)
    case Some(j) =>
      assert WatchAmpAt(s, i, j) by {
        forall k | 0 <= k < j - lo
          ensures s[lo..j][k] == s[lo..e][k]
        {
        }
      }
      WatchMatch(s, i, j);
      assert LastWatchId(s, i, j) by {
        forall j': nat | j < j' && WatchAmpAt(s, i, j')
          ensures !IdAt(s, j' + |AmpV|)
        {
          assert j' <= e;
        }
      }
      Some(s[j + |AmpV|..j + |AmpV| + IdLength])
    case None =>
      NoWatchMatch(s, i, e);
      None
  }

  /** The last form's match, once its `&v=` is found. */
  lemma WatchMatch(s: string, i: nat, j: nat)
    requires WatchAmpAt(s, i, j) && IdAt(s, j + |AmpV|)
    ensures AcceptedAt(s, i, s[j + |AmpV|..j + |AmpV| + IdLength])
  {
  }

  /** No alternative matches at `i`. */
  lemma NothingAccepted(s: string, i: nat)
    requires forall id :: IsVideoId(id) ==>
               && !(HasAt(s, i, ShortPrefix) && HasAt(s, i + |ShortPrefix|, id))
               && !(HasAt(s, i, EmbedPrefix) && HasAt(s, i + |EmbedPrefix|, id))
               && !(HasAt(s, i, VPrefix) && HasAt(s, i + |VPrefix|, id))
               && !(HasAt(s, i, WatchVPrefix) && HasAt(s, i + |WatchVPrefix|, id))
    requires forall j: nat, id :: WatchAmpAt(s, i, j) && IsVideoId(id) ==> !HasAt(s, j + |AmpV|, id)
    ensures forall id :: !AcceptedAt(s, i, id)
  {
  }

  /** Where no id follows, no id string does. */
  lemma NoIdAt(s: string, k: nat, id: string)
    requires IsVideoId(id) && !IdAt(s, k)
    ensures !HasAt(s, k, id)
  {
  }

  /** None of the four fixed prefixes followed by an id at `i`. */
  lemma FixedPrefixesFail(s: string, i: nat)
    requires !(HasAt(s, i, ShortPrefix) && IdAt(s, i + |ShortPrefix|))
    requires !(HasAt(s, i, EmbedPrefix) && IdAt(s, i + |EmbedPrefix|))
    requires !(HasAt(s, i, VPrefix) && IdAt(s, i + |VPrefix|))
    requires !(HasAt(s, i, WatchVPrefix) && IdAt(s, i + |WatchVPrefix|))
    ensures forall id :: IsVideoId(id) ==>
              && !(HasAt(s, i, ShortPrefix) && HasAt(s, i + |ShortPrefix|, id))
              && !(HasAt(s, i, EmbedPrefix) && HasAt(s, i + |EmbedPrefix|, id))
              && !(HasAt(s, i, VPrefix) && HasAt(s, i + |VPrefix|, id))
              && !(HasAt(s, i, WatchVPrefix) && HasAt(s, i + |WatchVPrefix|, id))
  {
    forall id | IsVideoId(id)
      ensures !(HasAt(s, i, ShortPrefix) && HasAt(s, i + |ShortPrefix|, id))
      ensures !(HasAt(s, i, EmbedPrefix) && HasAt(s, i + |EmbedPrefix|, id))
      ensures !(HasAt(s, i, VPrefix) && HasAt(s, i + |VPrefix|, id))
      ensures !(HasAt(s, i, WatchVPrefix) && HasAt(s, i + |WatchVPrefix|, id))
    {
      if HasAt(s, i, ShortPrefix) { NoIdAt(s, i + |ShortPrefix|, id); }
      if HasAt(s, i, EmbedPrefix) { NoIdAt(s, i + |EmbedPrefix|, id); }
      if HasAt(s, i, VPrefix) { NoIdAt(s, i + |VPrefix|, id); }
      if HasAt(s, i, WatchVPrefix) { NoIdAt(s, i + |WatchVPrefix|, id); }
    }
  }

  /** A `&v=` reached by the `.+` lies no further than the first line
      terminator. */
  lemma NoWatchMatch(s: string, i: nat, e: nat)
    requires HasAt(s, i, WatchPrefix) && i + |WatchPrefix| <= |s|
    requires e == LineEnd(s, i + |WatchPrefix|)
    requires forall j :: i + |WatchPrefix| < j <= e ==> !(HasAt(s, j, AmpV) && IdAt(s, j + |AmpV|))
    ensures forall j: nat, id :: WatchAmpAt(s, i, j) && IsVideoId(id) ==> !HasAt(s, j + |AmpV|, id)
  {
    forall j: nat, id | WatchAmpAt(s, i, j) && IsVideoId(id)
      ensures !HasAt(s, j + |AmpV|, id)
    {
      assert j <= e;
      NoIdAt(s, j + |AmpV|, id);
    }
  }

  /** When no `watch?v=` id starts at `i`, the watch form yields the id
      after the last reachable `&v=` that has one. */
  lemma WatchFormMatches(s: string, i: nat, j: nat)
    requires !(HasAt(s, i, WatchVPrefix) && IdAt(s, i + |WatchVPrefix|))
    requires LastWatchId(s, i, j)
    ensures MatchAt(s, i) == Some(s[j + |AmpV|..j + |AmpV| + IdLength])
  {
    WatchIsNotFixed(s, i);
    WatchMatch(s, i, j);
    var r := MatchAt(s, i);
    assert r.Some?;
    LastWatchIdUnique(s, i, j, r.value);
  }

  /** Only one `&v=` is the last one with an id, so its id is determined. */
  lemma LastWatchIdUnique(s: string, i: nat, j: nat, id: string)
    requires LastWatchId(s, i, j)
    requires exists j0: nat :: LastWatchId(s, i, j0) && id == s[j0 + |AmpV|..j0 + |AmpV| + IdLength]
    ensures id == s[j + |AmpV|..j + |AmpV| + IdLength]
  {
    var j0: nat :| LastWatchId(s, i, j0) && id == s[j0 + |AmpV|..j0 + |AmpV| + IdLength];
    assert j == j0;
  }

  /** At a `watch?` prefix only the `watch?v=` form among the fixed
      prefixes can match. */
  lemma WatchIsNotFixed(s: string, i: nat)
    requires HasAt(s, i, WatchPrefix)
    requires !(HasAt(s, i, WatchVPrefix) && IdAt(s, i + |WatchVPrefix|))
    ensures !FixedIdAt(s, i)
  {
    assert s[i..i + |WatchPrefix|][5] == s[i + 5];
    Mismatch(s, i, ShortPrefix, 5);
    assert s[i..i + |WatchPrefix|][12] == s[i + 12];
    Mismatch(s, i, EmbedPrefix, 12);
    Mismatch(s, i, VPrefix, 12);
  }

  /** `url.match(...)`: the capture of the leftmost match, or `null`. */
  function FirstMatch(s: string, i: nat): (r: Option<string>)
    requires i <= |s|
    ensures r.Some? ==> exists k: nat :: i <= k && AcceptedAt(s, k, r.value)
                          && forall m: nat, x :: i <= m < k ==> !AcceptedAt(s, m, x)
    ensures r.None? ==> forall k: nat, id :: i <= k ==> !AcceptedAt(s, k, id)
    decreases |s| - i
  {
    match MatchAt(s, i)
    case Some(id) => Some(id)
    case None =>
      if i == |s| then
        assert forall k: nat, id :: i < k ==> !AcceptedAt(s, k, id);
        None
      else FirstMatch(s, i + 1)
  }

  function ExtractVideoId(url: string): (r: Option<string>)
    ensures r.Some? ==> IsVideoId(r.value)
    ensures r.Some? ==> exists k: nat :: AcceptedAt(url, k, r.value)
                          && forall m: nat, x :: m < k ==> !AcceptedAt(url, m, x)
    ensures r.None? <==> forall k: nat, id :: !AcceptedAt(url, k, id)
  {
    FirstMatch(url, 0)
  }

  /** The iframe address, built only when an id was found. */
  function EmbedSrc(url: string): (r: Option<string>)
    ensures r.Some? <==> ExtractVideoId(url).Some?
    ensures r.Some? ==> exists id :: IsVideoId(id) && r.value == EmbedBase + id && exists k: nat :: AcceptedAt(url, k, id)
    ensures r.Some? ==> r.value == EmbedBase + ExtractVideoId(url).value
  {
    match ExtractVideoId(url)
    case Some(id) => Some(EmbedBase + id)
    case None => None
  }

  /** The four fixed prefixes. */
  predicate FixedPrefix(p: string)
  {
    p == ShortPrefix || p == EmbedPrefix || p == VPrefix || p == WatchVPrefix
  }

  /** A URL whose first `y` begins a fixed prefix followed by an id yields
      that id, whatever follows it: the pattern has no end anchor. */
  lemma PrefixedIdExtracted(pre: string, p: string, id: string, rest: string)
    requires 'y' !in pre && FixedPrefix(p) && IsVideoId(id)
    ensures ExtractVideoId(pre + p + id + rest) == Some(id)
  {
    var s := pre + p + id + rest;
    var i := |pre|;
    assert s[..i] == pre;
    NoMatchBefore(s, i);
    assert HasAt(s, i, p) by {
      assert s[i..i + |p|] == p;
    }
    assert s[i + |p|..i + |p| + IdLength] == id;
    FixedPrefixMatches(s, i, p);
    FirstMatchSkips(s, 0, i);
  }

  /** Every accepted prefix starts with `y`, so no match starts before the
      first `y`. */
  lemma NoMatchBefore(s: string, i: nat)
    requires i <= |s| && 'y' !in s[..i]
    ensures forall k: nat, x :: k < i ==> !AcceptedAt(s, k, x)
  {
    forall k: nat, x | k < i
      ensures !AcceptedAt(s, k, x)
    {
      assert s[k] == s[..i][k];
      Mismatch(s, k, ShortPrefix, 0);
      Mismatch(s, k, EmbedPrefix, 0);
      Mismatch(s, k, VPrefix, 0);
      Mismatch(s, k, WatchVPrefix, 0);
      Mismatch(s, k, WatchPrefix, 0);
    }
  }

  /** The watch form with a run `mid` before `&v=`: the id after the last
      `&v=` is extracted, even when `mid` itself holds `&v=` and an id,
      since the greedy `.+` gives back characters from the right. */
  lemma WatchIdExtracted(pre: string, mid: string, id: string, rest: string)
    requires 'y' !in pre && |mid| > 0 && mid[0] != 'v' && NoLineTerminator(mid)
    requires IsVideoId(id) && '&' !in rest
    ensures ExtractVideoId(pre + WatchPrefix + mid + AmpV + id + rest) == Some(id)
  {
    var s := pre + WatchPrefix + mid + AmpV + id + rest;
    var i := |pre|;
    var j := i + |WatchPrefix| + |mid|;
    assert s[..i] == pre;
    NoMatchBefore(s, i);
    assert s[i..i + |WatchPrefix|] == WatchPrefix;
    assert s[i + |WatchPrefix|] == mid[0];
    assert s[i + |WatchPrefix|..j] == mid;
    assert s[j..j + |AmpV|] == AmpV;
    assert s[j + |AmpV|..j + |AmpV| + IdLength] == id;
    assert s[j + |AmpV| + IdLength..] == rest;
    AmpFreeTail(s, j, id, rest);
    LastAmpMatches(s, i, j);
    FirstMatchSkips(s, 0, i);
  }

  /** After `&v=`, an id and an `&`-free rest hold no further `&`. */
  lemma AmpFreeTail(s: string, j: nat, id: string, rest: string)
    requires HasAt(s, j, AmpV) && IsVideoId(id) && '&' !in rest
    requires j + |AmpV| + IdLength <= |s|
    requires s[j + |AmpV|..j + |AmpV| + IdLength] == id
    requires s[j + |AmpV| + IdLength..] == rest
    ensures forall k :: j < k < |s| ==> s[k] != '&'
  {
    forall k | j < k < |s|
      ensures s[k] != '&'
    {
      if k < j + |AmpV| {
        assert s[k] == s[j..j + |AmpV|][k - j];
      } else if k < j + |AmpV| + IdLength {
        assert s[k] == id[k - j - |AmpV|];
      } else {
        assert s[k] == rest[k - j - |AmpV| - IdLength];
      }
    }
  }

  /** A `watch?` prefix not followed by `v`, then a run to an `&v=` with an
      id and no later `&`: that id is the match. */
  lemma LastAmpMatches(s: string, i: nat, j: nat)
    requires WatchAmpAt(s, i, j) && s[i + |WatchPrefix|] != 'v' && IdAt(s, j + |AmpV|)
    requires forall k :: j < k < |s| ==> s[k] != '&'
    ensures MatchAt(s, i) == Some(s[j + |AmpV|..j + |AmpV| + IdLength])
  {
    Mismatch(s, i, WatchVPrefix, |WatchPrefix|);
    NoAmpAfter(s, j);
    WatchFormMatches(s, i, j);
  }

  /** Without a later `&`, no later `&v=` exists. */
  lemma NoAmpAfter(s: string, j: nat)
    requires forall k :: j < k < |s| ==> s[k] != '&'
    ensures forall j': nat :: j < j' ==> !HasAt(s, j', AmpV)
  {
    forall j': nat | j < j'
      ensures !HasAt(s, j', AmpV)
    {
      if j' < |s| {
        Mismatch(s, j', AmpV, 0);
      }
    }
  }

  /** Positions with no match are passed over. */
  lemma {:induction false} FirstMatchSkips(s: string, i: nat, k: nat)
    requires i <= k <= |s|
    requires forall m: nat, x :: i <= m < k ==> !AcceptedAt(s, m, x)
    ensures FirstMatch(s, i) == FirstMatch(s, k)
    decreases k - i
  {
    if i < k {
      assert MatchAt(s, i).None?;
      FirstMatchSkips(s, i + 1, k);
    }
  }

  /** When one of the fixed prefixes matches at `i`, `MatchAt` returns the
      eleven characters that follow it. */
  lemma FixedPrefixMatches(s: string, i: nat, p: string)
    requires FixedPrefix(p) && HasAt(s, i, p) && IdAt(s, i + |p|)
    ensures MatchAt(s, i) == Some(s[i + |p|..i + |p| + IdLength])
  {
    if p != ShortPrefix {
      assert s[i..i + |p|][5] == s[i + 5];
      Mismatch(s, i, ShortPrefix, 5);
    }
    if p == VPrefix || p == WatchVPrefix {
      assert s[i..i + |p|][12] == s[i + 12];
      Mismatch(s, i, EmbedPrefix, 12);
    }
    if p == WatchVPrefix {
      Mismatch(s, i, VPrefix, 12);
    }
  }
}
