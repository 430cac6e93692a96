/**
 The scanner behind `\b(A1|...|An)\b` with the `g` flag: at each position,
 the leading `\b` must hold, then the arms are tried in order and an arm is
 taken only if the trailing `\b` holds after it. A global search tries
 positions left to right, continues after each match, and steps one
 character past an empty match.
 */
module Matcher {
  import opened Wrappers
  import opened Chars
  import opened Aliases

  /** A word character stands at index `i` of `t`. */
  predicate WordAt(t: string, i: int) {
    0 <= i < |t| && IsWordChar(t[i])
  }

  /** `\b` at position `i` (between `t[i - 1]` and `t[i]`). */
  predicate IsBoundary(t: string, i: int) {
    WordAt(t, i - 1) != WordAt(t, i)
  }

  /** Arm `a` occurs at position `p` and is followed by a boundary. */
  predicate ArmMatches(t: string, p: nat, a: string) {
    p + |a| <= |t| && t[p..p + |a|] == a && IsBoundary(t, p + |a|)
  }

  /** The first arm, in order, that matches at `p`. */
  function FirstArm(arms: seq<string>, t: string, p: nat): Option<string> {
    if arms == [] then None
    else if ArmMatches(t, p, arms[0]) then Some(arms[0])
    else FirstArm(arms[1..], t, p)
  }

  /** What the pattern matches when tried at position `p`. */
  function MatchAt(arms: seq<string>, t: string, p: nat): (r: Option<string>)
    requires p <= |t|
    ensures r.Some? ==> r.value in arms
  {
    FirstArmIsFirst(arms, t, p);
    if IsBoundary(t, p) then FirstArm(arms, t, p) else None
  }

  /** `FirstArm` yields the first matching arm, and nothing only when no arm matches. */
  lemma {:induction false} FirstArmIsFirst(arms: seq<string>, t: string, p: nat)
    ensures FirstArm(arms, t, p).None? <==> forall i :: 0 <= i < |arms| ==> !ArmMatches(t, p, arms[i])
    ensures FirstArm(arms, t, p).Some? ==>
      exists i :: 0 <= i < |arms| && arms[i] == FirstArm(arms, t, p).value && ArmMatches(t, p, arms[i]) &&
        forall j :: 0 <= j < i ==> !ArmMatches(t, p, arms[j])
  {
    if arms != [] && !ArmMatches(t, p, arms[0]) {
      FirstArmIsFirst(arms[1..], t, p);
      assert forall i :: 1 <= i < |arms| ==> arms[i] == arms[1..][i - 1];
      if FirstArm(arms, t, p).Some? {
        var i :| 0 <= i < |arms[1..]| && arms[1..][i] == FirstArm(arms, t, p).value &&
          ArmMatches(t, p, arms[1..][i]) && forall j :: 0 <= j < i ==> !ArmMatches(t, p, arms[1..][j]);
        assert arms[i + 1] == arms[1..][i];
      }
    }
  }

  /** A match is whole-word: a boundary before it and after it. When the arms
      are sorted by non-increasing length it is the longest arm that matches
      there, and no match means no arm fits between two boundaries at `p`. */
  lemma MatchAtSpec(arms: seq<string>, t: string, p: nat)
    requires p <= |t|
    ensures MatchAt(arms, t, p).Some? ==>
      var a := MatchAt(arms, t, p).value;
      a in arms && IsBoundary(t, p) && ArmMatches(t, p, a) && IsBoundary(t, p + |a|)
    ensures MatchAt(arms, t, p).Some? && NonIncreasing(arms) ==>
      forall b :: b in arms && ArmMatches(t, p, b) ==> |b| <= |MatchAt(arms, t, p).value|
    ensures MatchAt(arms, t, p).None? <==>
      !IsBoundary(t, p) || forall b :: b in arms ==> !ArmMatches(t, p, b)
  {
    FirstArmIsFirst(arms, t, p);
    if MatchAt(arms, t, p).Some? && NonIncreasing(arms) {
      var i :| 0 <= i < |arms| && arms[i] == MatchAt(arms, t, p).value && ArmMatches(t, p, arms[i]) &&
        forall j :: 0 <= j < i ==> !ArmMatches(t, p, arms[j]);
      forall b | b in arms && ArmMatches(t, p, b) ensures |b| <= |arms[i]| {
        var j :| 0 <= j < |arms| && arms[j] == b;
        if j < i { assert !ArmMatches(t, p, arms[j]); }
      }
    }
    if MatchAt(arms, t, p).None? && IsBoundary(t, p) {
      forall b | b in arms ensures !ArmMatches(t, p, b) {
        var j :| 0 <= j < |arms| && arms[j] == b;
      }
    }
  }

  /** One match: where it starts and the text it covers. */
  datatype Hit = Hit(start: nat, text: string)

  /** Where the global search continues after a match. */
  function Resume(h: Hit): nat {
    if |h.text| == 0 then h.start + 1 else h.start + |h.text|
  }

  /** All matches of a global search that starts at position `p`. */
  function Matches(arms: seq<string>, t: string, p: nat): (r: seq<Hit>)
    decreases |t| + 1 - p
  {
    if p > |t| then []
    else match MatchAt(arms, t, p)
      case None => Matches(arms, t, p + 1)
      case Some(a) => [Hit(p, a)] + Matches(arms, t, Resume(Hit(p, a)))
  }

  /** Where the search for the `k`-th match starts. */
  function SearchFrom(hs: seq<Hit>, p: nat, k: nat): nat
    requires k <= |hs|
  {
    if k == 0 then p else Resume(hs[k - 1])
  }

  /** `hs` is a leftmost, non-overlapping, left-to-right scan of `t` from `p`:
      each hit is what the pattern matches at its start, is found at or after
      the point where the search resumed, and no position skipped before it
      (or after the last hit) has a match. */
  ghost predicate IsScan(arms: seq<string>, t: string, p: nat, hs: seq<Hit>) {
    HitsFound(arms, t, p, hs) && GapsEmpty(arms, t, p, hs) && TailEmpty(arms, t, p, hs)
  }

  ghost predicate HitsFound(arms: seq<string>, t: string, p: nat, hs: seq<Hit>) {
    forall k {:trigger SearchFrom(hs, p, k)} :: 0 <= k < |hs| ==>
      SearchFrom(hs, p, k) <= hs[k].start <= |t| && MatchAt(arms, t, hs[k].start) == Some(hs[k].text)
  }

  ghost predicate GapsEmpty(arms: seq<string>, t: string, p: nat, hs: seq<Hit>) {
    forall k, q {:trigger SearchFrom(hs, p, k), MatchAt(arms, t, q)} ::
      0 <= k < |hs| && SearchFrom(hs, p, k) <= q < hs[k].start && q <= |t| ==> MatchAt(arms, t, q).None?
  }

  ghost predicate TailEmpty(arms: seq<string>, t: string, p: nat, hs: seq<Hit>) {
    forall q :: SearchFrom(hs, p, |hs|) <= q <= |t| ==> MatchAt(arms, t, q).None?
  }

  /** A position without a match can be added in front of a scan's start ... */
  lemma ScanSkipForward(arms: seq<string>, t: string, p: nat, hs: seq<Hit>)
    requires p <= |t| && MatchAt(arms, t, p).None?
    requires IsScan(arms, t, p + 1, hs)
    ensures IsScan(arms, t, p, hs)
  {
    assert forall k :: 0 < k <= |hs| ==> SearchFrom(hs, p, k) == SearchFrom(hs, p + 1, k);
    assert HitsFound(arms, t, p, hs) by {
      assert HitsFound(arms, t, p + 1, hs);
      forall k | 0 <= k < |hs|
        ensures SearchFrom(hs, p, k) <= hs[k].start <= |t| && MatchAt(arms, t, hs[k].start) == Some(hs[k].text)
      {
        assert SearchFrom(hs, p + 1, k) <= hs[k].start <= |t| && MatchAt(arms, t, hs[k].start) == Some(hs[k].text);
      }
    }
    assert GapsEmpty(arms, t, p, hs) by {
      assert GapsEmpty(arms, t, p + 1, hs);
      forall k, q | 0 <= k < |hs| && SearchFrom(hs, p, k) <= q < hs[k].start && q <= |t|
        ensures MatchAt(arms, t, q).None?
      {
        if q != p { assert SearchFrom(hs, p + 1, k) <= q; }
      }
    }
    assert TailEmpty(arms, t, p, hs) by {
      assert TailEmpty(arms, t, p + 1, hs);
      forall q | SearchFrom(hs, p, |hs|) <= q <= |t| ensures MatchAt(arms, t, q).None? {
        if q != p { assert SearchFrom(hs, p + 1, |hs|) <= q; }
      }
    }
  }

  /** ... and removed from it again. */
  lemma ScanSkipBack(arms: seq<string>, t: string, p: nat, hs: seq<Hit>)
    requires p <= |t| && MatchAt(arms, t, p).None?
    requires IsScan(arms, t, p, hs)
    ensures IsScan(arms, t, p + 1, hs)
  {
    assert forall k :: 0 < k <= |hs| ==> SearchFrom(hs, p, k) == SearchFrom(hs, p + 1, k);
    assert HitsFound(arms, t, p + 1, hs) by {
      assert HitsFound(arms, t, p, hs);
      forall k | 0 <= k < |hs|
        ensures SearchFrom(hs, p + 1, k) <= hs[k].start <= |t| && MatchAt(arms, t, hs[k].start) == Some(hs[k].text)
      {
        assert SearchFrom(hs, p, k) <= hs[k].start <= |t| && MatchAt(arms, t, hs[k].start) == Some(hs[k].text);
      }
    }
    assert GapsEmpty(arms, t, p + 1, hs) by {
      assert GapsEmpty(arms, t, p, hs);
      forall k, q | 0 <= k < |hs| && SearchFrom(hs, p + 1, k) <= q < hs[k].start && q <= |t|
        ensures MatchAt(arms, t, q).None?
      {
        assert SearchFrom(hs, p, k) <= q;
      }
    }
    assert TailEmpty(arms, t, p + 1, hs) by {
      assert TailEmpty(arms, t, p, hs);
      forall q | SearchFrom(hs, p + 1, |hs|) <= q <= |t| ensures MatchAt(arms, t, q).None? {
        assert SearchFrom(hs, p, |hs|) <= q;
      }
    }
  }

  /** A scan that starts where the pattern matches begins with that match ... */
  lemma ScanConsBack(arms: seq<string>, t: string, p: nat, h: Hit, rest: seq<Hit>)
    requires p <= |t| && MatchAt(arms, t, p) == Some(h.text) && h.start == p
    requires IsScan(arms, t, Resume(h), rest)
    ensures IsScan(arms, t, p, [h] + rest)
  {
    var hs := [h] + rest;
    var r := Resume(h);
    assert HitsFound(arms, t, p, hs) by {
      forall k | 0 <= k < |hs|
        ensures SearchFrom(hs, p, k) <= hs[k].start <= |t| && MatchAt(arms, t, hs[k].start) == Some(hs[k].text)
      {
        if k > 0 {
          assert hs[k] == rest[k - 1] && SearchFrom(hs, p, k) == SearchFrom(rest, r, k - 1);
        }
      }
    }
    assert GapsEmpty(arms, t, p, hs) by {
      forall k, q | 0 <= k < |hs| && SearchFrom(hs, p, k) <= q < hs[k].start && q <= |t|
        ensures MatchAt(arms, t, q).None?
      {
        assert k > 0;
        assert hs[k] == rest[k - 1] && SearchFrom(hs, p, k) == SearchFrom(rest, r, k - 1);
      }
    }
    assert TailEmpty(arms, t, p, hs) by {
      assert SearchFrom(hs, p, |hs|) == SearchFrom(rest, r, |rest|);
    }
  }

  /** ... and the rest of it is a scan from where the search resumes. */
  lemma ScanConsForward(arms: seq<string>, t: string, p: nat, h: Hit, rest: seq<Hit>)
    requires p <= |t| && h.start == p
    requires IsScan(arms, t, p, [h] + rest)
    ensures IsScan(arms, t, Resume(h), rest)
  {
    var hs := [h] + rest;
    var r := Resume(h);
    assert HitsFound(arms, t, r, rest) by {
      forall k | 0 <= k < |rest|
        ensures SearchFrom(rest, r, k) <= rest[k].start <= |t| && MatchAt(arms, t, rest[k].start) == Some(rest[k].text)
      {
        assert hs[k + 1] == rest[k] && SearchFrom(hs, p, k + 1) == SearchFrom(rest, r, k);
      }
    }
    assert GapsEmpty(arms, t, r, rest) by {
      forall k, q | 0 <= k < |rest| && SearchFrom(rest, r, k) <= q < rest[k].start && q <= |t|
        ensures MatchAt(arms, t, q).None?
      {
        assert hs[k + 1] == rest[k] && SearchFrom(hs, p, k + 1) == SearchFrom(rest, r, k);
      }
    }
    assert TailEmpty(arms, t, r, rest) by {
      assert SearchFrom(hs, p, |hs|) == SearchFrom(rest, r, |rest|);
    }
  }

  /** Where the pattern matches at a scan's start, the scan's first hit is there. */
  lemma ScanFirst(arms: seq<string>, t: string, p: nat, hs: seq<Hit>)
    requires IsScan(arms, t, p, hs)
    requires p <= |t| && MatchAt(arms, t, p).Some?
    ensures hs != [] && hs[0].start == p && MatchAt(arms, t, p) == Some(hs[0].text)
  {
    var last := SearchFrom(hs, p, |hs|);
    assert hs != [] || last == p;
    assert TailEmpty(arms, t, p, hs);
    assert hs != [];
    assert SearchFrom(hs, p, 0) == p;
    assert GapsEmpty(arms, t, p, hs);
    assert HitsFound(arms, t, p, hs);
  }

  /** `Matches` is such a scan. */
  lemma {:induction false} MatchesIsScan(arms: seq<string>, t: string, p: nat)
    ensures IsScan(arms, t, p, Matches(arms, t, p))
    decreases |t| + 1 - p
  {
    if p <= |t| {
      match MatchAt(arms, t, p)
      case None =>
        var hs := Matches(arms, t, p + 1);
        assert Matches(arms, t, p) == hs;
        MatchesIsScan(arms, t, p + 1);
        ScanSkipForward(arms, t, p, hs);
      case Some(a) =>
        var h := Hit(p, a);
        var rest := Matches(arms, t, Resume(h));
        assert Matches(arms, t, p) == [h] + rest;
        MatchesIsScan(arms, t, Resume(h));
        ScanConsBack(arms, t, p, h, rest);
    }
  }

  /** ... and the only one: a scan is determined by the arms, the text and the start. */
  lemma {:induction false} ScanIsMatches(arms: seq<string>, t: string, p: nat, hs: seq<Hit>)
    requires IsScan(arms, t, p, hs)
    ensures hs == Matches(arms, t, p)
    decreases |t| + 1 - p
  {
    if p > |t| {
      var s0 := SearchFrom(hs, p, 0);
      assert HitsFound(arms, t, p, hs);
      assert hs == [];
    } else {
      match MatchAt(arms, t, p)
      case None =>
        ScanSkipBack(arms, t, p, hs);
        ScanIsMatches(arms, t, p + 1, hs);
      case Some(a) =>
        ScanFirst(arms, t, p, hs);
        assert hs == [hs[0]] + hs[1..];
        ScanConsForward(arms, t, p, hs[0], hs[1..]);
        ScanIsMatches(arms, t, Resume(hs[0]), hs[1..]);
    }
  }

  /** `pattern.test(text)`: some position of the text has a match. */
  lemma HasMatchIff(arms: seq<string>, t: string)
    ensures Matches(arms, t, 0) != [] <==> exists q :: 0 <= q <= |t| && MatchAt(arms, t, q).Some?
  {
    var hs := Matches(arms, t, 0);
    MatchesIsScan(arms, t, 0);
    var s0 := SearchFrom(hs, 0, 0);
    assert HitsFound(arms, t, 0, hs) && TailEmpty(arms, t, 0, hs);
  }

  /** Every hit of the scan is a whole-word occurrence of one of the arms,
      the longest one that fits there when the arms are sorted, and hits do
      not overlap and come in left-to-right order. */
  lemma MatchesWholeWord(arms: seq<string>, t: string, k: nat)
    requires k < |Matches(arms, t, 0)|
    ensures var h := Matches(arms, t, 0)[k];
      h.text in arms && h.start + |h.text| <= |t| && t[h.start..h.start + |h.text|] == h.text &&
      IsBoundary(t, h.start) && IsBoundary(t, h.start + |h.text|)
    ensures var h := Matches(arms, t, 0)[k];
      NonIncreasing(arms) ==> forall b :: b in arms && ArmMatches(t, h.start, b) ==> |b| <= |h.text|
    ensures k + 1 < |Matches(arms, t, 0)| ==>
      var h, h' := Matches(arms, t, 0)[k], Matches(arms, t, 0)[k + 1];
      h.start + |h.text| <= h'.start && h.start < h'.start
  {
    var hs := Matches(arms, t, 0);
    MatchesIsScan(arms, t, 0);
    assert SearchFrom(hs, 0, k) <= hs[k].start <= |t|;
    MatchAtSpec(arms, t, hs[k].start);
    if k + 1 < |hs| {
      assert SearchFrom(hs, 0, k + 1) <= hs[k + 1].start;
    }
  }
}
