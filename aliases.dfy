/**
 The alias list: every key of the table, followed by its upper-case form
 when that differs, then sorted by descending length with a stable sort
 (`allKeys.sort((a, b) => b.length - a.length)`).
 */
module Aliases {
  import opened Wrappers
  import opened Chars
  import opened Funding

  /** The key's upper-case form differs from it, so it is pushed too. */
  predicate Changes(k: string) {
    ToUpper(k) != k
  }

  /** The aliases one key contributes, in push order. */
  function AliasesOf(k: string): seq<string> {
    if Changes(k) then [k, ToUpper(k)] else [k]
  }

  /** The list the `forEach` over the keys builds. */
  function ExpandAliases(keys: seq<string>): (r: seq<string>) {
    if keys == [] then []
    else ExpandAliases(keys[..|keys| - 1]) + AliasesOf(keys[|keys| - 1])
  }

  /** The `forEach` loop: push each key, then its upper-case form when it differs. */
  method BuildAliases(keys: seq<string>) returns (allKeys: seq<string>)
    ensures allKeys == ExpandAliases(keys)
  {
    allKeys := [];
    for i := 0 to |keys|
      invariant allKeys == ExpandAliases(keys[..i])
    {
      var key := keys[i];
      allKeys := allKeys + [key];
      var upper := ToUpper(key);
      if upper != key {
        allKeys := allKeys + [upper];
      }
      assert keys[..i + 1][..i] == keys[..i];
    }
    assert keys[..|keys|] == keys;
  }

  /** The alias list holds every key, the upper-case form of every key whose
      upper-case form differs from it, and nothing else. */
  lemma {:induction false} ExpandMembership(keys: seq<string>, x: string)
    ensures x in ExpandAliases(keys) <==>
      x in keys || exists k :: k in keys && ToUpper(k) != k && x == ToUpper(k)
  {
    if keys != [] {
      var init, last := keys[..|keys| - 1], keys[|keys| - 1];
      ExpandMembership(init, x);
      assert keys == init + [last];
      if x in ExpandAliases(keys) && x !in keys {
        if x in ExpandAliases(init) {
        } else {
          assert ToUpper(last) != last && x == ToUpper(last);
        }
      }
      if exists k :: k in keys && ToUpper(k) != k && x == ToUpper(k) {
        var k :| k in keys && ToUpper(k) != k && x == ToUpper(k);
        if k != last {
          assert k in init;
        }
      }
    }
  }

  /** The alias list has one entry per key plus one per key that changes
      when upper-cased. */
  lemma {:induction false} ExpandLength(keys: seq<string>)
    ensures |ExpandAliases(keys)| == |keys| + |ChangedIndices(keys)|
  {
    if keys != [] {
      var n := |keys| - 1;
      ExpandLength(keys[..n]);
      ChangedSplit(keys);
    }
  }

  /** The positions of the keys whose upper-case form differs. */
  function ChangedIndices(keys: seq<string>): set<nat> {
    set i: nat | i < |keys| && Changes(keys[i])
  }

  lemma ChangedSplit(keys: seq<string>)
    requires keys != []
    ensures var n := |keys| - 1;
      |ChangedIndices(keys)| == |ChangedIndices(keys[..n])| + (if Changes(keys[n]) then 1 else 0)
  {
    var n := |keys| - 1;
    var init := keys[..n];
    var last: set<nat> := if Changes(keys[n]) then {n} else {};
    forall i | i in ChangedIndices(keys) ensures i in ChangedIndices(init) + last {
      if i < n { assert init[i] == keys[i]; }
    }
    forall i | i in ChangedIndices(init) + last ensures i in ChangedIndices(keys) {
      if i < n { assert init[i] == keys[i]; }
    }
    assert ChangedIndices(keys) == ChangedIndices(init) + last;
    assert ChangedIndices(init) !! last;
  }

  // ---- The stable sort by descending length ----

  /** Lengths never increase from left to right. */
  predicate NonIncreasing(s: seq<string>) {
    forall i, j :: 0 <= i < j < |s| ==> |s[i]| >= |s[j]|
  }

  /** The elements of length `n`, in their order in `s`. */
  function OfLength(s: seq<string>, n: nat): seq<string> {
    if s == [] then []
    else OfLength(s[..|s| - 1], n) + (if |s[|s| - 1]| == n then [s[|s| - 1]] else [])
  }

  /** Inserts `x` into `r` after every element at least as long as `x`,
      moving it left only past strictly shorter elements. */
  function Insert(x: string, r: seq<string>): seq<string> {
    if r == [] then [x]
    else if |r[|r| - 1]| >= |x| then r + [x]
    else Insert(x, r[..|r| - 1]) + [r[|r| - 1]]
  }

  /** The stable sort by descending length, as insertion sort. */
  function SortByLength(s: seq<string>): (r: seq<string>) {
    if s == [] then [] else Insert(s[|s| - 1], SortByLength(s[..|s| - 1]))
  }

  lemma {:induction false} OfLengthAppend(a: seq<string>, b: seq<string>, n: nat)
    ensures OfLength(a + b, n) == OfLength(a, n) + OfLength(b, n)
  {
    if b != [] {
      var b' := b[..|b| - 1];
      assert (a + b)[..|a + b| - 1] == a + b';
      OfLengthAppend(a, b', n);
    } else {
      assert a + b == a;
    }
  }

  lemma {:induction false} InsertPermutes(x: string, r: seq<string>)
    ensures multiset(Insert(x, r)) == multiset(r) + multiset{x}
  {
    if r != [] && |r[|r| - 1]| < |x| {
      var r' := r[..|r| - 1];
      InsertPermutes(x, r');
      assert r == r' + [r[|r| - 1]];
    }
  }

  lemma {:induction false} InsertSorted(x: string, r: seq<string>)
    requires NonIncreasing(r)
    ensures NonIncreasing(Insert(x, r))
    ensures |Insert(x, r)| == |r| + 1
    ensures |Insert(x, r)[0]| == if r != [] && |r[0]| >= |x| then |r[0]| else |x|
  {
    if r != [] && |r[|r| - 1]| < |x| {
      var r' := r[..|r| - 1];
      var y := r[|r| - 1];
      InsertSorted(x, r');
      var s := Insert(x, r');
      assert Insert(x, r) == s + [y];
      forall i | 0 <= i < |s| ensures |s[i]| >= |y| {
        if r' != [] && |r'[0]| >= |x| {
          assert |r'[0]| >= |s[i]| >= |s[|s| - 1]|;
        }
      }
    }
  }

  lemma OfLengthSingle(x: string, n: nat)
    ensures OfLength([x], n) == if |x| == n then [x] else []
  {
    assert [x][..0] == [];
  }

  /** Inserting `x` appends it to the elements of its own length and leaves
      the elements of every other length in their order. */
  lemma {:induction false} InsertStable(x: string, r: seq<string>, n: nat)
    ensures OfLength(Insert(x, r), n) == OfLength(r, n) + (if |x| == n then [x] else [])
  {
    OfLengthSingle(x, n);
    if r == [] {
    } else if |r[|r| - 1]| >= |x| {
      OfLengthAppend(r, [x], n);
    } else {
      var r' := r[..|r| - 1];
      var y := r[|r| - 1];
      assert r == r' + [y];
      InsertStable(x, r', n);
      OfLengthSingle(y, n);
      OfLengthAppend(Insert(x, r'), [y], n);
      OfLengthAppend(r', [y], n);
    }
  }

  lemma {:induction false} SortPermutes(s: seq<string>)
    ensures multiset(SortByLength(s)) == multiset(s)
  {
    if s != [] {
      var s', x := s[..|s| - 1], s[|s| - 1];
      SortPermutes(s');
      InsertPermutes(x, SortByLength(s'));
      assert s == s' + [x];
    }
  }

  lemma {:induction false} SortNonIncreasing(s: seq<string>)
    ensures NonIncreasing(SortByLength(s))
  {
    if s != [] {
      var s', x := s[..|s| - 1], s[|s| - 1];
      SortNonIncreasing(s');
      InsertSorted(x, SortByLength(s'));
    }
  }

  lemma {:induction false} SortStable(s: seq<string>, n: nat)
    ensures OfLength(SortByLength(s), n) == OfLength(s, n)
  {
    if s != [] {
      var s', x := s[..|s| - 1], s[|s| - 1];
      SortStable(s', n);
      InsertStable(x, SortByLength(s'), n);
    }
  }

  /** The sorted alias list is a permutation of the unsorted one, has
      non-increasing lengths, and keeps aliases of equal length in their
      original order. */
  lemma SortByLengthCorrect(s: seq<string>)
    ensures multiset(SortByLength(s)) == multiset(s)
    ensures NonIncreasing(SortByLength(s))
    ensures forall n: nat :: OfLength(SortByLength(s), n) == OfLength(s, n)
  {
    SortPermutes(s);
    SortNonIncreasing(s);
    forall n: nat ensures OfLength(SortByLength(s), n) == OfLength(s, n) {
      SortStable(s, n);
    }
  }

  /** An alias is in the sorted list exactly when it is in the unsorted one. */
  lemma SortedMembership(s: seq<string>, x: string)
    ensures x in SortByLength(s) <==> x in s
  {
    SortPermutes(s);
    assert x in SortByLength(s) <==> x in multiset(SortByLength(s));
  }

  lemma {:induction false} InsertSplit(x: string, r: seq<string>, j: nat)
    requires j <= |r|
    requires forall k :: j <= k < |r| ==> |r[k]| < |x|
    requires j == 0 || |r[j - 1]| >= |x|
    ensures Insert(x, r) == r[..j] + [x] + r[j..]
  {
    if j == |r| {
      assert r[..j] == r;
    } else {
      var r' := r[..|r| - 1];
      InsertSplit(x, r', j);
      assert r'[..j] == r[..j];
      assert r'[j..] + [r[|r| - 1]] == r[j..];
    }
  }

  /** One step of the insertion sort: shifts the strictly shorter elements
      of `a[..i]` one place right and drops `a[i]` into the gap. */
  method InsertInPlace(a: array<string>, i: nat)
    requires i < a.Length
    modifies a
    ensures a[..i + 1] == Insert(old(a[i]), old(a[..i]))
    ensures a[i + 1..] == old(a[i + 1..])
  {
    ghost var r := a[..i];
    ghost var rest := a[i + 1..];
    var x := a[i];
    var j := i;
    while j > 0 && |a[j - 1]| < |x|
      invariant 0 <= j <= i
      invariant a[..j] == r[..j]
      invariant a[j + 1..i + 1] == r[j..i]
      invariant a[i + 1..] == rest
      invariant forall k :: j <= k < i ==> |r[k]| < |x|
    {
      a[j] := a[j - 1];
      j := j - 1;
    }
    a[j] := x;
    InsertSplit(x, r, j);
    assert a[..i + 1] == a[..j] + [x] + a[j + 1..i + 1];
  }

  /** `allKeys.sort(...)`, in place: an insertion sort that moves an element
      left only past strictly shorter ones, which keeps it stable. */
  method SortInPlace(a: array<string>)
    modifies a
    ensures a[..] == SortByLength(old(a[..]))
  {
    ghost var a0 := a[..];
    for i := 0 to a.Length
      invariant a[..i] == SortByLength(a0[..i])
      invariant a[i..] == a0[i..]
    {
      assert a[i] == a0[i];
      assert a0[..i + 1][..i] == a0[..i];
      InsertInPlace(a, i);
      assert a[i + 1..] == a0[i + 1..];
    }
    assert a0[..a.Length] == a0;
    assert a[..a.Length] == a[..];
  }

  /** The pattern's alias list for a table. */
  function SortedAliases(t: Table): seq<string> {
    SortByLength(ExpandAliases(Keys(t)))
  }

  /** Every alias resolves to an amount when the table's amounts are non-empty. */
  lemma EveryAliasResolves(t: Table, x: string)
    requires forall i :: 0 <= i < |t| ==> t[i].amount != ""
    requires x in SortedAliases(t)
    ensures Resolve(t, x).Some?
  {
    SortedMembership(ExpandAliases(Keys(t)), x);
    ExpandMembership(Keys(t), x);
    if x !in Keys(t) {
      var k :| k in Keys(t) && ToUpper(k) != k && x == ToUpper(k);
      var i :| 0 <= i < |t| && Keys(t)[i] == k;
    }
    ResolveDefined(t, x);
  }

  /** With the source's table, every alias the pattern can match has an amount. */
  lemma FundingAliasesResolve(x: string)
    requires x in SortedAliases(FUNDING_DATA)
    ensures Resolve(FUNDING_DATA, x).Some?
  {
    AmountsNonEmpty();
    EveryAliasResolves(FUNDING_DATA, x);
  }
}
