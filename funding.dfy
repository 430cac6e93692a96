/**
 The funding table (`FUNDING_DATA`) and the lookup of a matched alias's
 amount: first by the exact key, then through the first key, in table
 order, whose upper-case form is the match.
 */
module Funding {
  import opened Wrappers
  import opened Chars

  /** One property of the table, in the order `Object.keys` lists it. */
  datatype Entry = Entry(key: string, amount: string)

  type Table = seq<Entry>

  /** An object literal has each key once: the entries of a table built from
      one have pairwise different keys. */
  predicate UniqueKeys(t: Table) {
    forall i, j :: 0 <= i < j < |t| ==> t[i].key != t[j].key
  }

  /** `Object.keys(FUNDING_DATA)`. */
  function Keys(t: Table): (ks: seq<string>)
    ensures |ks| == |t|
    ensures forall i :: 0 <= i < |t| ==> ks[i] == t[i].key
  {
    seq(|t|, i requires 0 <= i < |t| => t[i].key)
  }

  /** `FUNDING_DATA[k]`: the amount of the first entry with key `k`, if any. */
  function Get(t: Table, k: string): (r: Option<string>)
    ensures r.Some? <==> k in Keys(t)
    ensures r.Some? ==> exists i :: 0 <= i < |t| && t[i].key == k && r.value == t[i].amount
  {
    if t == [] then None
    else if t[0].key == k then Some(t[0].amount)
    else
      var r := Get(t[1..], k);
      assert r.Some? ==> exists i :: 1 <= i < |t| && t[i].key == k && r.value == t[i].amount by {
        if r.Some? {
          var j :| 0 <= j < |t[1..]| && t[1..][j].key == k && r.value == t[1..][j].amount;
          assert t[j + 1] == t[1..][j];
        }
      }
      assert Keys(t) == [t[0].key] + Keys(t[1..]);
      r
  }

  /** `Object.keys(FUNDING_DATA).find(k => k.toUpperCase() === m)`. */
  function FindUpper(t: Table, m: string): (r: Option<string>)
  {
    if t == [] then None
    else if ToUpper(t[0].key) == m then Some(t[0].key)
    else FindUpper(t[1..], m)
  }

  /** JavaScript truthiness of a looked-up amount: `undefined` and the empty
      string are falsy. */
  function Truthy(o: Option<string>): Option<string> {
    if o.Some? && o.value != "" then o else None
  }

  /** `FUNDING_DATA[m] || FUNDING_DATA[find(...)]`, `None` standing for a
      falsy result. When no key upper-cases to `m`, `find` yields
      `undefined`, and indexing with it reads the property "undefined". */
  function Resolve(t: Table, m: string): (r: Option<string>)
    ensures r.Some? ==> r.value != ""
  {
    var exact := Truthy(Get(t, m));
    if exact.Some? then exact
    else Truthy(Get(t, FindUpper(t, m).GetOr("undefined")))
  }

  /** `FindUpper` returns the first key, in table order, that upper-cases to
      `m`, and nothing when there is none. */
  lemma {:induction false} FindUpperFirst(t: Table, m: string)
    ensures FindUpper(t, m).Some? <==> exists i :: 0 <= i < |t| && ToUpper(t[i].key) == m
    ensures FindUpper(t, m).Some? ==>
      exists i :: 0 <= i < |t| && FindUpper(t, m).value == t[i].key && ToUpper(t[i].key) == m &&
        forall j :: 0 <= j < i ==> ToUpper(t[j].key) != m
  {
    if t != [] && ToUpper(t[0].key) != m {
      FindUpperFirst(t[1..], m);
      if FindUpper(t, m).Some? {
        var i :| 0 <= i < |t[1..]| && FindUpper(t, m).value == t[1..][i].key && ToUpper(t[1..][i].key) == m &&
          forall j :: 0 <= j < i ==> ToUpper(t[1..][j].key) != m;
        assert forall j :: 1 <= j < i + 1 ==> t[j] == t[1..][j - 1];
        assert t[i + 1] == t[1..][i];
      } else {
        assert forall i :: 1 <= i < |t| ==> t[i] == t[1..][i - 1];
      }
    }
  }

  /** The exact key takes precedence: when `m` is a key with a non-empty
      amount, that amount is the result. */
  lemma ResolveExact(t: Table, m: string, i: nat)
    requires i < |t| && t[i].key == m && t[i].amount != ""
    requires forall j :: 0 <= j < i ==> t[j].key != m
    ensures Resolve(t, m) == Some(t[i].amount)
  {
    GetFirst(t, m, i);
  }

  /** `Get` finds the first entry with the key. */
  lemma {:induction false} GetFirst(t: Table, k: string, i: nat)
    requires i < |t| && t[i].key == k
    requires forall j :: 0 <= j < i ==> t[j].key != k
    ensures Get(t, k) == Some(t[i].amount)
  {
    if i > 0 {
      assert t[0].key != k;
      assert forall j :: 0 <= j < i - 1 ==> t[1..][j] == t[j + 1];
      GetFirst(t[1..], k, i - 1);
    }
  }

  /** With unique keys, looking up a key yields that entry's amount. */
  lemma GetUnique(t: Table, i: nat)
    requires UniqueKeys(t) && i < |t|
    ensures Get(t, t[i].key) == Some(t[i].amount)
  {
    GetFirst(t, t[i].key, i);
  }

  /** Without a usable exact key, the amount is that of the first key, in
      table order, whose upper-case form is `m` (when it is non-empty). */
  lemma ResolveUpper(t: Table, m: string, i: nat)
    requires m !in Keys(t)
    requires i < |t| && ToUpper(t[i].key) == m
    requires forall j :: 0 <= j < i ==> ToUpper(t[j].key) != m
    requires UniqueKeys(t)
    ensures Resolve(t, m) == Truthy(Some(t[i].amount))
  {
    FindUpperFirst(t, m);
    var k :| 0 <= k < |t| && FindUpper(t, m).value == t[k].key && ToUpper(t[k].key) == m &&
      forall j :: 0 <= j < k ==> ToUpper(t[j].key) != m;
    assert k == i;
    GetUnique(t, i);
  }

  /** A string that is neither a key nor the upper-case form of one gets no
      amount, unless the table has a key named "undefined". */
  lemma ResolveUnknown(t: Table, m: string)
    requires m !in Keys(t) && "undefined" !in Keys(t)
    requires forall i :: 0 <= i < |t| ==> ToUpper(t[i].key) != m
    ensures Resolve(t, m) == None
  {
    FindUpperFirst(t, m);
  }

  /** With non-empty amounts, a match gets an amount exactly when it is a key
      or the upper-case form of one (the converse needs the table to have no
      key named "undefined"). */
  lemma ResolveDefined(t: Table, m: string)
    requires forall i :: 0 <= i < |t| ==> t[i].amount != ""
    ensures (m in Keys(t) || exists i :: 0 <= i < |t| && ToUpper(t[i].key) == m) ==> Resolve(t, m).Some?
    ensures "undefined" !in Keys(t) && Resolve(t, m).Some? ==>
      m in Keys(t) || exists i :: 0 <= i < |t| && ToUpper(t[i].key) == m
  {
    FindUpperFirst(t, m);
  }

  /** The figures in the source (Ministry of Culture 2023/2024). */
  const FUNDING_DATA: Table := [
    Entry("Le Monde", "8,3M\U{20AC}"),
    Entry("Le Figaro", "10,6M\U{20AC}"),
    Entry("Lib\U{E9}ration", "6,3M\U{20AC}"),
    Entry("Aujourd'hui en France", "12,2M\U{20AC}"),
    Entry("Le Parisien", "12,2M\U{20AC}"),
    Entry("La Croix", "9,2M\U{20AC}"),
    Entry("L'Humanit\U{E9}", "6,5M\U{20AC}"),
    Entry("L'Opinion", "0,8M\U{20AC}"),
    Entry("Les Echos", "0,9M\U{20AC}"),
    Entry("Ouest-France", "6,8M\U{20AC}"),
    Entry("L'Obs", "0,2M\U{20AC}"),
    Entry("Le Point", "1,1M\U{20AC}"),
    Entry("L'Express", "0,1M\U{20AC}"),
    Entry("Marianne", "0,9M\U{20AC}"),
    Entry("Valeurs Actuelles", "0,4M\U{20AC}"),
    Entry("T\U{E9}l\U{E9}rama", "5,5M\U{20AC}"),
    Entry("M\U{E9}diapart", "0\U{20AC}"),
    Entry("Politis", "0,3M\U{20AC}"),
    Entry("Charlie Hebdo", "0\U{20AC}"),
    Entry("France T\U{E9}l\U{E9}visions", "2,5Md\U{20AC}"),
    Entry("France 2", "2,5Md\U{20AC}"),
    Entry("France 3", "2,5Md\U{20AC}"),
    Entry("Arte", "300M\U{20AC}"),
    Entry("Radio France", "630M\U{20AC}"),
    Entry("France Inter", "630M\U{20AC}"),
    Entry("France Info", "630M\U{20AC}"),
    Entry("TF1", "0\U{20AC}"),
    Entry("M6", "0\U{20AC}"),
    Entry("BFMTV", "0\U{20AC}"),
    Entry("CNews", "0\U{20AC}")
  ]

  /** Every amount in the table is a non-empty string, so none is falsy. */
  lemma AmountsNonEmpty()
    ensures forall i :: 0 <= i < |FUNDING_DATA| ==> FUNDING_DATA[i].amount != ""
  {
  }
}
