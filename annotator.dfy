/**
 The text-node rewrite of `processNode`: `text.replace(pattern, callback)`
 where the callback appends the formatted suffix after each match whose
 amount resolves, unless the whole text already looks annotated.
 */
module Annotator {
  import opened Wrappers
  import opened Chars
  import opened Funding
  import opened Suffix
  import opened Matcher

  // ---- The double-append guard `/[\(\[]?(💰 )?\d+(,\d+)?(M€|Md€).+[\)\]]?/` ----

  /** Length of the run of digits at the start of `s`. */
  function DigitRun(s: string): (n: nat)
    ensures n <= |s|
    ensures forall i :: 0 <= i < n ==> IsDigit(s[i])
    ensures n < |s| ==> !IsDigit(s[n])
  {
    if s != [] && IsDigit(s[0]) then 1 + DigitRun(s[1..]) else 0
  }

  /** `(M€|Md€).`: a unit followed by at least one character `.` matches. */
  predicate UnitThenChar(r: string) {
    (|r| >= 3 && r[..2] == "M\U{20AC}" && !IsLineTerminator(r[2])) ||
    (|r| >= 4 && r[..3] == "Md\U{20AC}" && !IsLineTerminator(r[3]))
  }

  /** The guard's core `\d+(,\d+)?(M€|Md€).+` matches at the start of `w`.
      Its optional leading and trailing parts never decide whether a match
      exists, and each `\d+` can only end where the digit run ends, since a
      digit is neither `,` nor the start of a unit. `GuardExact` reads this
      back as: `w` starts with a unit amount and one more character. */
  predicate StartsAnnotated(w: string) {
    |w| > 0 && IsDigit(w[0]) &&
    var r := w[DigitRun(w)..];
    UnitThenChar(r) ||
    (|r| >= 2 && r[0] == ',' && IsDigit(r[1]) && UnitThenChar(r[1 + DigitRun(r[1..])..]))
  }

  /** `alreadyHasSuffix`: the guard matches somewhere in the text. */
  predicate AlreadyAnnotated(t: string) {
    exists i :: 0 <= i < |t| && StartsAnnotated(t[i..])
  }

  /** An amount the guard recognises: `\d+(,\d+)?` followed by `M€` or `Md€`. */
  predicate IsUnitAmount(a: string) {
    |a| > 0 && IsDigit(a[0]) &&
    var r := a[DigitRun(a)..];
    IsUnit(r) || IsDecimalUnit(r)
  }

  /** `,\d+` followed by a unit. */
  predicate IsDecimalUnit(r: string) {
    |r| >= 2 && r[0] == ',' && IsDigit(r[1]) && IsUnit(r[1 + DigitRun(r[1..])..])
  }

  predicate IsUnit(r: string) {
    r == "M\U{20AC}" || r == "Md\U{20AC}"
  }

  // ---- The replacement ----

  /** What the callback returns for match `m`. */
  function Replacement(t: Table, style: string, guarded: bool, m: string): (r: string) {
    match Resolve(t, m)
    case None => m
    case Some(a) => if guarded then m else m + FormattedSuffix(style, a)
  }

  /** The hits lie inside `text`, in order, from `pos` on, each covering its own text. */
  predicate Placed(text: string, hs: seq<Hit>, pos: nat)
    decreases |hs|
  {
    pos <= |text| &&
    (hs != [] ==>
      pos <= hs[0].start && hs[0].start + |hs[0].text| <= |text| &&
      text[hs[0].start..hs[0].start + |hs[0].text|] == hs[0].text &&
      Placed(text, hs[1..], hs[0].start + |hs[0].text|))
  }

  /** `String.prototype.replace` from `pos`: the text between hits is copied,
      each hit is replaced by what the callback returns. */
  function ReplaceFrom(text: string, hs: seq<Hit>, pos: nat, t: Table, style: string, guarded: bool): string
    requires Placed(text, hs, pos)
    decreases |hs|
  {
    if hs == [] then text[pos..]
    else text[pos..hs[0].start] + Replacement(t, style, guarded, hs[0].text) +
         ReplaceFrom(text, hs[1..], hs[0].start + |hs[0].text|, t, style, guarded)
  }

  /** The hits of a global search lie inside the text, in order. */
  lemma {:induction false} MatchesPlaced(arms: seq<string>, text: string, p: nat, pos: nat)
    requires pos <= p && pos <= |text|
    ensures Placed(text, Matches(arms, text, p), pos)
    decreases |text| + 1 - p
  {
    if p <= |text| {
      match MatchAt(arms, text, p)
      case None =>
        MatchesPlaced(arms, text, p + 1, pos);
      case Some(a) =>
        MatchAtSpec(arms, text, p);
        MatchesPlaced(arms, text, Resume(Hit(p, a)), p + |a|);
    }
  }

  /** The new text of a text node: `text.replace(pattern, callback)`. */
  function Annotate(arms: seq<string>, t: Table, style: string, text: string): (r: string)
    ensures Matches(arms, text, 0) == [] ==> r == text
  {
    MatchesPlaced(arms, text, 0, 0);
    ReplaceFrom(text, Matches(arms, text, 0), 0, t, style, AlreadyAnnotated(text))
  }

  // ---- What the rewrite does ----

  /** Where no hit gets a suffix, the replacement gives back the text. */
  lemma {:induction false} ReplaceIdentity(text: string, hs: seq<Hit>, pos: nat, t: Table, style: string, guarded: bool)
    requires Placed(text, hs, pos)
    requires forall k :: 0 <= k < |hs| ==> guarded || Resolve(t, hs[k].text).None?
    ensures ReplaceFrom(text, hs, pos, t, style, guarded) == text[pos..]
    decreases |hs|
  {
    if hs != [] {
      var h := hs[0];
      var e := h.start + |h.text|;
      var full := ReplaceFrom(text, hs, pos, t, style, guarded);
      var rest := ReplaceFrom(text, hs[1..], e, t, style, guarded);
      assert full == text[pos..h.start] + Replacement(t, style, guarded, h.text) + rest;
      assert guarded || Resolve(t, hs[0].text).None?;
      assert Replacement(t, style, guarded, h.text) == text[h.start..e];
      assert forall k :: 0 <= k < |hs| - 1 ==> hs[1..][k] == hs[k + 1];
      ReplaceIdentity(text, hs[1..], e, t, style, guarded);
      SliceJoin(text, pos, h.start, e);
    }
  }

  lemma SliceJoin(s: string, i: nat, j: nat, k: nat)
    requires i <= j <= k <= |s|
    ensures s[i..j] + s[j..k] + s[k..] == s[i..]
  {
  }

  /** A text the guard recognises is left exactly as it was. */
  lemma AnnotateGuarded(arms: seq<string>, t: Table, style: string, text: string)
    requires AlreadyAnnotated(text)
    ensures Annotate(arms, t, style, text) == text
  {
    MatchesPlaced(arms, text, 0, 0);
    ReplaceIdentity(text, Matches(arms, text, 0), 0, t, style, true);
  }

  /** A text in which no match resolves to an amount (in particular one with
      no match at all) is left exactly as it was. */
  lemma AnnotateUnresolved(arms: seq<string>, t: Table, style: string, text: string)
    requires forall k :: 0 <= k < |Matches(arms, text, 0)| ==> Resolve(t, Matches(arms, text, 0)[k].text).None?
    ensures Annotate(arms, t, style, text) == text
  {
    MatchesPlaced(arms, text, 0, 0);
    ReplaceIdentity(text, Matches(arms, text, 0), 0, t, style, AlreadyAnnotated(text));
  }

  /** Hit `k` of a placed sequence lies inside the text, after `pos`, and
      the later hits are placed after it. */
  lemma {:induction false} PlacedHit(text: string, hs: seq<Hit>, pos: nat, k: nat)
    requires Placed(text, hs, pos) && k < |hs|
    ensures pos <= hs[k].start && hs[k].start + |hs[k].text| <= |text|
    ensures text[hs[k].start..hs[k].start + |hs[k].text|] == hs[k].text
    ensures Placed(text, hs[k + 1..], hs[k].start + |hs[k].text|)
    decreases |hs|
  {
    if k > 0 {
      assert hs[1..][k - 1] == hs[k];
      PlacedHit(text, hs[1..], hs[0].start + |hs[0].text|, k - 1);
      assert hs[1..][k..] == hs[k + 1..];
    }
  }

  /** The hits before hit `k` are placed in the text before it. */
  lemma {:induction false} PlacedPrefix(text: string, hs: seq<Hit>, pos: nat, k: nat)
    requires Placed(text, hs, pos) && k < |hs|
    ensures hs[k].start <= |text| && Placed(text[..hs[k].start], hs[..k], pos)
    decreases |hs|
  {
    PlacedHit(text, hs, pos, k);
    if k > 0 {
      var e := hs[0].start + |hs[0].text|;
      var s := hs[k].start;
      assert hs[1..][k - 1] == hs[k];
      PlacedPrefix(text, hs[1..], e, k - 1);
      PlacedHit(text, hs[1..], e, k - 1);
      PrefixStep(text, hs, pos, k);
    }
  }

  /** One unfolding of `Placed` on a cut text. */
  lemma PrefixStep(text: string, hs: seq<Hit>, pos: nat, k: nat)
    requires 0 < k < |hs| && hs[k].start <= |text|
    requires pos <= hs[0].start && hs[0].start + |hs[0].text| <= hs[k].start
    requires text[hs[0].start..hs[0].start + |hs[0].text|] == hs[0].text
    requires Placed(text[..hs[k].start], hs[1..][..k - 1], hs[0].start + |hs[0].text|)
    ensures Placed(text[..hs[k].start], hs[..k], pos)
  {
    var s := hs[k].start;
    var e := hs[0].start + |hs[0].text|;
    var pre := hs[..k];
    assert pre[0] == hs[0];
    assert pre[1..] == hs[1..][..k - 1];
    assert text[..s][hs[0].start..e] == text[hs[0].start..e];
  }

  /** The rewrite of the text before hit `k`, with the hits before it. */
  function Before(text: string, hs: seq<Hit>, pos: nat, t: Table, style: string, guarded: bool, k: nat): string
    requires Placed(text, hs, pos) && k < |hs|
  {
    PlacedPrefix(text, hs, pos, k);
    ReplaceFrom(text[..hs[k].start], hs[..k], pos, t, style, guarded)
  }

  /** The rewrite of the text after hit `k`, with the hits after it. */
  function After(text: string, hs: seq<Hit>, pos: nat, t: Table, style: string, guarded: bool, k: nat): string
    requires Placed(text, hs, pos) && k < |hs|
  {
    PlacedHit(text, hs, pos, k);
    ReplaceFrom(text, hs[k + 1..], hs[k].start + |hs[k].text|, t, style, guarded)
  }

  /** The result is the rewrite of the text before hit `k`, what the callback
      returns for hit `k`, and the rewrite of the text after it: the text
      between hits is copied, in order. */
  lemma {:induction false} ReplaceSplit(text: string, hs: seq<Hit>, pos: nat, t: Table, style: string,
                                        guarded: bool, k: nat)
    requires Placed(text, hs, pos)
    requires k < |hs|
    ensures ReplaceFrom(text, hs, pos, t, style, guarded) ==
      Before(text, hs, pos, t, style, guarded, k) + Replacement(t, style, guarded, hs[k].text) +
      After(text, hs, pos, t, style, guarded, k)
    decreases |hs|
  {
    var full := ReplaceFrom(text, hs, pos, t, style, guarded);
    var e := hs[0].start + |hs[0].text|;
    var rest := ReplaceFrom(text, hs[1..], e, t, style, guarded);
    var gap := text[pos..hs[0].start];
    var r := Replacement(t, style, guarded, hs[0].text);
    assert full == gap + r + rest;
    if k == 0 {
      SplitFirst(text, hs, pos, t, style, guarded);
    } else {
      assert hs[1..][k - 1] == hs[k];
      ReplaceSplit(text, hs[1..], e, t, style, guarded, k - 1);
      BeforeStep(text, hs, pos, t, style, guarded, k);
      AfterStep(text, hs, pos, t, style, guarded, k);
      ConcatStep(full, gap + r, rest, Before(text, hs[1..], e, t, style, guarded, k - 1),
                 Replacement(t, style, guarded, hs[k].text), After(text, hs[1..], e, t, style, guarded, k - 1));
    }
  }

  /** Before hit 0 there is only the gap; after it, the rewrite of the rest. */
  lemma SplitFirst(text: string, hs: seq<Hit>, pos: nat, t: Table, style: string, guarded: bool)
    requires Placed(text, hs, pos) && 0 < |hs|
    ensures Placed(text, hs[1..], hs[0].start + |hs[0].text|)
    ensures Before(text, hs, pos, t, style, guarded, 0) == text[pos..hs[0].start]
    ensures After(text, hs, pos, t, style, guarded, 0) ==
      ReplaceFrom(text, hs[1..], hs[0].start + |hs[0].text|, t, style, guarded)
  {
    assert text[..hs[0].start][pos..] == text[pos..hs[0].start];
  }

  /** The rewrite after hit `k > 0` is the rewrite after hit `k - 1` of the rest. */
  lemma AfterStep(text: string, hs: seq<Hit>, pos: nat, t: Table, style: string, guarded: bool, k: nat)
    requires Placed(text, hs, pos) && 0 < k < |hs|
    ensures Placed(text, hs[1..], hs[0].start + |hs[0].text|)
    ensures After(text, hs, pos, t, style, guarded, k) ==
      After(text, hs[1..], hs[0].start + |hs[0].text|, t, style, guarded, k - 1)
  {
    assert hs[1..][k - 1] == hs[k];
    assert hs[1..][k..] == hs[k + 1..];
  }

  /** The rewrite before hit `k > 0` starts with the gap before hit 0 and its
      replacement, then goes on as the rewrite before hit `k - 1` of the rest. */
  lemma BeforeStep(text: string, hs: seq<Hit>, pos: nat, t: Table, style: string, guarded: bool, k: nat)
    requires Placed(text, hs, pos) && 0 < k < |hs|
    ensures Placed(text, hs[1..], hs[0].start + |hs[0].text|)
    ensures Before(text, hs, pos, t, style, guarded, k) ==
      text[pos..hs[0].start] + Replacement(t, style, guarded, hs[0].text) +
      Before(text, hs[1..], hs[0].start + |hs[0].text|, t, style, guarded, k - 1)
  {
    var e := hs[0].start + |hs[0].text|;
    var s := hs[k].start;
    PlacedPrefix(text, hs, pos, k);
    assert hs[1..][k - 1] == hs[k];
    PlacedPrefix(text, hs[1..], e, k - 1);
    var pre := hs[..k];
    assert pre[0] == hs[0];
    assert pre[1..] == hs[1..][..k - 1];
    assert text[..s][pos..hs[0].start] == text[pos..hs[0].start];
  }

  lemma ConcatStep(full: string, prefix: string, rest: string, u: string, x: string, v: string)
    requires full == prefix + rest && rest == u + x + v
    ensures full == (prefix + u) + x + v
  {
  }

  lemma {:induction false} DigitRunAppend(x: string, y: string)
    requires DigitRun(x) < |x|
    ensures DigitRun(x + y) == DigitRun(x)
  {
    if IsDigit(x[0]) {
      assert (x + y)[1..] == x[1..] + y;
      DigitRunAppend(x[1..], y);
    }
  }

  lemma UnitFollowed(r: string, w: string)
    requires IsUnit(r)
    requires |w| >= 1 && !IsLineTerminator(w[0])
    ensures UnitThenChar(r + w)
  {
    assert (r + w)[..|r|] == r;
    assert (r + w)[|r|] == w[0];
  }

  /** `,\d+` and a unit, followed by a character `.` matches. */
  lemma DecimalUnitFollowed(r: string, w: string)
    requires IsDecimalUnit(r)
    requires |w| >= 1 && !IsLineTerminator(w[0])
    ensures UnitThenChar((r + w)[1 + DigitRun((r + w)[1..])..])
  {
    var r1 := r[1..];
    var m := DigitRun(r1);
    assert r1[m..] != [];
    DigitRunAppend(r1, w);
    assert (r + w)[1..] == r1 + w;
    assert (r1 + w)[m..] == r1[m..] + w;
    UnitFollowed(r1[m..], w);
  }

  /** A unit amount followed by any text that starts with a character other
      than a line terminator is recognised by the guard. */
  lemma UnitAmountRecognised(a: string, w: string)
    requires IsUnitAmount(a)
    requires |w| >= 1 && !IsLineTerminator(w[0])
    ensures StartsAnnotated(a + w)
  {
    var n := DigitRun(a);
    var r := a[n..];
    assert r != [];
    DigitRunAppend(a, w);
    assert (a + w)[n..] == r + w;
    if IsUnit(r) {
      UnitFollowed(r, w);
    } else {
      DecimalUnitFollowed(r, w);
    }
  }

  /** A text holding a match followed by the suffix of a unit amount is
      recognised by the guard. */
  lemma SuffixRecognised(u: string, m: string, style: string, a: string, v: string)
    requires IsUnitAmount(a)
    ensures AlreadyAnnotated(u + (m + FormattedSuffix(style, a)) + v)
  {
    SuffixShape(style, a);
    var o, c := Opening(style), Closing(style);
    var w := c + v;
    assert |w| >= 1 && w[0] == c[0];
    UnitAmountRecognised(a, w);
    AnnotatedAfter(u + m + o, a + w);
    Regroup(u, m, o, a, c, v);
  }

  /** A text whose tail the guard recognises is recognised as a whole. */
  lemma AnnotatedAfter(p: string, x: string)
    requires StartsAnnotated(x)
    ensures AlreadyAnnotated(p + x)
  {
    assert (p + x)[|p|..] == x;
  }

  /** Regrouping of a six-part concatenation. */
  lemma Regroup(u: string, m: string, o: string, a: string, c: string, v: string)
    ensures u + (m + (o + a + c)) + v == (u + m + o) + (a + (c + v))
  {
  }

  /** Once a pass has appended the suffix of a unit amount (any `M€` or
      `Md€` figure), the guard recognises the result, so a second pass
      leaves it as it is. */
  lemma AnnotateIdempotent(arms: seq<string>, t: Table, style: string, text: string, k: nat)
    requires !AlreadyAnnotated(text)
    requires k < |Matches(arms, text, 0)|
    requires Resolve(t, Matches(arms, text, 0)[k].text).Some?
    requires IsUnitAmount(Resolve(t, Matches(arms, text, 0)[k].text).value)
    ensures AlreadyAnnotated(Annotate(arms, t, style, text))
    ensures Annotate(arms, t, style, Annotate(arms, t, style, text)) == Annotate(arms, t, style, text)
  {
    var hs := Matches(arms, text, 0);
    MatchesPlaced(arms, text, 0, 0);
    var m := hs[k].text;
    var a := Resolve(t, m).value;
    var u, v := Before(text, hs, 0, t, style, false, k), After(text, hs, 0, t, style, false, k);
    ReplaceSplit(text, hs, 0, t, style, false, k);
    assert Replacement(t, style, false, m) == m + FormattedSuffix(style, a);
    SuffixRecognised(u, m, style, a, v);
    AnnotateGuarded(arms, t, style, Annotate(arms, t, style, text));
  }

  /** Every text the guard's core matches holds an `M`. */
  lemma StartsAnnotatedHasUnit(w: string)
    ensures StartsAnnotated(w) ==> exists j :: 0 <= j < |w| && w[j] == 'M'
  {
    if StartsAnnotated(w) {
      var n := DigitRun(w);
      var r := w[n..];
      if UnitThenChar(r) {
        assert w[n] == 'M';
      } else {
        var m := DigitRun(r[1..]);
        assert UnitThenChar(r[1 + m..]);
        assert w[n + 1 + m] == r[1 + m..][0];
      }
    }
  }

  /** The guard needs an `M`: a text without one is never recognised. */
  lemma NoUnitNotAnnotated(text: string)
    requires forall i :: 0 <= i < |text| ==> text[i] != 'M'
    ensures !AlreadyAnnotated(text)
  {
    forall i | 0 <= i < |text| ensures !StartsAnnotated(text[i..]) {
      StartsAnnotatedHasUnit(text[i..]);
      assert forall j :: 0 <= j < |text[i..]| ==> text[i..][j] == text[i + j];
    }
  }

  // ---- The guard, read back ----

  /** Cutting a string anywhere after its leading digit run keeps the run. */
  lemma DigitRunPrefix(s: string, n: nat)
    requires DigitRun(s) < n <= |s|
    ensures DigitRun(s[..n]) == DigitRun(s)
  {
    var d := DigitRun(s);
    assert s[..n][d] == s[d];
    assert DigitRun(s[..n]) <= d;
    DigitRunAppend(s[..n], s[n..]);
    assert s[..n] + s[n..] == s;
  }

  /** Where the unit ends in a text that starts with a unit and one more character. */
  lemma UnitThenCharSplit(r: string) returns (k: nat)
    requires UnitThenChar(r)
    ensures 2 <= k < |r| && IsUnit(r[..k]) && !IsLineTerminator(r[k])
  {
    if |r| >= 3 && r[..2] == "M\U{20AC}" && !IsLineTerminator(r[2]) {
      k := 2;
    } else {
      k := 3;
    }
  }

  /** A guard match of the form `\d+` unit `.` starts with a unit amount. */
  lemma GuardPlain(w: string) returns (n: nat)
    requires |w| > 0 && IsDigit(w[0]) && UnitThenChar(w[DigitRun(w)..])
    ensures 1 <= n < |w| && IsUnitAmount(w[..n]) && !IsLineTerminator(w[n])
  {
    var d := DigitRun(w);
    var r := w[d..];
    var k := UnitThenCharSplit(r);
    n := d + k;
    DigitRunPrefix(w, n);
    assert w[..n][d..] == r[..k];
    assert w[n] == r[k];
  }

  /** Where the unit ends in a text that starts with `,\d+`, a unit and one more character. */
  lemma DecimalSplit(r: string) returns (j: nat)
    requires |r| >= 2 && r[0] == ',' && IsDigit(r[1]) && UnitThenChar(r[1 + DigitRun(r[1..])..])
    ensures 3 <= j < |r| && IsDecimalUnit(r[..j]) && !IsLineTerminator(r[j])
  {
    var r1 := r[1..];
    var e := DigitRun(r1);
    assert r[1 + e..] == r1[e..];
    var k := UnitThenCharSplit(r1[e..]);
    j := 1 + e + k;
    DigitRunPrefix(r1, e + k);
    var x := r[..j];
    assert x[1..] == r1[..e + k];
    assert x[1 + e..] == r1[e..][..k];
    assert r[j] == r1[e..][k];
  }

  /** A guard match of the form `\d+,\d+` unit `.` starts with a unit amount. */
  lemma GuardDecimal(w: string) returns (n: nat)
    requires |w| > 0 && IsDigit(w[0])
    requires var r := w[DigitRun(w)..];
      |r| >= 2 && r[0] == ',' && IsDigit(r[1]) && UnitThenChar(r[1 + DigitRun(r[1..])..])
    ensures 1 <= n < |w| && IsUnitAmount(w[..n]) && !IsLineTerminator(w[n])
  {
    var d := DigitRun(w);
    var r := w[d..];
    var j := DecimalSplit(r);
    n := d + j;
    var a := w[..n];
    DigitRunPrefix(w, n);
    assert a[d..] == r[..j];
    assert a[0] == w[0];
    assert IsDecimalUnit(a[DigitRun(a)..]);
    assert w[n] == r[j];
  }

  /** Every match of the guard's core begins with a unit amount followed by
      a character other than a line terminator. */
  lemma GuardStartsWithAmount(w: string) returns (n: nat)
    requires StartsAnnotated(w)
    ensures 1 <= n < |w| && IsUnitAmount(w[..n]) && !IsLineTerminator(w[n])
  {
    if UnitThenChar(w[DigitRun(w)..]) {
      n := GuardPlain(w);
    } else {
      n := GuardDecimal(w);
    }
  }

  /** The guard's core matches at the start of `w` exactly when `w` starts
      with a unit amount followed by a character other than a line terminator. */
  lemma GuardExact(w: string)
    ensures StartsAnnotated(w) <==>
      exists n :: 1 <= n < |w| && IsUnitAmount(w[..n]) && !IsLineTerminator(w[n])
  {
    if StartsAnnotated(w) {
      var n := GuardStartsWithAmount(w);
    }
    if exists n :: 1 <= n < |w| && IsUnitAmount(w[..n]) && !IsLineTerminator(w[n]) {
      var n :| 1 <= n < |w| && IsUnitAmount(w[..n]) && !IsLineTerminator(w[n]);
      var a, rest := w[..n], w[n..];
      assert a + rest == w;
      UnitAmountRecognised(a, rest);
    }
  }

  /** A text the guard recognises holds a unit amount followed by a
      character other than a line terminator. */
  lemma AnnotatedHasAmount(text: string) returns (i: nat, n: nat)
    requires AlreadyAnnotated(text)
    ensures i < n < |text| && IsUnitAmount(text[i..n]) && !IsLineTerminator(text[n])
  {
    i :| 0 <= i < |text| && StartsAnnotated(text[i..]);
    var w := text[i..];
    var m := GuardStartsWithAmount(w);
    n := i + m;
    SliceOfSlice(text, i, m);
    SameAmount(w[..m], text[i..n]);
  }

  lemma SliceOfSlice(s: string, i: nat, m: nat)
    requires i + m < |s|
    ensures s[i..][..m] == s[i..i + m] && s[i..][m] == s[i + m]
  {
  }

  lemma SameAmount(x: string, y: string)
    requires x == y && IsUnitAmount(x)
    ensures IsUnitAmount(y)
  {
  }

  /** A unit amount followed by a character other than a line terminator,
      anywhere in the text, makes the guard recognise it. */
  lemma AmountAnnotated(text: string, i: nat, n: nat)
    requires i < n < |text| && IsUnitAmount(text[i..n]) && !IsLineTerminator(text[n])
    ensures AlreadyAnnotated(text)
  {
    var a, rest := text[i..n], text[n..];
    assert a + rest == text[i..];
    UnitAmountRecognised(a, rest);
  }

  /** `alreadyHasSuffix` holds exactly when some unit amount in the text is
      followed by a character other than a line terminator. */
  lemma AnnotatedExact(text: string)
    ensures AlreadyAnnotated(text) <==>
      exists i, n :: 0 <= i < n < |text| && IsUnitAmount(text[i..n]) && !IsLineTerminator(text[n])
  {
    if AlreadyAnnotated(text) {
      var i, n := AnnotatedHasAmount(text);
    }
    if exists i, n :: 0 <= i < n < |text| && IsUnitAmount(text[i..n]) && !IsLineTerminator(text[n]) {
      var i, n :| 0 <= i < n < |text| && IsUnitAmount(text[i..n]) && !IsLineTerminator(text[n]);
      AmountAnnotated(text, i, n);
    }
  }
}
