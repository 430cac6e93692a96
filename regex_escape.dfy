/**
 Escaping alias text for a regular expression (`escapeRegExp`) and building
 the whole-word alternation `\b(A1|A2|...)\b` from the sorted aliases.
 The reading side (`ParseAlternation`, `ParsePattern`) says what the
 regular-expression compiler takes each arm to be, so that the arms the
 matcher uses are exactly the aliases.
 */
module RegexEscape {
  import opened Wrappers

  /** The characters of the class `[.*+?^${}()|[\]\\]`. */
  predicate IsSpecial(c: char) {
    c == '.' || c == '*' || c == '+' || c == '?' || c == '^' || c == '$' ||
    c == '{' || c == '}' || c == '(' || c == ')' || c == '|' ||
    c == '[' || c == ']' || c == '\\'
  }

  /** `escapeRegExp`: a backslash before every special character. */
  function Escape(s: string): (r: string) {
    if s == [] then []
    else (if IsSpecial(s[0]) then ['\\', s[0]] else [s[0]]) + Escape(s[1..])
  }

  /** `Array.prototype.join`. */
  function Join(xs: seq<string>, sep: string): string {
    if |xs| == 0 then ""
    else if |xs| == 1 then xs[0]
    else xs[0] + sep + Join(xs[1..], sep)
  }

  /** `allKeys.map(escapeRegExp)`. */
  function EscapeAll(xs: seq<string>): (r: seq<string>)
    ensures |r| == |xs|
  {
    if xs == [] then [] else [Escape(xs[0])] + EscapeAll(xs[1..])
  }

  /** The source text of the pattern: `\b(` + escaped aliases joined by `|` + `)\b`. */
  function PatternSource(aliases: seq<string>): (r: string)
    ensures |r| >= 6 && r[..3] == "\\b(" && r[|r| - 3..] == ")\\b"
  {
    "\\b(" + Join(EscapeAll(aliases), "|") + ")\\b"
  }

  /** How a regular-expression compiler reads a group body made of literal
      characters, escaped special characters and `|`: the list of arms, each
      as the literal text it matches. `None` when the body holds anything
      else (an unescaped special character, a backslash before an ordinary
      character, a trailing backslash). */
  function ParseAlternation(p: string): (r: Option<seq<string>>)
    ensures r.Some? ==> |r.value| >= 1
  {
    if p == [] then Some([""])
    else if p[0] == '\\' then
      if |p| == 1 || !IsSpecial(p[1]) then None
      else Prepend(p[1], ParseAlternation(p[2..]))
    else if p[0] == '|' then
      match ParseAlternation(p[1..])
      case None => None
      case Some(arms) => Some([""] + arms)
    else if IsSpecial(p[0]) then None
    else Prepend(p[0], ParseAlternation(p[1..]))
  }

  /** Adds `c` in front of the first arm. */
  function Prepend(c: char, r: Option<seq<string>>): (r': Option<seq<string>>)
    requires r.Some? ==> |r.value| >= 1
    ensures r'.Some? <==> r.Some?
    ensures r'.Some? ==> |r'.value| == |r.value| && r'.value[0] == [c] + r.value[0]
                         && r'.value[1..] == r.value[1..]
  {
    match r
    case None => None
    case Some(arms) => Some([[c] + arms[0]] + arms[1..])
  }

  /** Reads a whole pattern source `\b(...)\b` back into its arms. */
  function ParsePattern(src: string): Option<seq<string>> {
    if |src| >= 6 && src[..3] == "\\b(" && src[|src| - 3..] == ")\\b"
    then ParseAlternation(src[3..|src| - 3])
    else None
  }

  /** The arms the compiled pattern tries, in order. */
  function CompiledArms(aliases: seq<string>): seq<string> {
    ParsePattern(PatternSource(aliases)).GetOr([])
  }

  /** Adds the string `s` in front of the first arm. */
  function PrependAll(s: string, r: Option<seq<string>>): (r': Option<seq<string>>)
    requires r.Some? ==> |r.value| >= 1
    ensures r'.Some? <==> r.Some?
    ensures r'.Some? ==> |r'.value| == |r.value| && r'.value[0] == s + r.value[0]
                         && r'.value[1..] == r.value[1..]
  {
    if s == [] then r else Prepend(s[0], PrependAll(s[1..], r))
  }

  /** Reading an escaped string in front of more pattern text puts exactly
      that string in front of the first arm. */
  lemma {:induction false} ParseEscaped(s: string, rest: string)
    ensures ParseAlternation(Escape(s) + rest) == PrependAll(s, ParseAlternation(rest))
  {
    if s == [] {
      assert Escape(s) + rest == rest;
    } else {
      var c := s[0];
      var tail := Escape(s[1..]) + rest;
      ParseEscaped(s[1..], rest);
      if IsSpecial(c) {
        assert Escape(s) + rest == ['\\', c] + tail;
        assert (['\\', c] + tail)[2..] == tail;
      } else {
        assert Escape(s) + rest == [c] + tail;
        assert ([c] + tail)[1..] == tail;
      }
    }
  }

  /** Escaping then reading gives back the string: the inserted backslashes
      are exactly the ones the reader removes. */
  lemma EscapeRoundTrip(s: string)
    ensures ParseAlternation(Escape(s)) == Some([s])
  {
    ParseEscaped(s, "");
    assert Escape(s) + "" == Escape(s);
    var r := PrependAll(s, Some([""]));
    assert r.value[0] == s + "" == s;
    assert r.value == [s];
  }

  /** Joining the escaped aliases with `|` and reading the result gives back
      the aliases, in order. */
  lemma {:induction false} ParseJoined(xs: seq<string>)
    requires |xs| >= 1
    ensures ParseAlternation(Join(EscapeAll(xs), "|")) == Some(xs)
  {
    if |xs| == 1 {
      assert Join(EscapeAll(xs), "|") == Escape(xs[0]);
      EscapeRoundTrip(xs[0]);
      assert xs == [xs[0]];
    } else {
      var tail := Join(EscapeAll(xs[1..]), "|");
      assert EscapeAll(xs)[1..] == EscapeAll(xs[1..]);
      assert Join(EscapeAll(xs), "|") == Escape(xs[0]) + ("|" + tail);
      ParseJoined(xs[1..]);
      ParseEscaped(xs[0], "|" + tail);
      assert ("|" + tail)[1..] == tail;
      assert ParseAlternation("|" + tail) == Some([""] + xs[1..]);
      var r := PrependAll(xs[0], Some([""] + xs[1..]));
      assert r.value[0] == xs[0] + "" == xs[0];
      assert r.value[1..] == xs[1..];
      assert r.value == [r.value[0]] + r.value[1..];
      assert r.value == xs;
      assert ParseAlternation(Escape(xs[0]) + ("|" + tail)) == r;
    }
  }

  /** The compiled pattern tries exactly the aliases, in their order; with no
      alias at all the group is empty and its one arm is the empty string. */
  lemma CompiledArmsAreAliases(aliases: seq<string>)
    ensures CompiledArms(aliases) == if aliases == [] then [""] else aliases
  {
    var body := Join(EscapeAll(aliases), "|");
    var src := PatternSource(aliases);
    assert src[..3] == "\\b(";
    assert src[|src| - 3..] == ")\\b";
    assert src[3..|src| - 3] == body;
    if aliases != [] {
      ParseJoined(aliases);
    }
  }

  /** Characters other than the special ones are left as they are, and only
      strings without special characters are left unchanged. */
  lemma {:induction false} EscapeUnchanged(s: string)
    ensures Escape(s) == s <==> forall i :: 0 <= i < |s| ==> !IsSpecial(s[i])
  {
    if s != [] {
      EscapeUnchanged(s[1..]);
      EscapeLength(s[1..]);
      if IsSpecial(s[0]) {
        assert |Escape(s)| > |s|;
      } else {
        assert Escape(s) == [s[0]] + Escape(s[1..]);
        assert forall i :: 1 <= i < |s| ==> s[i] == s[1..][i - 1];
      }
    }
  }

  /** Escaping never shortens a string, and it keeps the length exactly when
      the string holds no special character. */
  lemma {:induction false} EscapeLength(s: string)
    ensures |Escape(s)| >= |s|
    ensures |Escape(s)| == |s| <==> forall i :: 0 <= i < |s| ==> !IsSpecial(s[i])
  {
    if s != [] {
      EscapeLength(s[1..]);
      assert forall i :: 1 <= i < |s| ==> s[i] == s[1..][i - 1];
    }
  }
}
