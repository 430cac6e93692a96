/** Worked instances of the rewrite on small tables and texts. */
module Examples {
  import opened Wrappers
  import opened Funding
  import opened Matcher
  import opened Annotator

  /** A name inside a longer word is not a hit. */
  lemma InsideWordIsNoHit()
    ensures Matches(["TF1"], "TF1s", 0) == []
  {
  }

  /** A name followed by punctuation is a hit. */
  lemma BeforePunctuationIsHit()
    ensures Matches(["Le Monde"], "Le Monde.", 0) == [Hit(0, "Le Monde")]
  {
  }

  /** With the longer alias tried first, the longer name wins over its prefix. */
  lemma LongerAliasWins()
    ensures Matches(["Le Monde diplo", "Le Monde"], "Le Monde diplo", 0) == [Hit(0, "Le Monde diplo")]
  {
  }

  /** Text that already carries a figure in millions is left alone. */
  lemma AnnotatedTextIsGuarded()
    ensures Annotate(["TF1"], [Entry("TF1", "1M\U{20AC}")], "minimalist", "TF1 (1M\U{20AC})") == "TF1 (1M\U{20AC})"
  {
    assert StartsAnnotated("TF1 (1M\U{20AC})"[5..]);
    AnnotateGuarded(["TF1"], [Entry("TF1", "1M\U{20AC}")], "minimalist", "TF1 (1M\U{20AC})");
  }

  /** `TF1` alone is one hit. */
  lemma OneHitInName()
    ensures Matches(["TF1"], "TF1", 0) == [Hit(0, "TF1")]
  {
    assert Matches(["TF1"], "TF1", 3) == [];
  }

  /** `TF1 (0€)` holds one hit, `TF1` at 0. */
  lemma OneHitInAnnotated()
    ensures Matches(["TF1"], "TF1 (0\U{20AC})", 0) == [Hit(0, "TF1")]
  {
    NoHitAfterName();
    assert MatchAt(["TF1"], "TF1 (0\U{20AC})", 0) == Some("TF1");
  }

  /** Past the name, `TF1 (0€)` holds no hit. */
  lemma NoHitAfterName()
    ensures Matches(["TF1"], "TF1 (0\U{20AC})", 3) == []
  {
    assert Matches(["TF1"], "TF1 (0\U{20AC})", 6) == [];
  }

  /** A one-entry table resolves its own key. */
  lemma ZeroEntryResolves()
    ensures Resolve([Entry("TF1", "0\U{20AC}")], "TF1") == Some("0\U{20AC}")
  {
  }

  /** The unguarded callback appends the minimalist suffix. */
  lemma ZeroReplacement()
    ensures Replacement([Entry("TF1", "0\U{20AC}")], "minimalist", false, "TF1") == "TF1 (0\U{20AC})"
  {
    ZeroEntryResolves();
  }

  /** A text with one hit, at its start, and no guard match gets that hit's
      replacement followed by the rest of the text. */
  lemma OneHitAnnotate(arms: seq<string>, t: Table, style: string, text: string, m: string)
    requires Matches(arms, text, 0) == [Hit(0, m)]
    requires !AlreadyAnnotated(text)
    ensures |m| <= |text|
    ensures Annotate(arms, t, style, text) == Replacement(t, style, false, m) + text[|m|..]
  {
    MatchesPlaced(arms, text, 0, 0);
    assert Placed(text, [Hit(0, m)], 0);
    OneHitReplace(text, m, t, style);
  }

  /** Replacing a single hit at the start of the text. */
  lemma OneHitReplace(text: string, m: string, t: Table, style: string)
    requires Placed(text, [Hit(0, m)], 0)
    ensures |m| <= |text|
    ensures ReplaceFrom(text, [Hit(0, m)], 0, t, style, false) == Replacement(t, style, false, m) + text[|m|..]
  {
    var hs := [Hit(0, m)];
    var r := Replacement(t, style, false, m);
    var rest := ReplaceFrom(text, [], |m|, t, style, false);
    assert hs[1..] == [];
    assert rest == text[|m|..];
    assert ReplaceFrom(text, hs, 0, t, style, false) == text[0..0] + r + rest;
    assert text[0..0] + r == r;
  }

  /** A zero amount is written without a unit: the first pass appends it ... */
  lemma ZeroAmountAnnotated()
    ensures Annotate(["TF1"], [Entry("TF1", "0\U{20AC}")], "minimalist", "TF1") == "TF1 (0\U{20AC})"
  {
    NoUnitNotAnnotated("TF1");
    OneHitInName();
    OneHitAnnotate(["TF1"], [Entry("TF1", "0\U{20AC}")], "minimalist", "TF1", "TF1");
    ZeroReplacement();
    assert "TF1"[3..] == [];
  }

  /** ... and, since the guard does not see it, a second pass appends it again. */
  lemma ZeroAmountAnnotatedAgain()
    ensures Annotate(["TF1"], [Entry("TF1", "0\U{20AC}")], "minimalist", "TF1 (0\U{20AC})") ==
            "TF1 (0\U{20AC})" + " (0\U{20AC})"
  {
    var text := "TF1 (0\U{20AC})";
    OneHitAgain();
    ZeroReplacement();
    assert text[3..] == " (0\U{20AC})";
  }

  /** The annotated text has one hit and no guard match. */
  lemma OneHitAgain()
    ensures Annotate(["TF1"], [Entry("TF1", "0\U{20AC}")], "minimalist", "TF1 (0\U{20AC})") ==
            Replacement([Entry("TF1", "0\U{20AC}")], "minimalist", false, "TF1") + "TF1 (0\U{20AC})"[3..]
  {
    var text := "TF1 (0\U{20AC})";
    NoUnitNotAnnotated(text);
    OneHitInAnnotated();
    OneHitAnnotate(["TF1"], [Entry("TF1", "0\U{20AC}")], "minimalist", text, "TF1");
  }
}
