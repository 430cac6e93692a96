/**
 `getFormattedSuffix`: the text appended after a recognised mention, chosen
 by the display style; any style other than the four named ones, including
 `concise`, gets the concise template.
 */
module Suffix {
  import opened Wrappers
  import opened Chars

  /** The suffix for `amount` under `style`. */
  function FormattedSuffix(style: string, amount: string): (r: string) {
    if style == "brackets" then " [" + amount + " public]"
    else if style == "visual" then " (\U{1F4B0} " + amount + ")"
    else if style == "minimalist" then " (" + amount + ")"
    else if style == "full" then " (" + amount + " d\U{2019}argent public en 2024)"
    else " (" + amount + " public '23)"
  }

  /** The style names the switch recognises. */
  predicate IsNamedStyle(style: string) {
    style == "brackets" || style == "visual" || style == "minimalist" || style == "full"
  }

  /** The text of each template before the amount. */
  function Opening(style: string): string {
    match style
    case "brackets" => " ["
    case "visual" => " (\U{1F4B0} "
    case _ => " ("
  }

  /** The text of each template after the amount. */
  function Closing(style: string): string {
    match style
    case "brackets" => " public]"
    case "visual" => ")"
    case "minimalist" => ")"
    case "full" => " d\U{2019}argent public en 2024)"
    case _ => " public '23)"
  }

  /** Reads the amount back out of a suffix of the given style. */
  function AmountIn(style: string, suffix: string): Option<string> {
    var o, c := Opening(style), Closing(style);
    if |suffix| >= |o| + |c| && suffix[..|o|] == o && suffix[|suffix| - |c|..] == c
    then Some(suffix[|o|..|suffix| - |c|])
    else None
  }

  /** Every suffix is its style's opening, the amount and its closing; the
      closing is never empty and does not start with a line terminator, and
      the suffix starts with a space. */
  lemma SuffixShape(style: string, amount: string)
    ensures FormattedSuffix(style, amount) == Opening(style) + amount + Closing(style)
    ensures |Opening(style)| >= 2 && Opening(style)[0] == ' '
    ensures |Closing(style)| >= 1 && !IsLineTerminator(Closing(style)[0])
  {
  }

  /** The amount can be read back from the suffix: the template never loses it. */
  lemma {:induction false} SuffixRoundTrip(style: string, amount: string)
    ensures AmountIn(style, FormattedSuffix(style, amount)) == Some(amount)
  {
    SuffixShape(style, amount);
    var o, c := Opening(style), Closing(style);
    var s := o + amount + c;
    assert s[..|o|] == o;
    assert s[|s| - |c|..] == c;
    assert s[|o|..|s| - |c|] == amount;
  }

  /** Any style other than the four named ones gets the concise template. */
  lemma DefaultIsConcise(style: string, amount: string)
    requires !IsNamedStyle(style)
    ensures FormattedSuffix(style, amount) == FormattedSuffix("concise", amount)
    ensures FormattedSuffix(style, amount) == " (" + amount + " public '23)"
  {
  }

  /** Different amounts give different suffixes under the same style. */
  lemma SuffixInjective(style: string, a: string, b: string)
    requires FormattedSuffix(style, a) == FormattedSuffix(style, b)
    ensures a == b
  {
    SuffixRoundTrip(style, a);
    SuffixRoundTrip(style, b);
  }
}
