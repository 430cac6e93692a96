# Public-funding annotator: a Dafny model of `content.js`

`content.js` is the content script of a browser extension. It looks for
mentions of French news outlets in the text of a web page and appends the
public funding the outlet received, for example `Le Monde` becomes
`Le Monde (8,3M€ public '23)`. The script:

- builds an alias list from the keys of its funding table. Each key goes in,
  followed by its upper-case form when that differs. The list is sorted by
  descending length.
- compiles the escaped aliases into one whole-word, global regular expression
  `\b(A1|A2|...)\b`.
- walks the document. It rewrites each text node's value with
  `text.replace(pattern, callback)` and does not enter SCRIPT, STYLE,
  TEXTAREA, INPUT or NOSCRIPT elements.
- in the callback, looks up the matched alias's amount: by the exact key
  first, then through the first key whose upper-case form is the match. It
  appends a suffix in the display style the user chose, unless a guard
  expression says the text already carries an amount in millions (`M€`) or
  billions (`Md€`).

The project models each of those pieces and proves what each promises:

| file | module | models |
|---|---|---|
| `chars.dfy` | `Chars` | `\w`, `\d`, the line terminators, and upper-casing |
| `regex_escape.dfy` | `RegexEscape` | `escapeRegExp`, the pattern source, and how a regex compiler reads that source back |
| `funding.dfy` | `Funding` | the funding table and the amount lookup |
| `aliases.dfy` | `Aliases` | the alias list, filled by a loop (`BuildAliases`) and sorted in place on an array (`SortInPlace`), each proved against a functional definition |
| `suffix.dfy` | `Suffix` | `getFormattedSuffix` |
| `matcher.dfy` | `Matcher` | the regular-expression engine for this one pattern, written out: boundaries, ordered alternation, the leftmost non-overlapping global scan |
| `annotator.dfy` | `Annotator` | the double-append guard and `String.prototype.replace` with the callback |
| `content_script.dfy` | `Content` | the document as a class of nodes whose `nodeValue` is updated in place; the script's state (`currentStyle`, `initialized`) as a class with `processNode`, `init`, the stored-preference callback and the mutation callback as methods |
| `examples.dfy` | `Examples` | worked instances on small tables and texts |

Design points taken from the code:

- The pattern is read with the `g` flag by `pattern.test(text)`. A failing
  `test` resets `lastIndex`. A successful one is always followed by `replace`
  with the same global pattern, which starts from 0 and leaves `lastIndex` at
  0. So every `test` starts at position 0. The model uses "the global scan
  from 0 finds a match", and `Matcher.HasMatchIff` proves that this is the
  same as "the pattern matches somewhere".
- `FUNDING_DATA[m] || ...` treats the empty string as falsy. When no key
  upper-cases to the match, `find` yields `undefined`, so the second lookup
  reads the property named `"undefined"`. `Funding.Resolve` models both.
- With no aliases at all the group is empty. `\b()\b` then matches the empty
  string at every boundary, and the global scan steps one character past each
  empty match. `RegexEscape.CompiledArmsAreAliases` and the matcher cover
  that case.
- Only the ASCII definition of `\b` applies. JavaScript keeps `\w` and `\b`
  ASCII unless a pattern has both the `u` and the `i` flag, and this pattern
  has neither. A name followed by an accented letter (`TF1é`) therefore still ends
  at a boundary, while `Le Mondealist` contains no hit.
- The guard `/[\(\[]?(💰 )?\d+(,\d+)?(M€|Md€).+[\)\]]?/` is not anchored.
  Its optional leading and trailing parts never decide whether it matches.
  It matches exactly when some position starts with digits, an optional
  `,digits`, `M€` or `Md€`, and then one character that is not a line
  terminator.
- Amounts written without a unit (`0€`, used for TF1, M6, BFMTV, CNews,
  Médiapart and Charlie Hebdo) are not recognised by the guard. A text whose
  only figures are amounts without a unit is annotated again if it is
  processed a second time, and `Examples.ZeroAmountAnnotatedAgain` shows
  this. Once a pass has appended at least one amount with a unit, the guard
  recognises the result, whatever other suffixes it holds, and
  `Annotator.AnnotateIdempotent` proves that a second pass changes nothing.

## Model

| member | source | states |
|---|---|---|
| RegexEscape.Escape | content.js:80-82 | `escapeRegExp`; specified by `EscapeRoundTrip`, `EscapeUnchanged` and `EscapeLength`: a regex compiler reads the result back as the original string, and only the special characters change |
| RegexEscape.PatternSource | content.js:114 | the pattern source, opening with `\b(` and closing with `)\b`; specified by `CompiledArmsAreAliases`: its arms are the sorted aliases, in order |
| RegexEscape.EscapeRoundTrip | content.js:80-82 | reading an escaped string as a regex body gives back exactly that string as the one literal arm: the inserted backslashes are the only change |
| RegexEscape.ParseEscaped | content.js:80-82 | an escaped string in front of any further pattern text is read as that literal string prefixed to the first arm |
| RegexEscape.EscapeUnchanged | content.js:80-82 | escaping leaves a string unchanged if and only if it holds none of `.*+?^${}()\|[]\` |
| RegexEscape.EscapeLength | content.js:80-82 | escaping never shortens a string, and it keeps the length exactly when no special character occurs |
| RegexEscape.ParseJoined | content.js:114 | the `\|`-joined escaped aliases are read back as exactly those aliases, in order |
| RegexEscape.CompiledArmsAreAliases | content.js:114 | the compiled pattern's arms are the sorted aliases in order, or the single empty arm when there is no alias |
| Aliases.ExpandAliases | content.js:101-109 | the alias expansion of the keys; specified by `ExpandMembership` and `ExpandLength`: exactly the keys and the changed upper-case forms, one entry each |
| Aliases.SortByLength | content.js:112 | `sort((a, b) => b.length - a.length)`; specified by `SortByLengthCorrect`: a stable permutation with non-increasing lengths |
| Aliases.BuildAliases | content.js:101-109 | the push loop yields the alias expansion of the keys: each key, followed by its upper-case form when that differs |
| Aliases.ExpandMembership | content.js:101-109 | a string is in the alias list if and only if it is a key, or the upper-case form of a key that changes when upper-cased |
| Aliases.ExpandLength | content.js:101-109 | the alias list has one entry per key plus one per key whose upper-case form differs |
| Aliases.InsertInPlace | content.js:112 | one insertion step on the array inserts the element into the sorted prefix after all entries at least as long, and leaves the rest of the array alone |
| Aliases.SortInPlace | content.js:112 | sorting the array in place leaves it equal to the stable descending-length sort of its old contents |
| Aliases.SortPermutes | content.js:112 | the sorted list is a permutation of the input |
| Aliases.SortNonIncreasing | content.js:112 | the sorted list has non-increasing lengths |
| Aliases.SortStable | content.js:112 | for every length, the aliases of that length keep their original relative order |
| Aliases.SortByLengthCorrect | content.js:112 | the sort is a permutation, is ordered by non-increasing length, and is stable |
| Aliases.SortedMembership | content.js:112 | sorting neither adds nor drops an alias |
| Aliases.EveryAliasResolves | content.js:101-122 | when no amount is empty, every alias in the sorted list resolves to an amount |
| Aliases.FundingAliasesResolve | content.js:2-38 | with the script's own table, every alias resolves to an amount |
| Funding.AmountsNonEmpty | content.js:2-38 | no amount in the script's table is the empty string |
| Funding.Get | content.js:122 | a property lookup succeeds exactly for a key of the table and yields that key's amount |
| Funding.GetFirst | content.js:122 | the lookup yields the amount of the first entry with that key |
| Funding.FindUpperFirst | content.js:122 | `find` succeeds if and only if some key upper-cases to the match, and then yields the first such key in table order |
| Funding.FindUpper | content.js:122 | `Object.keys(FUNDING_DATA).find(...)`; specified by `FindUpperFirst`: the first key in table order whose upper-case form is the match, and nothing only when there is none |
| Funding.Resolve | content.js:122 | the amount lookup; its result is never the empty string, and `ResolveExact`, `ResolveUpper`, `ResolveUnknown` and `ResolveDefined` specify which amount it yields |
| Funding.GetUnique | content.js:122 | in a table whose keys are pairwise different, the lookup of any entry's key yields that entry's amount |
| Funding.ResolveExact | content.js:122 | a match that is a key with a non-empty amount resolves to that key's amount, whatever the upper-case path would give |
| Funding.ResolveUpper | content.js:122 | in a table with pairwise different keys, a match that is no key resolves through the first key whose upper-case form is the match, with empty amounts falsy |
| Funding.ResolveUnknown | content.js:122 | a match that is no key, and no key's upper-case form, resolves to nothing when the table has no `"undefined"` key |
| Funding.ResolveDefined | content.js:122 | with non-empty amounts, a key or the upper-case form of a key always resolves; without an `"undefined"` key only those resolve |
| Suffix.FormattedSuffix | content.js:84-98 | `getFormattedSuffix`; specified by `SuffixShape`, `SuffixRoundTrip`, `DefaultIsConcise` and `SuffixInjective`: the amount is read back from the suffix and the default template is the concise one |
| Suffix.SuffixShape | content.js:84-98 | every suffix is its style's opening, the amount and its closing; it starts with a space and the closing is not empty |
| Suffix.SuffixRoundTrip | content.js:84-98 | the amount can be read back out of the suffix for every style |
| Suffix.DefaultIsConcise | content.js:84-98 | any style other than `brackets`, `visual`, `minimalist` and `full` gets the concise template |
| Suffix.SuffixInjective | content.js:84-98 | different amounts give different suffixes under the same style |
| Matcher.MatchAt | content.js:114 | the pattern tried at one position, yielding one of the arms or nothing; specified by `FirstArmIsFirst` and `MatchAtSpec`: the first arm that fits between two boundaries, and with sorted arms the longest |
| Matcher.Matches | content.js:120 | the global search; specified by `MatchesIsScan`, `ScanIsMatches` and `MatchesWholeWord`: the unique leftmost, non-overlapping, left-to-right scan of whole-word hits |
| Matcher.FirstArmIsFirst | content.js:114 | the alternation yields the first arm, in order, that fits and is followed by a boundary, and nothing only when no arm does |
| Matcher.MatchAtSpec | content.js:114 | a match at a position is an arm with a boundary before and after it; with arms sorted by length it is the longest arm that fits there; there is no match exactly when the position is no boundary or no arm fits |
| Matcher.MatchesIsScan | content.js:120 | the global search yields a leftmost, non-overlapping, left-to-right scan: each hit is what the pattern matches at its start, and no skipped position has a match |
| Matcher.ScanIsMatches | content.js:120 | any such scan equals the global search's result, so the scan is unique |
| Matcher.HasMatchIff | content.js:119 | the global search from 0 finds a hit if and only if the pattern matches at some position |
| Matcher.MatchesWholeWord | content.js:112-120 | each hit is an alias occurring at its position with boundaries on both sides; with sorted aliases it is the longest alias that fits there; consecutive hits do not overlap and come in order |
| Annotator.AlreadyAnnotated | content.js:130 | the guard `test`; specified by `AnnotatedExact`: some position starts a unit amount followed by a non-line-terminator |
| Annotator.Replacement | content.js:121-134 | the callback; specified by `AnnotateGuarded`, `AnnotateUnresolved` and `SuffixRecognised`: the match alone when the guard holds or no amount resolves, otherwise the match and its suffix |
| Annotator.Annotate | content.js:119-135 | `text.replace(pattern, callback)`, leaving a text without hits as it is; specified by `ReplaceSplit`, `AnnotateGuarded`, `AnnotateUnresolved` and `AnnotateIdempotent`: the text between hits is copied and each hit is replaced by what the callback returns |
| Annotator.MatchesPlaced | content.js:120 | the hits of the global search lie inside the text, in order, each covering its own text |
| Annotator.ReplaceIdentity | content.js:120-135 | when no hit gets a suffix, the replacement gives back the text |
| Annotator.AnnotateGuarded | content.js:128-132 | a text the guard recognises is left exactly as it is |
| Annotator.AnnotateUnresolved | content.js:122-124 | a text none of whose hits resolves to an amount is left exactly as it is |
| Annotator.PlacedHit | content.js:120 | every hit of a placed sequence lies inside the text after the start position, covers its own text, and the later hits are placed after it |
| Annotator.PlacedPrefix | content.js:120 | the hits before any hit are placed in the text cut at that hit |
| Annotator.ReplaceSplit | content.js:120-135 | for each hit, the result is exactly the rewrite of the text before it with the earlier hits, what the callback returns for it, and the rewrite of the text after it with the later hits |
| Annotator.UnitAmountRecognised | content.js:130 | an amount in millions or billions followed by any character other than a line terminator is recognised by the guard |
| Annotator.SuffixRecognised | content.js:126-134 | a text holding a match followed by the suffix of an amount in millions or billions is recognised by the guard, for every style |
| Annotator.AnnotateIdempotent | content.js:120-135 | once a pass has appended the suffix of an amount in millions or billions, the result is recognised by the guard and a second pass changes nothing |
| Annotator.GuardExact | content.js:130 | the guard's core matches at a position if and only if a unit amount (digits, an optional `,digits`, `M€` or `Md€`) and one character that is not a line terminator start there |
| Annotator.GuardStartsWithAmount | content.js:130 | a guard match at a position yields the length of the unit amount it starts with, followed by a character that is not a line terminator |
| Annotator.AnnotatedHasAmount | content.js:130 | a text the guard recognises holds a unit amount followed by a character that is not a line terminator, at a position it yields |
| Annotator.AmountAnnotated | content.js:130 | a text holding a unit amount followed by a character that is not a line terminator is recognised by the guard |
| Annotator.AnnotatedExact | content.js:130 | the guard recognises a text if and only if some position of it starts a unit amount followed by a character that is not a line terminator |
| Annotator.StartsAnnotatedHasUnit | content.js:130 | a guard match always contains an `M` |
| Annotator.NoUnitNotAnnotated | content.js:130 | a text without an `M` is never recognised by the guard |
| Content.ReachedThroughChild | content.js:145 | a node below child `i` is reached from the parent exactly when the walk from child `i` reaches it |
| Content.ExcludedUntouched | content.js:141-145 | no node below a SCRIPT, STYLE, TEXTAREA, INPUT or NOSCRIPT element is reached by the walk |
| Content.ContentScript.constructor | content.js:101-114 | loading the script sets up the sorted aliases, the pattern built from them and the arms the pattern tries; the style starts as `concise` and nothing has run |
| Content.ContentScript.ProcessNode | content.js:116-147 | every text node the walk reaches gets the annotated text and is written to only when that text differs; every other node of the subtree keeps its value and write count |
| Content.ContentScript.Init | content.js:44-47 | the first call marks the script initialised and walks the body; a later call changes no node |
| Content.ContentScript.OnStyleLoaded | content.js:65-70 | a stored, non-empty style replaces the current one, then `init` runs with that style |
| Content.ContentScript.OnAddedNodes | content.js:50-56 | each added subtree is walked, and its nodes end as `processNode` leaves them |
| Examples.InsideWordIsNoHit | content.js:114 | `TF1` inside the word `TF1s` is not a hit |
| Examples.BeforePunctuationIsHit | content.js:114 | `Le Monde.` holds one hit, `Le Monde` at 0 |
| Examples.LongerAliasWins | content.js:112-114 | with the longer alias first, `Le Monde diplo` is one hit covering the whole text, not `Le Monde` |
| Examples.AnnotatedTextIsGuarded | content.js:130-132 | `TF1 (1M€)` is left unchanged even though `TF1` is a hit |
| Examples.ZeroAmountAnnotated | content.js:120-134 | with amount `0€`, `TF1` becomes `TF1 (0€)` |
| Examples.ZeroAmountAnnotatedAgain | content.js:130-134 | with amount `0€`, processing `TF1 (0€)` again appends a second suffix |

## Left out

- `popup.js`: its event handlers, class toggling and `chrome.storage.sync.set` calls are interface plumbing with no logic of their own.
- `chrome.storage.sync.get`: the read itself is not modelled. Its result is the `displayStyle` parameter of `OnStyleLoaded`, as a string or absent, with the empty string treated as falsy. Stored values that are not strings are not modelled.
- `chrome.storage.onChanged` and `location.reload()` (content.js:73-78): a reload discards all state, which is outside this model.
- The `MutationObserver` wiring (content.js:50-61): `OnAddedNodes` models only its callback. Batching of mutation records and the observer's own timing are not modelled.
- Content.ContentScript.OnAddedNodes: requires the added subtrees to be disjoint. The browser may list a node together with one of its ancestors, and that case is not covered.
- Content.ExcludedUntouched: requires the tree to span exactly its nodes (`Spans`). `ProcessNode` itself only needs `Valid`.
- Content.DomNode: node kinds and children are fixed. The walk never changes them, so the model keeps the structure but does not model script code that edits the tree during the walk.
- Chars.ToUpper: upper-cases only ASCII `a`-`z` and the Latin-1 letters U+00E0 to U+00FE except U+00F7. Letters whose upper-case form is longer (`ß`) or outside Latin-1 are left unchanged. The table's keys need nothing more.
- Strings are sequences of Unicode scalar values, not UTF-16 code units, so offsets into page text holding characters outside the Basic Multilingual Plane differ from JavaScript's. The hits do not: such a character and each of its surrogate halves are all non-word characters, and every alias lies in the Basic Multilingual Plane, so boundaries and hits are the same in both readings. The guard's `.` accepts the character or its first surrogate half alike, and every other part of the guard is made of Basic Multilingual Plane characters.
- `Object.keys` order: the table is a sequence in source order. JavaScript lists integer-like keys first, but the table has none.
- Funding.Resolve: a property read is modelled as a lookup among the table's own keys; inherited `Object.prototype` members (`constructor`, `toString`) are not modelled. When `find` fails, the code reads the key `"undefined"`. `Object.prototype` has no member of that name, so this reads a missing own key, and the model covers it as such. Every match is a key or the upper-case form of a key, and none of them names an `Object.prototype` member.
- Funding.UniqueKeys: not proved of the script's table, because comparing its 30 keys pairwise (435 literal string comparisons) exceeds the resource limit. An object literal cannot hold a key twice anyway: a repeated key keeps its last value.
- The character-encoding artefacts in the source literals (`Mâ‚¬` for `M€`, `ðŸ’°` for 💰) are read as the characters they were meant to be.
