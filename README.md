# zuzjs-core helpers, modelled in Dafny

This project models the pure and stateful helpers at the core of the
zuzjs-core TypeScript library, and proves properties of them:

- `natsort` (`src/index.ts`): the "natural order" comparator factory.
  It covers normalisation, the empty-value short-circuit, the NUL-marking
  tokenizer, per-token keys, the hexadecimal fast path and the
  token-by-token loop with early returns (`natsort.dfy`, module `NatSort`).
- The smaller helpers of `src/index.ts` (`helpers.dfy`, module `Helpers`):
  - `pluralize`, `clamp`, `camelCase`, `camelCaseToDash`, `ucfirst`;
  - the colour validators `isHexColor`, `isRgbaColor`, `isHslColor` and
    `isColor`;
  - `hexToRgba`, `removeDuplicates` and `checkPasswordStrength`.
- The three colour regular expressions of `src/regexps.ts`, written as
  character-level parsers with render/parse round trips (`regexps.dfy`,
  module `Regexps`).
- The `withGlobals` wrapper class of `src/withGlobals.ts` over a
  JavaScript value datatype (`globals.dfy`, module `Globals`). It has:
  - the predicates `isEmpty`, `isNumber` and `isObject`;
  - the deep `equals`;
  - the mutators `toLowerCase`, `ucfirst`, `formatString`, `camelCase` and
    `sort`, which rewrite the field `_` and return the wrapper.
- The shared text vocabulary that these use (`text.dfy`, module `Text`):
  - ASCII character classes and case mapping;
  - decimal and hexadecimal digit values;
  - white-space trimming;
  - the `split(/[^a-zA-Z0-9]+/)` word splitter.

Host facilities that the source calls but does not define are parameters
of the model:

- `Date.parse` and `localeCompare` in `natsort` are fields of a `Host`
  value.
- The collator of `withGlobals.sort` is a function parameter.
- The identity of the new object built by `sort` is a parameter.

The date pattern `dre` is defined by `natsort` itself (src/index.ts:295).
The model keeps one fact about it: every match contains a `:`, `/`, `-`
or `,`. Whether a text with such a character matches is a third field of
`Host`.

## Model

| member | source | states |
|---|---|---|
| Text.ToLowerChar | src/index.ts:301 | the result is never an upper-case letter, and lower-casing keeps a character alphanumeric, a digit or white space exactly when it was |
| Text.ToUpperChar | src/index.ts:44 | the result is never a lower-case letter and lower-cases to the same character as the input |
| Text.Lower | src/withGlobals.ts:66 | `toLowerCase` keeps the length and lower-cases each character in place |
| Text.LowerAppend | src/withGlobals.ts:66 | lower-casing distributes over concatenation |
| Text.LowerIdempotent | src/withGlobals.ts:65-68 | lower-casing twice equals lower-casing once |
| Text.UcFirst | src/index.ts:44 | same length; the first character is upper-cased and the rest is unchanged; empty stays empty |
| Text.UcFirstIdempotent | src/withGlobals.ts:150-153 | `ucfirst` twice equals `ucfirst` once |
| Text.LowerUcFirst | src/index.ts:416-426 | capitalising the first character is invisible after lower-casing |
| Text.HexValueAppend | src/index.ts:73 | appending hex digits shifts the value of the prefix by 16 per digit and adds the suffix's value |
| Text.HexValueBound | src/index.ts:73 | a run of k hex digits is worth less than 16^k |
| Text.NatToDecimal | src/index.ts:78 | the decimal text is non-empty, all digits, denotes n, and has a leading `0` only for n = 0 |
| Text.IntToDecimal | src/withGlobals.ts:66 | `String(n)` below 10^21 in magnitude: digits denoting n for n ≥ 0, otherwise `-` followed by the digits of -n |
| Text.DigitRun | src/withGlobals.ts:158 | the greedy `\d+` run: a digit prefix that is followed by a non-digit or the end |
| Text.HexRun | src/index.ts:73 | the longest hex-digit prefix, as `parseInt(_, 16)` reads it |
| Text.IsSpace | src/index.ts:286-287 | definition: `\s`, the ECMAScript white-space and line-terminator code points |
| Text.SpaceRun | src/regexps.ts:6 | the greedy `\s*` run: white space followed by non-space or the end |
| Text.TrimStart | src/index.ts:287 | the result is the input after its leading white-space run (`SpaceRun`): every dropped character is white space, and the first kept one is not |
| Text.TrimEnd | src/index.ts:287 | the result is a prefix of the input: every dropped character is white space, and the result does not end with white space |
| Text.Trim | src/index.ts:287 | definition: `TrimEnd` after `TrimStart`, never longer than the input |
| Text.TrimShape | src/index.ts:287 | `replace(/^\s+\|\s+$/g, '')`: the result is the slice of the input that starts after its leading white-space run and is followed by white space only; it neither starts nor ends with white space |
| Text.CollapseSpaces | src/index.ts:314 | `replace(/\s+/g, ' ')`: never longer than the input; `CollapseShape` states what is left |
| Text.CollapseShape | src/index.ts:314 | the result is empty only for empty input, starts with white space exactly when the input does, holds no white space but blanks, and never two white-space characters side by side |
| Text.TrimLowerNoUpper | src/index.ts:301 | trimming a lower-cased text leaves no upper-case letter |
| Text.StrLessIrreflexive | src/index.ts:403-408 | no string is `<` itself |
| Text.StrLessAsymmetric | src/index.ts:403-408 | `a < b` and `b < a` never hold together |
| Text.StrLess | src/index.ts:403-408 | definition: `<` on strings, lexicographic by character code, a proper prefix first; irreflexive and asymmetric by the two lemmas above |
| Text.SeparatorRun | src/index.ts:419 | the greedy `[^a-zA-Z0-9]+` run, followed by an alphanumeric or the end |
| Text.SplitWords | src/index.ts:419 | `split(/[^a-zA-Z0-9]+/)` yields at least one word |
| Text.SplitWordsConcat | src/index.ts:419 | the words concatenate to exactly the alphanumeric characters of the input, in order |
| Text.SplitWordsAlnum | src/index.ts:419 | every word is alphanumeric |
| Text.SeparatorRunOf | src/index.ts:419 | a separator run followed by an alphanumeric or the end is matched whole |
| Text.SplitWordsBoundary | src/index.ts:419 | a word, then a non-empty separator run, then a rest that is empty or starts with an alphanumeric, split into the word followed by the words of the rest |
| Text.SplitWordsWord | src/index.ts:419 | text without separators is a single word |
| Text.KeepAlnum | src/index.ts:419 | only alphanumeric characters are kept |
| Text.JoinCapitalised | src/index.ts:423-425 | definition: every word with its first character upper-cased, joined |
| Text.CamelJoin | src/index.ts:420-425 | definition: the first word (capitalised when `ucf`), then the later words capitalised, joined |
| Text.CamelJoinCons | src/index.ts:420-425 | the join of a first word and further words is that word (capitalised when `ucf`) followed by each further word capitalised |
| Text.JoinCapitalisedLower | src/index.ts:420-425 | capitalising later words changes nothing once lower-cased |
| Text.JoinCapitalisedAlnum | src/index.ts:420-425 | joining alphanumeric words gives an alphanumeric string |
| Text.CamelJoinProperties | src/index.ts:416-426 | the joined text lower-cases to the lower-cased words; it starts with the first word (capitalised when `ucf`); it is alphanumeric when the words are |
| Regexps.HexColorExamples | src/regexps.ts:3 | `fff` and `FfA0b9` are accepted; `#fff`, `ffff` and `ggg` are rejected |
| Regexps.IsHexColor | src/regexps.ts:3 | definition: the whole text is exactly three or exactly six hexadecimal digits, without `#` |
| Regexps.SplitSpace | src/regexps.ts:6 | splits off a maximal white-space prefix; the parts concatenate back |
| Regexps.SplitDigits | src/regexps.ts:6 | splits off a maximal digit prefix; the parts concatenate back |
| Regexps.SpaceRunOf | src/regexps.ts:6 | white space followed by a non-space has exactly its own length as its run |
| Text.DigitRunOf | src/regexps.ts:6 | digits followed by a non-digit have exactly their own length as their run |
| Regexps.ParseField | src/regexps.ts:6 | `\s*(\d{1,3})unit\s*` parses a well-formed field whose rendering is the consumed text |
| Regexps.FieldRoundTrip | src/regexps.ts:6 | every well-formed field, with any stopping rest, parses back to itself and that rest |
| Regexps.ParseAlpha | src/regexps.ts:6 | `0\|1\|0?\.\d+` parses a well-formed alpha whose text is the consumed prefix |
| Regexps.ParseFraction | src/regexps.ts:6 | the `\.\d+` part of an alpha parses to a fraction whose text is consumed |
| Regexps.ParseAlphaGroup | src/regexps.ts:6 | the optional fourth component parses to a group whose rendering is consumed |
| Regexps.AlphaRoundTrip | src/regexps.ts:6 | every well-formed alpha parses back to itself |
| Regexps.FractionRoundTrip | src/regexps.ts:6 | every digit run after the point parses back to that fraction |
| Regexps.AlphaGroupRoundTrip | src/regexps.ts:6 | every well-formed alpha group parses back to itself |
| Regexps.ParseCommaField | src/regexps.ts:6-8 | `,` then a field, with the consumed text equal to its rendering |
| Regexps.CommaFieldRoundTrip | src/regexps.ts:6-8 | a rendered `,field` parses back to the field |
| Regexps.ParseFields | src/regexps.ts:6-8 | three comma-separated fields with the given units; the consumed text is their rendering |
| Regexps.FieldsRoundTrip | src/regexps.ts:6-8 | three rendered fields parse back to themselves |
| Regexps.ParseRgbHead | src/regexps.ts:6 | `rgba?\(`: the text starts with `rgb(` or `rgba(` |
| Regexps.RgbHeadRoundTrip | src/regexps.ts:6 | both heads parse back, with the body following them |
| Regexps.ParseRgbaTail | src/regexps.ts:6 | the tail is `)` or `,` alpha group `)` |
| Regexps.RgbaTailRoundTrip | src/regexps.ts:6 | every rendered tail parses back to the same optional alpha |
| Regexps.ParseRgba | src/regexps.ts:6 | soundness: every accepted string is the rendering of well-formed rgb/rgba parts |
| Regexps.IsRgbaColor | src/regexps.ts:6 | definition: `ParseRgba` accepts the whole text, so soundness and completeness carry over |
| Regexps.RgbaComplete | src/regexps.ts:6 | completeness: every rendering of well-formed parts is accepted and parsed back to those parts |
| Regexps.RgbaAcceptsOutOfRange | src/regexps.ts:6 | `rgb(999,999,999)` is accepted: there is no range check |
| Regexps.RgbaWithoutAlpha | src/regexps.ts:6 | `rgba(1, 2, 3)` is accepted: `rgba` may omit the alpha |
| Regexps.RgbWithAlpha | src/regexps.ts:6 | `rgb(1,2,3,0.5)` is accepted: `rgb` may carry an alpha |
| Regexps.RgbaBareFraction | src/regexps.ts:6 | `rgba(255,255,255,.5)` is accepted |
| Regexps.RgbaRejectsOnePoint | src/regexps.ts:6 | an alpha written `1.` followed by anything (so `1.0`) is rejected |
| Regexps.TailOneThenPoint | src/regexps.ts:6 | a tail `,1.` cannot be completed |
| Regexps.ParseHsl | src/regexps.ts:8 | soundness: every accepted string is the rendering of well-formed hsl parts |
| Regexps.IsHslColor | src/regexps.ts:8 | definition: `ParseHsl` accepts the whole text, so soundness and completeness carry over |
| Regexps.HslComplete | src/regexps.ts:8 | completeness: every rendering of well-formed hsl parts is accepted and parsed back |
| Regexps.HslAcceptsOutOfRange | src/regexps.ts:8 | `hsl(999, 999%, 999%)` is accepted |
| Regexps.HslRejectsHsla | src/regexps.ts:8 | `hsla(1, 2%, 3%)` is rejected |
| Regexps.HslRejectsTail | src/regexps.ts:8 | after the three fields, only `)` is accepted |
| Regexps.HslRejectsAlpha | src/regexps.ts:8 | `hsl(1,2%,3%,0.5)` is rejected: there is no alpha |
| NatSort.Greater | src/index.ts:297-298 | GREATER is 1 or -1, and -1 exactly when the direction is `Desc` |
| NatSort.Smaller | src/index.ts:298 | definition: SMALLER is the negation of GREATER |
| NatSort.CaseSensitive | src/index.ts:300 | definition: the comparison keeps case only when `caseSensitive` is set to true |
| NatSort.Normalize | src/index.ts:300-302 | the normal form is `Trim` of the string form, lower-cased unless case-sensitive, so only surrounding white space is dropped; it neither starts nor ends with white space; when case-insensitive it has no upper-case letter |
| NatSort.Folded | src/index.ts:300-302 | definition: the string form, lower-cased unless case-sensitive |
| NatSort.StringOf | src/index.ts:301-302 | definition: `s.toString()` / `${s}` of a string or an integer argument |
| NatSort.HexMatch | src/index.ts:293 | a `0x` hex literal at the front: `0x` then hex digits up to a non-hex character |
| NatSort.LeadMatch | src/index.ts:293 | the anchored leading numeric literal starts, after its sign, with a digit |
| NatSort.ExponentLen | src/index.ts:293 | the exponent `[eE][+\-]?\d+` of the anchored literal is never longer than the text, and is 0 when absent |
| NatSort.MatchLen | src/index.ts:293 | a numeric match starts with a digit, or with a sign at the start; an all-digit rest is matched whole |
| NatSort.Mark | src/index.ts:305 | definition: each numeric literal found by the left-to-right scan is wrapped in NULs; `MarkKeepsText` and `MarkNoDigit` state what is kept |
| NatSort.DropLastNul | src/index.ts:306 | a final NUL is removed, and the text is kept when it does not end with NUL |
| NatSort.DropFirstNul | src/index.ts:307 | a leading NUL is removed, and the text is kept when it does not start with NUL |
| NatSort.NulFreeRun | src/index.ts:308 | the NUL-free prefix is followed by a NUL or the end |
| NatSort.Split | src/index.ts:308 | `split('\0')` yields at least one piece, and no piece holds a NUL |
| NatSort.Tokenize | src/index.ts:304-309 | the tokenizer yields at least one token |
| NatSort.MarkKeepsText | src/index.ts:305 | NUL-marking the numeric matches only inserts NULs |
| NatSort.MarkNoDigit | src/index.ts:305 | text without digits is not marked |
| NatSort.SplitConcat | src/index.ts:308 | the pieces of a split concatenate to the text without its NULs |
| NatSort.DropEndsKeepText | src/index.ts:306-307 | dropping one NUL at either end keeps the non-NUL text |
| NatSort.TokensConcat | src/index.ts:304-309 | for NUL-free input, the tokens concatenate back to the input |
| NatSort.TokensNoDigit | src/index.ts:304-309 | NUL-free input without digits is exactly one token, itself |
| NatSort.IntegerPart | src/index.ts:313 | `parseFloat` reads a number exactly when an optional sign is followed by a digit |
| NatSort.JsNumber | src/index.ts:313 | text without digits never reads as a number |
| NatSort.ParseFloat | src/index.ts:313 | definition: `parseFloat` is the integer part of the leading literal, as `IntegerPart` states |
| NatSort.IsHexLiteral | src/index.ts:291 | definition: `0x` or `0X`, then at least one hexadecimal digit of either case, to the end of the text |
| NatSort.IsNaN | src/index.ts:375 | definition: the key is text that `Number` cannot read |
| NatSort.Less | src/index.ts:395-401 | definition: `<` on two numbers or two strings as such; a number against a string by the string's numeric value, false when it is NaN |
| NatSort.StrForm | src/index.ts:403-408 | definition: `${af}`, a number key in decimal and a text key as itself |
| NatSort.HasHigh | src/index.ts:289 | definition: `ure`, some character beyond U+0080 |
| NatSort.LocaleBranch | src/index.ts:379 | definition: the first key is text and the two texts hold a character above U+0080 |
| NatSort.DateShape | src/index.ts:295 | definition: `bb.match(dre)` needs a `:`, `/`, `-` or `,` in the text; beyond that the host field decides |
| NatSort.ParseToken | src/index.ts:311-316 | `_parse`'s precedence in full: a token that may be numeric (not led by `0`, or the only token) and whose `parseFloat` is a non-zero number keys as that number; otherwise the key is text or 0; a text key is the non-empty, space-collapsed, trimmed token; the key 0 only when that text is empty, as for the empty token |
| NatSort.FastPath | src/index.ts:342-350 | the hex/date fast path applies only when the second value is non-zero |
| NatSort.Keys | src/index.ts:372-373 | one key per token |
| NatSort.KeyAt | src/index.ts:372-373 | definition: past the last token the key is that of `''`, the number 0 |
| NatSort.TokenAt | src/index.ts:372-373 | definition: `aArr[i] \|\| ''`, the empty token past the end |
| NatSort.Verdicts | src/index.ts:370 | one step per index up to the longer token list |
| NatSort.Judge | src/index.ts:375-409 | definition: the loop body's verdict on two keys — NaN test, locale branch, `<`, `>`, then the string forms; `JudgeSameKey` and `Step` state its properties |
| NatSort.LoopFrom | src/index.ts:370-412 | the loop returns 0, GREATER or SMALLER |
| NatSort.CompareNormal | src/index.ts:326-412 | the comparison of normalised texts returns 0, GREATER or SMALLER |
| NatSort.NatCompare | src/index.ts:318-413 | every result is 0, GREATER or SMALLER |
| NatSort.Compare | src/index.ts:318-413 | the imperative comparator returns exactly `NatCompare` |
| NatSort.TokenLoop | src/index.ts:366-412 | the `for` loop with early returns computes `LoopFrom` over the per-index verdicts |
| NatSort.VerdictAt | src/index.ts:372-373 | the i-th verdict judges the i-th keys, a missing token being keyed as the empty token |
| NatSort.Step | src/index.ts:375-409 | the loop body returns exactly when the verdict is decided, and returns that verdict's value |
| NatSort.EmptyValues | src/index.ts:326-336 | both empty gives 0; only `a` empty gives SMALLER; only `b` empty gives GREATER |
| NatSort.LoopNegates | src/index.ts:370-412 | the loop's result negates when GREATER is negated |
| NatSort.CompareNormalNegates | src/index.ts:326-412 | control flow does not depend on direction: flipping GREATER negates the result |
| NatSort.DescNegatesAsc | src/index.ts:297-298 | the `Desc` comparator is the negation of the `Asc` one for the same inputs and case setting |
| NatSort.MissingDirectionIsAsc | src/index.ts:297 | an absent direction behaves as `Asc` |
| NatSort.JudgeSameKey | src/index.ts:375-409 | equal keys never decide the order |
| NatSort.LoopQuiet | src/index.ts:370-412 | a loop over undecided or equal steps returns 0 |
| NatSort.CompareNormalSame | src/index.ts:341-412 | a normalised text compares as 0 with itself |
| NatSort.EqualNormalForms | src/index.ts:300-302 | inputs with equal normal forms compare as 0 |
| NatSort.CaseAndBlanksIgnored | src/index.ts:300-302 | when case-insensitive, a capitalised word and the same word padded with blanks compare as 0 |
| NatSort.AppleMatchesSpacedApple | src/index.ts:300-302 | `"Apple"` and `" apple "` compare as 0 when case-insensitive |
| NatSort.DigitTokenKey | src/index.ts:311-316 | a digit token not led by `0` keys as its value; a zero-led one stays text in a multi-token value |
| NatSort.SignedFloat | src/index.ts:313 | `parseFloat` of a sign followed by digits is the signed value of the digits |
| NatSort.SignedTokenKey | src/index.ts:311-316 | a signed digit token with a non-zero value, such as `-5`, keys as its signed value whatever the token count |
| NatSort.TokensWordNumber | src/index.ts:304-309 | a word followed by digits tokenizes as [word, digits] |
| NatSort.TokensNumber | src/index.ts:304-309 | a digit run is one token |
| NatSort.WordKey | src/index.ts:311-316 | a lower-case word keys as text (NaN-like) without non-ASCII characters |
| NatSort.WordNumberKeys | src/index.ts:304-316 | word plus numeral keys as [text, number] |
| NatSort.WordNumberOrder | src/index.ts:370-401 | `w` + m sorts before `w` + n when 1 ≤ m < n, whatever the host's `Date.parse` returns |
| NatSort.WordBeforeNumbered | src/index.ts:370-401 | a word sorts before the same word with a number appended: the missing token is keyed as 0 |
| NatSort.ItemExamples | src/index.ts:280-414 | `item2` < `item10` and `item` < `item2`, for any host |
| NatSort.LoopNumberWord | src/index.ts:375-377 | a number key before a text key decides SMALLER; the reverse decides GREATER |
| NatSort.NumbersBeforeWords | src/index.ts:375-377 | a positive number below 10^21 sorts before a word and a word after it |
| NatSort.NumberNormalForm | src/index.ts:301 | a positive number below 10^21 normalises to its decimal text |
| NatSort.HexFastPath | src/index.ts:342-362 | two hex literals are ordered by base-16 value, equal values give 0, and a second value of 0 skips to the loop |
| NatSort.CompareHex | src/index.ts:342-362 | the hex fast path on normalised texts, with the same three cases |
| NatSort.HexExample | src/index.ts:342-362 | `0x1F` sorts before `0x20` when case-insensitive |
| Helpers.Pluralize | src/index.ts:50 | the word, with `s` appended exactly when the count is not 1 |
| Helpers.Clamp | src/index.ts:430-432 | the result is at most max; within [min, max] when min ≤ max; it is the value when in range, else the nearer bound; when max < min it is max |
| Helpers.ClampIdempotent | src/index.ts:430-432 | clamping twice equals clamping once, for every value and bounds, `max < min` included |
| Helpers.KeepAlnumLower | src/index.ts:416-419 | lower-casing and keeping alphanumerics commute |
| Helpers.CamelCaseKeepsAlnum | src/index.ts:416-426 | `camelCase` yields only `[A-Za-z0-9]`, and lower-cases to the lower-cased alphanumerics of the input |
| Helpers.CamelCaseFirstWord | src/index.ts:416-426 | the result starts with the first lower-cased word, capitalised when `ucf` |
| Helpers.CamelCase | src/index.ts:416-426 | definition: the words of the lower-cased text, joined camel-case |
| Helpers.CamelCaseBoundary | src/index.ts:416-426 | at a separator run after a word: the word lower-cased (capitalised when `ucf`), then each word of the rest lower-cased and capitalised |
| Helpers.CamelCaseTwoWords | src/index.ts:416-426 | two words around a separator run give the first lower-cased (capitalised when `ucf`) followed by the second lower-cased and capitalised |
| Helpers.CamelCaseToDash | src/index.ts:428 | the result has no upper-case letter |
| Helpers.DashBoundaries | src/index.ts:428 | definition: a left-to-right scan putting `-` inside each non-overlapping lower-then-upper pair |
| Helpers.DashBoundariesAppend | src/index.ts:428 | before a character that is not upper-case the scan restarts cleanly: the two parts are dashed independently |
| Helpers.CamelCaseToDashBoundary | src/index.ts:428 | a lower-then-upper pair becomes the lower-cased pair with `-` between, and the text on either side is dash-cased independently |
| Helpers.UndashAppend | src/index.ts:428 | removing dashes distributes over concatenation |
| Helpers.DashBoundariesUndash | src/index.ts:428 | inserting dashes at lower/upper boundaries only adds dashes |
| Helpers.NoBoundaryUnchanged | src/index.ts:428 | without a lower/upper boundary nothing is inserted |
| Helpers.UndashLower | src/index.ts:428 | removing dashes and lower-casing commute |
| Helpers.CamelCaseToDashProperties | src/index.ts:428 | without its dashes the result is the lower-cased input without dashes; with no boundary it is just the lower-cased input |
| Helpers.ColorKindsDisjoint | src/index.ts:52-61 | no string is accepted by two of the three colour recognisers |
| Helpers.RgbaStartsWithR | src/index.ts:54 | every rgba colour starts with `r` |
| Helpers.HslStartsWithH | src/index.ts:56 | every hsl colour starts with `h` |
| Helpers.IsColor | src/index.ts:61 | definition: a hex, rgba or hsl colour; at most one of them by `ColorKindsDisjoint` |
| Helpers.StripHash | src/index.ts:65 | `replace(/^#/, '')` removes one leading `#` and nothing else |
| Helpers.Doubled | src/index.ts:69 | each character is doubled, so the length doubles |
| Helpers.Expand | src/index.ts:68-70 | definition: a three-character text has each character doubled; other lengths are kept |
| Helpers.ParseInt16 | src/index.ts:73 | `parseInt(_, 16)` of text starting with a hex digit is non-negative |
| Helpers.DigitsAfterPrefix | src/index.ts:73 | definition: what `parseInt(_, 16)` reads digits from, after one optional sign and an optional `0x`/`0X` |
| Helpers.PlainHexDigits | src/index.ts:73 | a hex-digit string has no white space, sign or `0x` prefix for `parseInt` to skip |
| Helpers.ParseInt16Digits | src/index.ts:73 | a non-empty hex-digit string parses to its base-16 value |
| Helpers.Int32Bits | src/index.ts:74-76 | the 32-bit view of the parsed value is below 2^32 (NaN gives 0) |
| Helpers.Channels | src/index.ts:74-76 | `>> 16 & 255`, `>> 8 & 255` and `& 255` give three bytes |
| Helpers.HexChannels | src/index.ts:65-76 | definition: strip `#`, expand, `parseInt(_, 16)`, 32-bit view, three bytes; the channel lemmas below give its values |
| Helpers.RgbaString | src/index.ts:78 | definition: `rgba(r, g, b, alpha)` with decimal channels |
| Helpers.BytesOf | src/index.ts:74-76 | the channels of a*65536 + b*256 + c are (a, b, c) |
| Helpers.HexToRgba | src/index.ts:63-79 | the imperative conversion yields `rgba(r, g, b, alpha)` with the channels of the hex text |
| Helpers.SixDigitChannels | src/index.ts:63-79 | for `RRGGBB` or `#RRGGBB`, each channel is the value of its two-digit slice |
| Helpers.ThreeDigitChannels | src/index.ts:63-79 | for `RGB` or `#RGB`, each channel is 17 times its digit |
| Helpers.NoDigitsIsBlack | src/index.ts:73-76 | text that `parseInt` cannot read gives black (NaN becomes 0) |
| Helpers.HexToRgbaIsRgbaColor | src/index.ts:63-79 | the output of `hexToRgba` with a well-formed alpha is accepted by `isRgbaColor` |
| Helpers.FirstIndex | src/index.ts:83 | the first position of an element: it is there, and not earlier |
| Helpers.FirstIndexBelow | src/index.ts:83 | an element occurs before k exactly when its first position is below k |
| Helpers.RemoveDuplicates | src/index.ts:81-88 | the output has no repeats, holds exactly the input's elements, and keeps first-occurrence order; the input array is not modified |
| Helpers.Contains | src/index.ts:489-507 | definition: the four `.test(password)` calls as a scan for one character of the class |
| Helpers.ContainsSome | src/index.ts:489-510 | a password contains a class exactly when some character is in it |
| Helpers.Meets | src/index.ts:483-507 | definition: the five criteria in source order: at least 8 characters, then a lower-case letter, an upper-case letter, a digit and a character outside `[A-Za-z0-9]` |
| Helpers.Advice | src/index.ts:486-510 | definition: the suggestion text pushed when each criterion fails |
| Helpers.Score | src/index.ts:480-511 | the score is at most 5 |
| Helpers.Suggestions | src/index.ts:480-511 | score plus number of suggestions is 5 |
| Helpers.AdviceDistinct | src/index.ts:480-511 | the five advice messages are distinct |
| Helpers.MissOther | src/index.ts:480-511 | a criterion's step never adds another criterion's advice |
| Helpers.SuggestionsAdvice | src/index.ts:480-511 | a criterion's advice is suggested exactly when the criterion is not met |
| Helpers.EveryAdvice | src/index.ts:480-511 | the same, for all five criteria at once |
| Helpers.Tally | src/index.ts:480-511 | one criterion step: the score grows by its point and the suggestions by its advice when it is missed |
| Helpers.Label | src/index.ts:515 | definition: Weak up to 2, Moderate at 3, Strong at 4, Excellent otherwise |
| Helpers.CheckPasswordStrength | src/index.ts:475-517 | the score is in 0..5; score + suggestions = 5; advice appears iff its criterion fails; the label is Weak (≤2), Moderate (3), Strong (4) or Excellent (5) |
| Globals.KeyIndex | src/withGlobals.ts:116 | the position of the first entry with the key, or -1 exactly when no entry has it |
| Globals.TypeofObject | src/withGlobals.ts:88-89 | definition: `typeof v === 'object'` holds for null, arrays and plain objects |
| Globals.StrictEq | src/withGlobals.ts:83-85 | definition: `===`, primitives by value and arrays, objects and functions by reference |
| Globals.DeepEq | src/withGlobals.ts:81-125 | definition: `deepEqual`; `ArraysEqual` and `ObjectsEqual` characterise it |
| Globals.Equal | src/withGlobals.ts:132-141 | definition: `equals`, deep for two arrays or two plain objects and `===` otherwise |
| Globals.KeyList | src/withGlobals.ts:108-109 | `Object.keys` lists the keys of the entries in order |
| Globals.Get | src/withGlobals.ts:116 | definition: `obj[key]`, the value of the first entry with that key, `undefined` when there is none |
| Globals.DeepEqual | src/withGlobals.ts:81-125 | the imperative `deepEqual` computes `DeepEq` |
| Globals.ArraysDeepEqual | src/withGlobals.ts:94-104 | the array branch, with its length test and early-return loop, computes `DeepEq` |
| Globals.ObjectsDeepEqual | src/withGlobals.ts:107-121 | the object branch, with its key count and early-return loop over keys, computes `DeepEq` |
| Globals.EqualIsDeepEq | src/withGlobals.ts:132-141 | the dispatch in `equals` agrees with `deepEqual` on every pair |
| Globals.ArraysEqual | src/withGlobals.ts:94-104 | arrays are equal iff they are the same array, or have the same length and pairwise equal elements |
| Globals.ArrayIsNotObject | src/withGlobals.ts:123-141 | an array never equals a plain object, in either order |
| Globals.KeySetHasKey | src/withGlobals.ts:116 | a key is in the key set exactly when it is found |
| Globals.KeySetSize | src/withGlobals.ts:111 | with distinct keys, the key set has as many keys as entries |
| Globals.ObjectsDeepEq | src/withGlobals.ts:107-121 | two distinct objects are deeply equal iff equal key counts, every key of the first found in the second, and equal values |
| Globals.CoversSameKeys | src/withGlobals.ts:111-116 | equal counts and containment of keys is the same as equal key sets |
| Globals.ObjectsEqual | src/withGlobals.ts:107-137 | plain objects are equal iff the same object, or the same key set (in any order) with equal values under each key |
| Globals.StringOf | src/withGlobals.ts:66 | definition: `String(v)`, with arrays joined by `,` and `undefined`/`null` elements empty |
| Globals.JoinFrom | src/withGlobals.ts:54 | definition: `Array.prototype.join(',')` from an element on, `undefined` and `null` elements empty |
| Globals.IsEmptyValue | src/withGlobals.ts:51-55 | definition: `isEmpty` of a value; `EmptyValues` characterises it |
| Globals.IsObjectValue | src/withGlobals.ts:128 | definition: `typeof v === 'object'`, not null, not an array |
| Globals.EmptyValues | src/withGlobals.ts:51-55 | empty exactly for `""`, `[]`, `{}` and a function with no source; `null` and `undefined` are not empty |
| Globals.ObjectsOnly | src/withGlobals.ts:47-49 | `isObject` holds exactly for plain objects |
| Globals.SignLength | src/withGlobals.ts:44 | the optional sign is at most the text's length |
| Globals.UnsignedNumber | src/withGlobals.ts:44 | definition: `\d+(\.\d+)?` matching the whole text |
| Globals.NumberText | src/withGlobals.ts:44 | definition: the text matches `^[+-]?\d+(\.\d+)?$` |
| Globals.IsNumberValue | src/withGlobals.ts:43-45 | definition: the string form of the value matches the number pattern |
| Globals.UnsignedAccepts | src/withGlobals.ts:44 | digits with an optional `.digits` fraction match `\d+(\.\d+)?` |
| Globals.NumberTextAccepts | src/withGlobals.ts:43-45 | an optional sign, at least one digit, and an optional `.` plus digits are accepted |
| Globals.UnsignedParts | src/withGlobals.ts:44 | every accepted unsigned text is digits with an optional fraction |
| Globals.NumberTextParts | src/withGlobals.ts:43-45 | every accepted text is a sign, at least one digit, and an optional `.` plus digits |
| Globals.IntegersAreNumbers | src/withGlobals.ts:43-45 | every integer below 10^21 in magnitude passes `isNumber` |
| Globals.NumberRejects | src/withGlobals.ts:43-45 | `1.`, `.5` and `1e5` are rejected |
| Globals.Usable | src/withGlobals.ts:158 | definition: a value whose `?.toString()` is a non-empty string, so the `\|\|` keeps it |
| Globals.Replacement | src/withGlobals.ts:158 | definition: `values[Number(index)]?.toString()`, or `%index` when that value is missing or its text is empty |
| Globals.Format | src/withGlobals.ts:158 | definition: the global `replace` of `%(\d+)`, scanning left to right |
| Globals.FormatKeepsPlaceholders | src/withGlobals.ts:158 | when no value is usable, every `%N` is kept as written |
| Globals.FormatPlainPrefix | src/withGlobals.ts:158 | text without `%` passes through unchanged |
| Globals.PlaceholderAt | src/withGlobals.ts:158 | a `%` with its greedy digit run is replaced by its replacement, and the scan resumes after it |
| Globals.FormatSubstitutes | src/withGlobals.ts:155-160 | `%k`, with k in range and a usable value, becomes `String(values[k])` |
| Globals.CamelCasedProperties | src/withGlobals.ts:162-172 | the result is alphanumeric, lower-cases to the lower-cased alphanumerics, and starts with the first word as written |
| Globals.CamelCased | src/withGlobals.ts:163-171 | definition: the words of the text, joined with every word but the first capitalised, with no lower-casing |
| Globals.CamelCasedBoundary | src/withGlobals.ts:163-171 | at a separator run after a word: the word as written, then each word of the rest capitalised |
| Globals.CamelCasedTwoWords | src/withGlobals.ts:163-171 | two words around a separator run give the first as written followed by the second capitalised |
| Globals.Compare | src/withGlobals.ts:188-191 | definition: `a.localeCompare(b)`, arguments swapped for `desc` |
| Globals.Insert | src/withGlobals.ts:187-192 | insertion adds exactly one occurrence of the key |
| Globals.SortKeys | src/withGlobals.ts:187-192 | the sorted keys are a permutation of the keys |
| Globals.CompareFlip | src/withGlobals.ts:188-191 | with a consistent collator, swapping the arguments flips the sign in either order |
| Globals.CompareTrans | src/withGlobals.ts:188-191 | with a consistent collator, the order is transitive in either direction |
| Globals.ConsSorted | src/withGlobals.ts:187-192 | a key no greater than every element of a sorted list extends it sorted |
| Globals.InsertedFrom | src/withGlobals.ts:187-192 | every element after insertion is the key or came from the list |
| Globals.InsertSorted | src/withGlobals.ts:187-192 | inserting into a sorted list keeps it sorted |
| Globals.SortKeysSorted | src/withGlobals.ts:187-192 | the keys come out sorted by the collator, reversed for `desc` |
| Globals.Ties | src/withGlobals.ts:187-192 | definition: the keys that compare equal to a given key, in their order |
| Globals.SortKeysStable | src/withGlobals.ts:187-192 | the sort is stable: the keys that compare equal to any key come out in their `Object.keys` order |
| Globals.InsertTies | src/withGlobals.ts:187-192 | inserting a key puts it after every key that compares equal to it |
| Globals.Put | src/withGlobals.ts:196 | definition: `out[key] = v` overwrites the entry with that key or appends a new one |
| Globals.KeyIndexAt | src/withGlobals.ts:116 | the first entry carrying a key is where the lookup finds it |
| Globals.PutGet | src/withGlobals.ts:196 | after `out[key] = v` the key reads `v` and every other key reads as before |
| Globals.Rebuild | src/withGlobals.ts:194-197 | definition: the object the copy loop builds from `{}` |
| Globals.RebuildStep | src/withGlobals.ts:195-196 | one turn of the copy loop puts the next key with its old value |
| Globals.RebuildEntries | src/withGlobals.ts:194-197 | the rebuilt object has one entry per key, in key order, with the old value |
| Globals.CountInDistinct | src/withGlobals.ts:187 | in a list of distinct keys each key occurs at most once |
| Globals.RepeatCounts | src/withGlobals.ts:187 | a repeated key occurs at least twice |
| Globals.PermutationDistinct | src/withGlobals.ts:187 | a permutation of distinct keys is distinct |
| Globals.KeyListDistinct | src/withGlobals.ts:187 | the keys of an object are distinct |
| Globals.RebuildKeys | src/withGlobals.ts:194-197 | the rebuilt object has exactly the given keys, in order, and they are distinct |
| Globals.RebuildGet | src/withGlobals.ts:194-197 | rebuilding from a permutation of the keys keeps every key's value |
| Globals.SortKeepsEntries | src/withGlobals.ts:180-201 | the sorted object has the sorted keys, a permutation of the old ones, and the same key-to-value pairs |
| Globals.WithGlobals.constructor | src/withGlobals.ts:7-9 | the wrapper holds the given value |
| Globals.WithGlobals.Value | src/withGlobals.ts:203 | `value()` returns the held value |
| Globals.WithGlobals.IsEmpty | src/withGlobals.ts:51-55 | `isEmpty()` holds exactly for `""`, `[]`, `{}` and a function with no source text |
| Globals.WithGlobals.IsNumber | src/withGlobals.ts:43-45 | `isNumber()` on a string is the number pattern; every integer below 10^21 in magnitude passes |
| Globals.WithGlobals.IsObject | src/withGlobals.ts:47-49 | `isObject()` holds exactly for plain objects |
| Globals.WithGlobals.Equals | src/withGlobals.ts:75-142 | `equals` returns exactly `Equal` of the held value and the argument |
| Globals.WithGlobals.ToLowerCase | src/withGlobals.ts:65-68 | the field becomes the lower-cased string form of the old value; the wrapper is returned |
| Globals.WithGlobals.Ucfirst | src/withGlobals.ts:150-153 | a string gets its first character upper-cased; other values are kept; the wrapper is returned |
| Globals.WithGlobals.FormatString | src/withGlobals.ts:155-160 | a non-string is first reset to `""`; then the placeholders are replaced from `[v] + vv` |
| Globals.WithGlobals.CamelCase | src/withGlobals.ts:162-172 | a string is camel-cased without lower-casing; other values are kept |
| Globals.WithGlobals.Sort | src/withGlobals.ts:180-201 | a non-object is kept; an object is replaced by a new object holding its entries in sorted-key order |
| Globals.ToLowerCaseIdempotent | src/withGlobals.ts:65-68 | `toLowerCase` twice equals `toLowerCase` once |

## Left out

- Numbers are integers throughout. The model has no floating point, `NaN`
  as a value, `-0` or `Infinity`, and no `Symbol` or `BigInt` values.
- NatSort.IntegerPart: `parseFloat` of a leading literal with a fraction
  or exponent (src/index.ts:293, 313) is truncated to its integer part.
  The exact floating-point value is not modelled. This changes results:
  `"1.2"` and `"1.5"` both key as 1 and compare as 0, while the source puts
  `"1.2"` first. Likewise `"0.5"` and `"0.50"` both parse to 0.5 in the
  source and compare as 0 there. Here both key as text, and the final
  string comparison puts `"0.5"` first.
- NatSort.JsNumber: a case-sensitive token spelled `Infinity` is treated
  as not a number.
- NatSort.JsNumber: the `.5`, `0o` and `0b` forms of `Number` are not
  modelled.
- Digit runs whose value exceeds 2^53 are exact integers here. In the
  source they are rounded doubles, and so is `parseInt` of more than 13
  hex digits.
- `Date.parse` and `localeCompare` in `natsort` (src/index.ts:344-347,
  379-393) are uninterpreted fields of `Host`. Properties that need them
  to behave (reflexive collation) say so in a `requires`.
- NatSort.DateShape: the date pattern `dre` (src/index.ts:295) is modelled
  only by its necessary condition, a `:`, `/`, `-` or `,` in the text.
  Which texts with such a character match is the host field `dateShape`.
- Text.IntToDecimal: `String(n)` switches to exponent form (`1e+21`) once
  |n| reaches 10^21. The model prints plain decimal digits for every
  integer, so `StringOf`, `isNumber` and `natsort` differ from the source
  on such values.
- Globals.IntegersAreNumbers: stated only below 10^21 in magnitude,
  because `String(1e21)` is `1e+21`, which `isNumber` rejects.
- NatSort.NumberNormalForm: stated only below 10^21, for the same reason.
- NatSort.NumbersBeforeWords: stated only below 10^21, because it rests on
  `NumberNormalForm`.
- Globals.WithGlobals.IsNumber: the integer clause is stated only below
  10^21 in magnitude, for the same reason.
- Case mapping is ASCII only. Strings are sequences of characters, not
  of UTF-16 code units, so both string order and string length count
  characters. For example, `password.length >= 8` (src/index.ts:483)
  counts code units in the source, so four emoji pass it there; here
  they have length 4 and fail.
- Helpers.HexToRgba: the `alpha` argument is taken as its text. The
  number-to-string conversion is not modelled. The default `alpha = 1`
  (src/index.ts:63) has no separate entry point: a caller omitting it
  corresponds to passing `"1"`.
- Helpers.Clamp: works on integers. `NaN` arguments are not modelled.
- Helpers.RemoveDuplicates: element equality is Dafny equality. The
  `SameValueZero` treatment of `NaN` in `includes` is not modelled.
- Globals.StringOf: an object is always shown as `[object Object]`. An
  object's own `toString`, `valueOf` or `Symbol.toPrimitive` is not
  called. This changes `isNumber` (src/withGlobals.ts:44), `toLowerCase`
  (:66) and the `?.toString()` in `formatString` (:158). For example,
  `{toString(){return "5"}}` is a number in the source but not here.
- Globals.DeepEq: values are finite trees, so cyclic arrays and objects
  cannot be expressed. On two distinct cyclic structures, `deepEqual`
  (src/withGlobals.ts:81-125) recurses until the stack overflows. The
  model has no counterpart of that failure.
- Objects are lists of entries in insertion order. The JavaScript rule
  that integer-like keys come first is not modelled.
- Globals.WithGlobals.Sort: the host's `Array.prototype.sort` is modelled
  as a stable insertion sort. Sortedness is proved only for a collator
  whose sign is antisymmetric and transitive.
- Globals.WithGlobals.Sort: the new object's identity is the parameter
  `newRef`.
- Globals.WithGlobals.Sort: the `console.warn` for non-objects is output
  only and is left out.
- Globals.WithGlobals.Equals: assigning `this.isObjectValue` as a side
  effect of `equals` is not modelled. It changes no observable result.
- HTTP wrappers, hashing, `uuid` and random numbers are left out, because
  they are I/O or foreign libraries. So are `time`/`timeSince`/`withTime`
  (clock), `formatNumber`/`formatSize` (`Intl` and floating point), and
  DOM, timer and file-system helpers.
- `slugify`, `urlencode` and `urldecode` are left out, because they rely
  on Unicode normalisation and URI codecs. `enumToKeys` (number coercion)
  is left out too.
- `isColorName` is left out: its colour list lives in a file that is not
  part of this model.
- `isIP`, `isEmail` and `isUrl` are left out: they are library or
  backtracking regular expressions.
- `Symbol.toPrimitive`, `valueOf` and `toString` of `withGlobals` are left
  out: they are the coercion protocol.
- `src/react.ts` and `tsup.config.ts` are not part of this model.
  `src/types.ts` is mirrored only by the `Sort` and `SortOptions`
  datatypes.
