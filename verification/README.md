# jsonschema struct-tag comma checker, modelled in Dafny

The `jsonschema` analyzer of golangci-linters looks at the `jsonschema:"..."` part
of a Go struct-field tag. That value is a comma-separated list of `key=value`
pairs and standalone keys, so a comma in a value is ambiguous. The analyzer
settles the ambiguity with a lookahead. A comma separates two pairs when the
text after it, up to the next `=` or `,`, trims to one of 42 JSON Schema keywords.
Otherwise the comma belongs to the value. A comma right after a backslash is
escaped, and the value scan steps over the two characters together.

On top of this scan the analyzer provides:

- a splitter (`parseKeyValuePairs`), which turns the value into a map from key to
  raw value;
- a bare-comma check over that map (`hasUnescapedCommas`);
- a fixer (`escapeUnescapedCommas`), which walks the value again with its own copy
  of the same scan and puts two backslashes in front of every bare comma inside a
  value;
- the per-field decision of `noCommasRun`. It extracts the tag value
  (`parseTagValue`), then reports either a bare comma together with the fixed
  value, or a key outside the vocabulary.

The model writes the scan once:

- `Strings`: `strings.Index` and an ASCII `strings.TrimSpace`.
- `Vocabulary`: `allowedKeys` and `isLikelyKey`.
- `Commas`: `containsUnescapedComma` and `escapeCommasInValue`.
- `Scanner`:
  - the skip loop, the key loop, the lookahead and the value loop;
  - the *cut* of a tag into `Segment`s, one per turn of the outer loop that both
    Go functions share.
- `Splitter`: `parseKeyValuePairs` and `hasUnescapedCommas`.
- `Fixer`: `escapeUnescapedCommas`.
- `TagCheck`: `parseTagValue`, the backquote trim and the decision of `noCommasRun`.
- `Examples`: three tags worked through the model.

`Parse` and `Escape` are defined from the cut. The Go loops are written as Dafny
methods (`ParseKeyValuePairs`, `EscapeUnescapedCommas`, and the `SkipLoop`,
`KeyLoop` and `ValueLoop` they share), and each method is proved to compute the
function built from the cut. Every loop ends because each turn of the outer loop
strictly advances the index (`NextSegment`).

The main results:

- **Lossless cut.** The cut loses nothing (`JoinSegments`). A value may hold
  *data commas*: bare commas whose lookahead, read inside the value, is no
  keyword. Cutting a layout of well-shaped segments whose values hold only data
  commas gives the segments back (`CutRoundTrip`). These are exactly the layouts
  the cut reads back (`CutImage`). For example, `description=Hello, world,title=X`
  keeps `Hello, world` as one value, and the check reports its comma
  (`Examples.HelloFinding`).
- **What the fixer changes.** The fixer changes exactly the values. The fixed tag
  is cut into the same segments with escaped values (`EscapedCut`). The splitter
  reads it as the same keys with escaped values (`ParseOfEscape`). Fixing a fixed
  tag changes nothing (`EscapeIdempotent`).
- **Where the check and the fixer disagree.** When the check finds a bare comma,
  the fix changes the tag and clears the finding. The converse fails when a key
  is repeated: the map keeps only the last value, so a bare comma in an earlier
  value is invisible to the check, yet the fixer still rewrites it
  (`Examples.OverwrittenValue`).

Behaviour of the code worth noting:

- The vocabulary has 42 keywords and includes `example`.
- The fixer writes two backslashes before a bare comma (line 276), although the
  message of its suggested fix says to add `\,`, a single backslash (line 88).
- After a bare-comma finding `noCommasRun` returns early (line 99), so unknown
  keys of that tag are not reported in the same run.
- Only one unknown key is reported, in map order. The model keeps the set of all
  unknown keys.
- `parseTagValue` ends the value at the next `"` whatever precedes it, and it uses
  the first occurrence of `key:` anywhere in the tag.

## Model

| member | source | states |
|---|---|---|
| Strings.Index | internal/jsonschema/jsonschema.go:223-224 | `strings.Index` is -1 when the pattern never occurs, otherwise the first index where it occurs |
| Strings.TrimSpaceFacts | internal/jsonschema/jsonschema.go:308 | a trimmed key is a slice of the raw key text with only white space cut off on either side, and neither starts nor ends with white space |
| Strings.TrimSpaceIdempotent | internal/jsonschema/jsonschema.go:320 | trimming a trimmed key changes nothing |
| Vocabulary.KeywordIsWord | internal/jsonschema/jsonschema.go:16-59 | every one of the 42 keywords is a non-empty run of ASCII letters |
| Vocabulary.IsLikelyKey | internal/jsonschema/jsonschema.go:150-161 | defined as: non-empty, ASCII letters only, and listed among the keywords |
| Vocabulary.InitialRulesOut | internal/jsonschema/jsonschema.go:16-59 | no keyword starts with a letter outside `acdefimnoprtu`, so text starting with any other character is no key |
| Vocabulary.IsLikelyKeyIsMembership | internal/jsonschema/jsonschema.go:150-161 | `isLikelyKey` holds exactly for the members of `allowedKeys`: its emptiness and letters-only tests never reject a keyword |
| Commas.ContainsUnescapedComma | internal/jsonschema/jsonschema.go:164-175 | true exactly when some index holds a comma that is at index 0 or not preceded by a backslash |
| Commas.EscapePrefix | internal/jsonschema/jsonschema.go:269-281 | after `n` input characters the builder holds `n` plus two per bare comma so far, ends with the same character, holds no bare comma, and is the input prefix when there was none |
| Commas.EscapeCommasInValue | internal/jsonschema/jsonschema.go:267-283 | the escaped value has no bare comma; it is two characters longer per bare comma; it equals the input exactly when the input had no bare comma (its contents are fixed by `Commas.EscapeMatchesSpec`) |
| Commas.EscapeMatchesSpec | internal/jsonschema/jsonschema.go:267-283 | on every value the output is the token-by-token rewrite read left to right: an escaped comma `\,` is copied, a bare comma becomes `\\,`, and any other character is copied |
| Commas.EscapeConcat | internal/jsonschema/jsonschema.go:267-283 | escaping two values laid together is escaping each and joining the results, unless the first ends in a backslash and the second starts with a comma |
| Commas.EscapeOfChar | internal/jsonschema/jsonschema.go:270-281 | a lone comma becomes backslash, backslash, comma; any other lone character is copied |
| Commas.EscapeOfEscaped | internal/jsonschema/jsonschema.go:272-273 | an already escaped comma `\,` is copied unchanged |
| Commas.EscapePrefixOfPrefix | internal/jsonschema/jsonschema.go:269-281 | what the builder holds after `n` characters depends on those `n` characters only |
| Commas.EscapePrefixSplit | internal/jsonschema/jsonschema.go:269-281 | past the end of `x`, the builder over `x + y` holds the escape of `x` followed by what the builder over `y` alone holds, unless `x` ends in a backslash and `y` starts with a comma |
| Commas.EscapeOneComma | internal/jsonschema/jsonschema.go:267-283 | a value whose only comma is bare (no other comma, escaped or not, anywhere in it) gets exactly two backslashes in front of that comma and is otherwise copied |
| Commas.EscapeCopies | internal/jsonschema/jsonschema.go:269-281 | text without commas is copied to the builder as it is |
| Commas.EscapeKeepsLast | internal/jsonschema/jsonschema.go:269-281 | escaping keeps the last character of a value |
| Scanner.SkipSpaces | internal/jsonschema/jsonschema.go:293-295 | the skip loop stops at or after its start, at a non-space or at the end |
| Scanner.SkipSpacesFacts | internal/jsonschema/jsonschema.go:293-295 | everything the skip loop passes is a space |
| Scanner.KeyEnd | internal/jsonschema/jsonschema.go:301-304 | the key loop stops at `=`, at `,` or at the end |
| Scanner.KeyEndFacts | internal/jsonschema/jsonschema.go:301-304 | the key loop passes neither `=` nor `,` |
| Scanner.Lookahead | internal/jsonschema/jsonschema.go:333-350 | defined as the four-way branch on the next `=` and the next `,` after the comma, trimmed |
| Scanner.LookaheadIsCandidate | internal/jsonschema/jsonschema.go:333-350 | the four-way branch on the next `=` and the next `,` yields the trimmed text from after the comma to the nearer of the two, or to the end |
| Scanner.ValueEnd | internal/jsonschema/jsonschema.go:325-358 | the value loop stops at a comma or at the end of the tag |
| Scanner.ValueScanStops | internal/jsonschema/jsonschema.go:325-358 | a value scan stops only at the end or at a bare comma whose lookahead is a keyword, and every bare comma it passes has a lookahead that is not |
| Scanner.ValueEndNotEscaped | internal/jsonschema/jsonschema.go:325-330 | a value scan never stops at a comma that directly follows a backslash: `\,` is stepped over as a unit and is never a separator |
| Scanner.ValueEndOverData | internal/jsonschema/jsonschema.go:325-358 | when no bare comma between the start and a point `q` has a keyword as its lookahead, and `q` is the end or a separator comma not preceded by a backslash, the value scan stops exactly at `q` |
| Scanner.SeparatorInValue | internal/jsonschema/jsonschema.go:333-350 | inside a value followed by a comma or by the end of the tag, a comma's lookahead reads the same in the value alone as in the whole tag |
| Scanner.ScannedValueIsData | internal/jsonschema/jsonschema.go:325-358 | the text a value scan passes over holds only data commas |
| Scanner.NextSegment | internal/jsonschema/jsonschema.go:291-367 | each turn of the outer loop strictly advances the index and reads exactly the text it passes |
| Scanner.JoinSegments | internal/jsonschema/jsonschema.go:291-367 | the segments of the cut, laid back together, are the tag (lossless split) |
| Scanner.NextSegmentWellFormed | internal/jsonschema/jsonschema.go:293-304 | a segment starts with spaces only, and its key text holds no `=` or `,` and does not start with a space |
| Scanner.SeparatorBeforeKeyword | internal/jsonschema/jsonschema.go:352-355 | a pair ends in a comma only when the segment after it is named by a keyword |
| Scanner.NoCommaMeansEnd | internal/jsonschema/jsonschema.go:363-366 | a turn that does not end in a separator comma ends at the end of the tag |
| Scanner.SegmentsAreCut | internal/jsonschema/jsonschema.go:291-367 | every segment of a cut is well formed and non-empty; only the last lacks a comma; a pair ending in a comma has a value not ending in a backslash and is followed by a keyword |
| Scanner.ReadBack | internal/jsonschema/jsonschema.go:291-367 | text laid out from segments of that shape, whose values hold only data commas (no bare comma whose lookahead inside the value is a keyword), is cut back into exactly those segments |
| Scanner.CutRoundTrip | internal/jsonschema/jsonschema.go:291-367 | laying out the cut of any tag gives the tag back; cutting a layout of cut-shaped segments whose values hold only data commas gives those segments back |
| Scanner.SegmentsAreData | internal/jsonschema/jsonschema.go:291-367 | every value of the cut of a tag holds only data commas |
| Scanner.CutImage | internal/jsonschema/jsonschema.go:291-367 | a layout of segments is cut back into those segments exactly when they have the shape of a cut and their values hold only data commas |
| Scanner.SkipLoop | internal/jsonschema/jsonschema.go:293-295 | the skip loop computes `SkipSpaces` |
| Scanner.KeyLoop | internal/jsonschema/jsonschema.go:301-304 | the key loop computes `KeyEnd` |
| Scanner.ValueLoop | internal/jsonschema/jsonschema.go:325-358 | the value loop, with the four-way lookahead, computes `ValueEnd` |
| Splitter.Parse | internal/jsonschema/jsonschema.go:287-370 | defined as the map built by storing the segments of the cut in order, each pair under its trimmed key and each non-empty standalone key with the empty value |
| Splitter.StoreAllDomain | internal/jsonschema/jsonschema.go:306-316 | a key is in the map exactly when some segment records it: every pair, but a standalone key only when its trimmed text is not empty |
| Splitter.LastRecordWins | internal/jsonschema/jsonschema.go:361 | a later pair with the same key overwrites an earlier value |
| Splitter.ParseKeys | internal/jsonschema/jsonschema.go:306-321 | the keys of the parsed tag are exactly the keys its segments record |
| Splitter.ParseValue | internal/jsonschema/jsonschema.go:360-361 | the value of a key is the raw value of the last segment recording it (empty for a standalone key) |
| Splitter.ParsedKeysAreClean | internal/jsonschema/jsonschema.go:306-321 | every recorded key is trimmed and holds no `=` and no `,`; the empty key only comes from a pair |
| Splitter.ParseKeyValuePairs | internal/jsonschema/jsonschema.go:287-370 | the Go loop computes `Parse`, and its keys are trimmed and free of `=` and `,` |
| Splitter.LoneSegment | internal/jsonschema/jsonschema.go:291-367 | a tag that is a single segment without a separator, whose value holds only data commas, is cut into that one segment and parses to exactly what the outer loop stores for it |
| Splitter.SinglePair | internal/jsonschema/jsonschema.go:319-361 | a lone `key=value` with a letters-only key and a value holding only data commas is cut into one pair and parses to that single pair |
| Splitter.HasUnescapedCommas | internal/jsonschema/jsonschema.go:139-147 | defined as: some value of the parsed map holds a bare comma |
| Splitter.DetectsValue | internal/jsonschema/jsonschema.go:139-147 | one key whose value holds a bare comma is enough for the check to fire |
| Splitter.SingleKey | internal/jsonschema/jsonschema.go:306-311 | a lone letters-only key parses to that key with the empty value |
| Fixer.Escape | internal/jsonschema/jsonschema.go:178-263 | defined as the layout of the cut with every pair's value escaped |
| Fixer.EscapeSegLength | internal/jsonschema/jsonschema.go:251-253 | rewriting a segment never shortens it, and leaves it unchanged exactly when it is not a pair with a bare comma in its value |
| Fixer.JoinEscapeAll | internal/jsonschema/jsonschema.go:178-263 | the rewritten segments lay out to the original text exactly when no value has a bare comma |
| Fixer.EscapeIdentity | internal/jsonschema/jsonschema.go:178-263 | the fix never shortens the tag and leaves it unchanged exactly when no pair's value has a bare comma |
| Fixer.EscapeUnescapedCommas | internal/jsonschema/jsonschema.go:178-263 | the Go loop computes `Escape`: spaces, keys, `=`, separators and standalone keys copied, each value escaped |
| Fixer.EscapeTurn | internal/jsonschema/jsonschema.go:182-259 | one turn of the fixer writes the segment the splitter reads there, with its value escaped, and ends where the splitter's turn ends |
| Fixer.EscapePairTurn | internal/jsonschema/jsonschema.go:209-259 | a pair turn writes the lead and key with `=`, the escaped value and the separator |
| Fixer.EscapeSegKeeps | internal/jsonschema/jsonschema.go:199-210 | rewriting keeps a segment's spaces, key text, separator, kind and key |
| Fixer.EscapeAllIsCut | internal/jsonschema/jsonschema.go:251-259 | rewriting keeps the shape of a cut and leaves no value with a bare comma |
| Fixer.EscapedCut | internal/jsonschema/jsonschema.go:178-263 | the fixed tag is cut into the original segments with their values escaped, so every separator stays a separator |
| Fixer.StoreAllEscaped | internal/jsonschema/jsonschema.go:360-361 | storing rewritten segments stores each value escaped |
| Fixer.ParseOfEscape | internal/jsonschema/jsonschema.go:178-263 | the splitter reads the fixed tag as the same keys, each with its value escaped |
| Fixer.FixedTagIsClean | internal/jsonschema/jsonschema.go:139-147 | the fixed tag never has a bare comma in a value |
| Fixer.DetectionMeansChange | internal/jsonschema/jsonschema.go:77-80 | when the check finds a bare comma, the suggested fix differs from the tag |
| Fixer.EscapeLonePair | internal/jsonschema/jsonschema.go:178-263 | the fix of a lone `key=value` with a letters-only key and a value holding only data commas escapes just that value |
| Fixer.EscapeIdempotent | internal/jsonschema/jsonschema.go:178-263 | fixing a fixed tag changes nothing |
| TagCheck.TrimBackquotes | internal/jsonschema/jsonschema.go:70 | defined as `strings.Trim` with the backquote as the cut set: backquotes dropped from both ends |
| TagCheck.TrimBackquotesFacts | internal/jsonschema/jsonschema.go:70 | the trimmed literal is a slice of the raw one with only backquotes cut off on either side, and neither starts nor ends with a backquote |
| TagCheck.TrimLeftChar | internal/jsonschema/jsonschema.go:70 | what is dropped in front is backquotes, what is kept is a suffix not starting with one |
| TagCheck.TrimRightChar | internal/jsonschema/jsonschema.go:70 | what is dropped at the back is backquotes, what is kept is a prefix not ending with one |
| TagCheck.TrimBackquotesOfLiteral | internal/jsonschema/jsonschema.go:70 | a backquoted tag literal loses exactly its two quotes |
| TagCheck.ParseTagValue | internal/jsonschema/jsonschema.go:121-136 | defined as the text between the quote after the first `key:` and the next quote, or empty when `key:` is missing, no quote follows it, or none closes it |
| TagCheck.ParseTagValueCases | internal/jsonschema/jsonschema.go:121-136 | empty when `key:` is absent, not followed by `"`, or not closed; otherwise quote-free, and `key:"` + value + `"` occurs at the first `key:` |
| TagCheck.ParseTagValueRoundTrip | internal/jsonschema/jsonschema.go:121-136 | a tag starting with `key:"v"` for a quote-free `v` yields `v` |
| TagCheck.UnknownKeysOf | internal/jsonschema/jsonschema.go:102-111 | the unknown keys are exactly the parsed keys that `isLikelyKey` rejects |
| TagCheck.CheckSchema | internal/jsonschema/jsonschema.go:76-112 | a bare comma is reported exactly when the check finds one, with the fixer's output as the fix, which differs from the value, has no bare comma and keeps its keys; otherwise the reported keys are exactly the parsed keys outside the vocabulary, and the verdict is clean exactly when there are none |
| TagCheck.Check | internal/jsonschema/jsonschema.go:70-74 | a field is skipped exactly when its tag has no `jsonschema:"..."` value or an empty one |
| TagCheck.CheckOfLiteral | internal/jsonschema/jsonschema.go:70-74 | a field tagged `` `jsonschema:"X"` `` is checked on `X` |
| TagCheck.FixSettlesCommaFinding | internal/jsonschema/jsonschema.go:77-111 | checking the fixed value reports no bare comma, and reports exactly the unknown keys that the early return hid |
| TagCheck.SinglePairVerdict | internal/jsonschema/jsonschema.go:102-111 | a lone `keyword=value` whose value holds no bare comma is clean; a lone letters-only non-keyword `word=value` with such a value is reported as that unknown key |
| TagCheck.SinglePairFinding | internal/jsonschema/jsonschema.go:77-99 | a lone `key=value` with a letters-only key whose value holds a bare data comma is reported, with just that value escaped as the fix |
| TagCheck.SingleKeyVerdict | internal/jsonschema/jsonschema.go:102-111 | a lone keyword is clean; a lone non-keyword word is reported as unknown |
| Examples.OverwrittenValue | internal/jsonschema/jsonschema.go:139-147 | for `if=1,2,if` the map is `{if: ""}`, the check finds no bare comma, and the fixer still changes the tag |
| Examples.DocumentedParse | internal/jsonschema/jsonschema.go:69 | the documented tag splits into `title` and `description`, the escaped comma staying in the description |
| Examples.DocumentedIsClean | internal/jsonschema/jsonschema.go:69 | the documented tag has no bare comma and no unknown key, so the verdict is clean |
| Examples.HelloParse | internal/jsonschema/jsonschema.go:325-358 | `description=Hello, world,title=X` splits into `description` = `Hello, world` and `title` = `X`: the first comma's lookahead `world` is no keyword |
| Examples.HelloFinding | internal/jsonschema/jsonschema.go:77-99 | for that tag the check finds the bare comma, and the fix is the tag with `Hello\\, world` as the description |

## Left out

- The syntax-tree walk, the diagnostics and their positions (`ast.Inspect`, `analysis.Pass`, `Pos()+1`/`End()-1`, lines 61-68, 82-98 and 105-110) belong to the host framework and are not modelled; `CheckSchema` returns the verdict a diagnostic would be built from.
- `strings.ReplaceAll(tag, jsonschemaTag, fixedTag)` (line 80) only splices the fix into the full tag; the model returns the fixed `jsonschema` value instead.
- The order in which unknown keys are reported comes from Go map iteration and is unspecified; the model keeps the set of unknown keys, of which the analyzer reports one.
- `strings.TrimSpace` is modelled for ASCII white space only, and every `char` stands for one byte of the Go string; multi-byte runes are not modelled.
- Strings.TrimSpaceFacts: Go's `strings.TrimSpace` also trims Unicode white space such as U+00A0, which the model keeps. So `description=a,` followed by U+00A0 and `title=b` is two clean pairs in Go but one pair with a bare comma in the model, and a key preceded by U+00A0 is recorded with that character in the model.
- The analyzer registration (`NoCommas`, lines 10-14), the command entry points and the package tests are wiring and are not modelled.
