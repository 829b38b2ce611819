# CJKDetector core in Dafny

CJKDetector tells Chinese text from Japanese text. It has two parts, and this project
models both and proves what they promise.

- **The build step (setup/setup.ts).**
  - It reads the Unihan readings file line by line.
  - It collects the codes that carry a Japanese reading (`kJapaneseKun`, `kJapaneseOn`) and those that carry a Chinese reading (`kMandarin`, `kCantonese`).
  - It merges each language's two lists and drops duplicate code strings.
  - It parses each `U+XXXX` code with `parseInt(e.slice(2), 16)`.
  - It applies the include and exclude override lists of the configuration, then sorts each list ascending.
  - It compresses each list into a regular-expression character-class body: maximal runs of consecutive code points, each written as one `\u` escape, two adjacent escapes, or `lo-hi`.
- **The classifier (src/detect.ts).**
  - `detectChineseStatic` holds two compiled classes, one for Chinese and one for Japanese. `init` loads them, and the Japanese class also gets the hiragana and katakana blocks.
  - `match` splits a text in three stages:
    1. The Japanese units are filtered out and removed one `replace` at a time.
    2. The Chinese units of the rest are handled the same way.
    3. Whatever is left becomes the other units.
  - `match` then gives a count-based verdict.
  - The `detectChinese` constructor performs the same split with a different verdict rule and derives its flags from the result.

Files (one module each):

| file | module | models |
|---|---|---|
| wrappers.dfy | `Wrappers` | `Option` |
| text.dfy | `Text` | `indexOf`, `split`/`join` on one character, `trim` |
| hex.dfy | `Hex` | `toString(16)` and hexadecimal digit strings |
| sort.dfy | `Sorting` | the in-place ascending `sort` of a number array |
| regexp_source.dfy | `RegExpSource` | `toCodeString`, `buildCode`, `generateRegExpSource` and a maximal-runs reference definition |
| class_decoder.dfy | `ClassDecoder` | two decoders of the emitted class bodies, used to state what a body denotes |
| setup.dfy | `Setup` | the line loop, de-duplication, `parseInt`, the overrides, the sort and the whole build |
| detect.dfy | `Detect` | `detectChineseStatic`, `match` and the `detectChinese` constructor |

Modelling choices:

- **Text units.** A text is a `seq<char>`, and each unit stands for one code point. A compiled class is the set of code points it matches.
- **Imperative parts.** Two things are classes with mutable fields:
  - the static matcher, whose `init` overwrites the two classes;
  - the `detectChinese` object, whose constructor assigns its fields.

  The build's `push` and `filter` loops, the `replace` loops and the in-place sort are methods with loops. Each is proved equal to a function of its inputs.
- **Pure parts.** The fold of `generateRegExpSource` is a function. It is proved equal to the emission of the maximal runs of its input, and the decoders read the emitted text back.

## Model

| member | source | states |
|---|---|---|
| Setup.IsComment | setup/setup.ts:47 | `line.startsWith("#")`: the line begins with `#`; such a line contributes nothing (`Setup.LineAddsNothing`, `Setup.ExtractReadings`) |
| Setup.LineEntry | setup/setup.ts:47-75 | what one line yields: nothing for a comment, for fewer than two tab-separated fields of the trimmed line, or for another field name; otherwise the reading and the first field. `Setup.LineOfFields` and `Setup.OneFieldLine` state its cases |
| Setup.Collect | setup/setup.ts:46-76 | the codes the lines yield under one reading, in line order; `Setup.CollectMembers` states what it holds and `Setup.ExtractReadings` that the loop computes it |
| Setup.ReadingOf | setup/setup.ts:52-75 | the second field selects a reading exactly when it is one of the four field names; any other name selects none |
| Setup.LineOfFields | setup/setup.ts:47-75 | a non-comment line whose trimmed text is code, tab, field name, then tab-separated rest yields that code under that field's reading, or nothing for another name |
| Setup.OneFieldLine | setup/setup.ts:50-51 | a line with a single field (no tab after trimming) contributes nothing |
| Setup.CollectMembers | setup/setup.ts:46-76 | a code is in a reading's list exactly when some line yields it under that reading |
| Setup.ExtractReadings | setup/setup.ts:41-76 | the line loop: each of the four lists is exactly the codes the lines yield under that reading, in line order; comments, one-field lines and other field names add nothing |
| Setup.Dedup | setup/setup.ts:89-90 | `Array.from(new Set(..))`: first occurrences in input order, never longer than the input; `Setup.DedupMembers`, `Setup.DedupDistinct` and `Setup.DedupOrder` state its properties |
| Setup.DedupMembers | setup/setup.ts:89-90 | `Array.from(new Set(..))` keeps exactly the elements of its input |
| Setup.DedupDistinct | setup/setup.ts:89-90 | the de-duplicated list has no repeated element |
| Setup.DedupOrder | setup/setup.ts:89-90 | the de-duplicated list is in the order of first occurrence in the input |
| Setup.ParseInt16 | setup/setup.ts:89-90 | `parseInt(s, 16)`: skip leading white space, a sign and a `0x` mark, then read the longest run of hex digits; no digit is NaN, here none. `Setup.ParseInt16Digits`, `Setup.ParseInt16Negative` and `Setup.ParseInt16HexPrefix` state its cases |
| Setup.Slice2 | setup/setup.ts:89-90 | `e.slice(2)`: the string without its first two characters, empty when it is shorter; `Setup.MissingCode` states the short case |
| Setup.CodeOf | setup/setup.ts:89-90 | the code point `parseInt(e.slice(2), 16)` gives for one code string, none for NaN or a negative value; `Setup.UnihanCode` and `Setup.MissingCode` state its cases |
| Setup.ParseCodes | setup/setup.ts:89-90 | the `map` over the de-duplicated code strings, keeping the entries that are code points; `Setup.ParseCodesMembers` and `Setup.ParseCodesLength` state its properties |
| Setup.ParseInt16Digits | setup/setup.ts:89-90 | `parseInt(_, 16)` reads the hex digits up to the first non-digit |
| Setup.ParseInt16Negative | setup/setup.ts:89-90 | a leading minus sign negates the value read |
| Setup.ParseInt16HexPrefix | setup/setup.ts:89-90 | a `0x` prefix is skipped before the digits |
| Setup.MissingCode | setup/setup.ts:89-90 | a code string of two characters or fewer leaves nothing after `slice(2)` and gives no code point |
| Setup.UnihanCode | setup/setup.ts:89-90 | `U+` followed by hex digits stands for the value of those digits |
| Setup.ParseCodesMembers | setup/setup.ts:89-90 | the parsed list holds exactly the code points the code strings stand for |
| Setup.ParseCodesLength | setup/setup.ts:89-90 | when every code string is well formed, parsing keeps one entry per string |
| Setup.OverridePoint | setup/setup.ts:92-110 | `str.codePointAt(0)` as `if (unicode)` sees it: the first character's code point, or none for the empty string and U+0000; `Setup.PointsMembers` uses it |
| Setup.Points | setup/setup.ts:92-110 | the code points an override list names; `Setup.PointsMembers` states its members |
| Setup.PointsMembers | setup/setup.ts:92-110 | an override list names a code point exactly when one of its strings starts with it, and the empty string and U+0000 name nothing |
| Setup.IncludeAll | setup/setup.ts:92-95 | the list after the include loop, which starts with the original list; `Setup.IncludeAllMembers` and `Setup.IncludeAllDistinct` state the rest, `Setup.IncludeCodes` that the loop computes it |
| Setup.IncludeAllMembers | setup/setup.ts:92-95 | after the include loop a code point is present exactly when it was present before or the include list names it |
| Setup.IncludeAllDistinct | setup/setup.ts:92-95 | the include loop appends no code point that is already present |
| Setup.IncludeCodes | setup/setup.ts:92-95 | the include loop computes the list of `IncludeAll`, which starts with the original list |
| Setup.Keep | setup/setup.ts:97-110 | `filter((e) => e !== unicode)` by a set of excluded code points, never longer than its input; `Setup.KeepMembers`, `Setup.KeepDistinct` and `Setup.KeepTwice` state its properties, `Setup.ExcludeCodes` that the loop computes it |
| Setup.KeepMembers | setup/setup.ts:97-100 | filtering keeps exactly the codes that are not excluded |
| Setup.KeepDistinct | setup/setup.ts:97-100 | filtering a list with no duplicates leaves none |
| Setup.KeepTwice | setup/setup.ts:97-100 | filtering by one exclusion after another equals one filter by both |
| Setup.ExcludeCodes | setup/setup.ts:97-100 | the exclude loop removes every occurrence of every named code point and nothing else |
| Setup.LanguageCodes | setup/setup.ts:89-110 | one language's code points before sorting: merged, de-duplicated, parsed, included, then excluded; `Setup.LanguageCodesMembers` and `Setup.LanguageCodesDistinct` state its properties |
| Setup.LanguageCodesMembers | setup/setup.ts:89-110 | a code point ends up in a language's list exactly when a reading code or an include string names it and no exclude string does, so exclusion wins |
| Setup.DedupCodes | setup/setup.ts:89-90 | dropping duplicate code strings loses no code point |
| Setup.LanguageCodesDistinct | setup/setup.ts:89-110 | if the parsed reading codes are distinct, so is the list after the overrides |
| Setup.Delivers | setup/setup.ts:112-154 | what one language's build delivers: a sorted permutation of its code points and a source that the strict reading decodes to that list when every value is a Unicode scalar value; `Setup.SortAndGenerate` establishes it |
| Setup.DeliveredAscending | setup/setup.ts:112-113 | a delivered list of distinct code points is strictly ascending |
| Setup.ClassSet | src/detect.ts:15-16 | the set of code points a class source denotes under the strict reading, none if it is malformed; `Setup.DeliveredClassSet` states it for a built source |
| Setup.DeliveredClassSet | setup/setup.ts:112-154 | for code points that are all Unicode scalar values, a delivered source denotes exactly the set of the language's code points, which is the set `init` then loads |
| Setup.SortAndGenerate | setup/setup.ts:112-113 | the list comes back sorted and is a permutation of the codes; when every code is a Unicode scalar value (no surrogate), its class source (padded escapes) decodes under the strict reading to exactly that list |
| Setup.BuildSources | setup/setup.ts:46-154 | the whole build, in the source's order (Chinese include, Chinese exclude, Japanese include, Japanese exclude): each language's list and source are delivered for that language's collected, merged, de-duplicated, parsed and overridden codes |
| Sorting.SortAscending | setup/setup.ts:112-113 | the in-place sort leaves the array sorted and a permutation of its old contents |
| Sorting.SortedUnique | setup/setup.ts:112-113 | two sorted arrangements of the same values are equal, so the sort's result is determined |
| Sorting.DistinctCounts | setup/setup.ts:112-113 | a list has no duplicates exactly when each value occurs at most once in its multiset |
| Text.Split | setup/setup.ts:46-50 | `split` on one character: at least one part, none holding the separator; `Text.JoinSplit` and `Text.SplitJoin` make `Text.Join` its inverse |
| Text.JoinSplit | setup/setup.ts:46 | joining the parts of `split` gives back the text |
| Text.SplitJoin | setup/setup.ts:46 | splitting a join of separator-free parts gives back the parts |
| Text.Trim | setup/setup.ts:50 | `trim`: the result starts and ends with no white space; `Text.TrimCuts` and `Text.TrimUnchanged` state what it removes |
| Text.TrimCuts | setup/setup.ts:50 | `trim` removes only white space, on both sides of the text it keeps |
| Text.TrimUnchanged | setup/setup.ts:50 | a text with no white space at either end is its own trim |
| Hex.ToHex | setup/setup.ts:123 | `toString(16)` writes only lower-case hex digits, with no leading zero, and they read back as the number |
| Hex.HexAboveFourDigits | setup/setup.ts:123-124 | the hex form has more than four digits exactly from U+10000 on |
| Hex.Pad4 | setup/setup.ts:122-125 | the corrected escape digits: at least four digits, and the same value |
| RegExpSource.ToCodeString | setup/setup.ts:122-125 | `toCodeString` (unpadded as written, padded when corrected): an escape beginning with `\u`; `RegExpSource.ToCodeStringForm` and `RegExpSource.NoDelimiterInside` state its form |
| RegExpSource.RunCode | setup/setup.ts:127-134 | the escapes `buildCode` writes for one run: one escape, two adjacent escapes, or `lo-hi`; `RegExpSource.SingleValue`, `RegExpSource.PairRun` and `RegExpSource.LongRun` state the three shapes |
| RegExpSource.BuildCode | setup/setup.ts:127-134 | `buildCode`: the built text followed by the open run's escapes; `RegExpSource.FoldFollowsRuns` uses it |
| RegExpSource.Step | setup/setup.ts:138-144 | the `reduce` callback: open a run, extend it by a value one above its end, or flush it and open a new run; the result always has an open run. `RegExpSource.FoldFollowsRuns` states what the steps emit |
| RegExpSource.Reduce | setup/setup.ts:137-146 | the left fold: the empty list leaves the state alone and any other list leaves an open run; `RegExpSource.GenerateFollowsRuns` relates it to the maximal runs |
| RegExpSource.Generate | setup/setup.ts:136-149 | `generateRegExpSource`'s body, with the escape padding as a parameter; `RegExpSource.GenerateFollowsRuns` states it equals the emission of the maximal runs |
| RegExpSource.ToCodeStringForm | setup/setup.ts:122-125 | `\u{hex}` from U+10000 on, otherwise `\u` and the unpadded hex digits, which are fewer than four below U+1000 |
| RegExpSource.NoDelimiterInside | setup/setup.ts:122-125 | an escape holds no dash, and no backslash after its first character |
| RegExpSource.GenerateRegExpSource | setup/setup.ts:136-149 | the empty list, and only the empty list, compresses to the empty string |
| RegExpSource.GenerateRegExpSourcePadded | setup/setup.ts:136-149 | the corrected generator gives the empty string exactly for the empty list |
| RegExpSource.FoldFollowsRuns | setup/setup.ts:137-146 | the fold, from an open run, emits exactly the maximal runs of the remaining input |
| RegExpSource.GenerateFollowsRuns | setup/setup.ts:136-149 | `generateRegExpSource` is the concatenation of the maximal runs of its input, each flushed by `buildCode` |
| RegExpSource.MaximalRuns | setup/setup.ts:139-143 | the reference definition: the input cut into maximal runs of consecutive values; `RegExpSource.MaximalRunsProperties` states its properties |
| RegExpSource.MaximalRunsProperties | setup/setup.ts:139-143 | the maximal runs cover the input exactly, in order; each is a proper range and none can be extended by the next; for strictly ascending input they are disjoint with gaps between them |
| RegExpSource.SpanIsOneRun | setup/setup.ts:140-141 | consecutive values form a single run |
| RegExpSource.SingleValue | setup/setup.ts:128-129 | a lone value emits one escape and no dash |
| RegExpSource.PairRun | setup/setup.ts:130-133 | two consecutive values emit two adjacent escapes and no dash |
| RegExpSource.LongRun | setup/setup.ts:130-133 | three or more consecutive values emit `lo-hi`, with exactly one dash |
| ClassDecoder.ParseEmittedEscape | setup/setup.ts:122-125 | every emitted escape, followed by a delimiter, reads back as its code point and ends where it should |
| ClassDecoder.DecodeEmit | setup/setup.ts:127-134 | the emitted runs decode to their expansion |
| ClassDecoder.RoundTrip | setup/setup.ts:136-149 | the source as written decodes (each `\u` running to the next `\`, `-` or end, `a-b` inclusive) to exactly its input list, in order |
| ClassDecoder.ShortEscapeRejected | setup/setup.ts:122-125 | as written, a code point below U+1000 reads back under the lenient reading but is rejected under the `u` flag |
| ClassDecoder.PaddedRoundTripStrict | setup/setup.ts:122-149 | with padded escapes, the strict reading gives back exactly any input list of Unicode scalar values (up to U+10FFFF and outside the surrogate range, where no surrogate pair can arise) |
| Detect.DetectChineseStatic.constructor | src/detect.ts:8-9 | before `init` both classes are empty |
| Detect.DetectChineseStatic.Init | src/detect.ts:11-17 | `init` sets the Chinese class to the loaded set, and the Japanese class to the loaded set plus U+3040..U+309F and U+30A0..U+30FF |
| Detect.DetectChineseStatic.HasChineseCharacters | src/detect.ts:19-21 | true exactly when some unit of the whole text is in the Chinese class, with nothing removed first |
| Detect.DetectChineseStatic.HasJapaneseCharacters | src/detect.ts:23-25 | true exactly when some unit of the whole text is in the Japanese class |
| Detect.DetectChineseStatic.GetChineseCharacters | src/detect.ts:35-37 | each unit of the Chinese class, as often as it occurs, and no other unit |
| Detect.DetectChineseStatic.GetJapaneseCharacters | src/detect.ts:39-41 | each unit of the Japanese class, as often as it occurs, and no other unit |
| Detect.DetectChineseStatic.Match | src/detect.ts:43-70 | the removal loops produce the three-way filter partition with the count-based verdict |
| Detect.DetectChineseStatic.IsChineseSentence | src/detect.ts:27-29 | true exactly when `match` finds at least one Chinese unit and at least as many as Japanese ones |
| Detect.DetectChineseStatic.IsJapaneseSentence | src/detect.ts:31-33 | true exactly when `match` finds more Japanese units than Chinese ones, so never together with `IsChineseSentence` |
| Detect.DetectChinese.constructor | src/detect.ts:82-120 | optional `init` first, then the same partition with the constructor's verdict; the `has…` flags say whether the Chinese and Japanese lists are non-empty, the `is…` flags follow the verdict |
| Detect.Test | src/detect.ts:19-25 | `RegExp.prototype.test` on a one-character class; `Detect.TestFindsUnit` states when it is true |
| Detect.FilterIn | src/detect.ts:35-41 | `split("").filter(test)`: the matching units in order, never more than the text; `Detect.FilterCounts` and `Detect.FilterInAppend` state its properties |
| Detect.FilterNotIn | src/detect.ts:52-66 | the units that do not match, in order, which is what the removal loop leaves; `Detect.FilterCounts`, `Detect.FilterNotInAppend` and `Detect.RemoveMatchesIsFilter` state its properties |
| Detect.TestFindsUnit | src/detect.ts:19-25 | a one-character class's `test` is true exactly when some unit matches |
| Detect.FilterCounts | src/detect.ts:35-41 | `split("").filter(test)` keeps each matching unit as often as it occurs, and its complement keeps each other unit |
| Detect.FilterInAppend | src/detect.ts:39-40 | the filter keeps the original order: it distributes over concatenation |
| Detect.FilterNotInAppend | src/detect.ts:52-58 | the units left after removal keep their order: the complement filter distributes over concatenation |
| Detect.RemoveFirst | src/detect.ts:56 | `text.replace(str, "")` for a one-unit string; `Detect.RemoveFirstAbsent`, `Detect.RemoveFirstCuts` and `Detect.RemoveFirstCount` state what it does |
| Detect.RemoveAll | src/detect.ts:55-57 | the `for (const str of jaMatch)` loop as repeated first-occurrence removal; `Detect.RemoveMatchesIsFilter` states its result, `Detect.RemoveEach` that the loop computes it |
| Detect.RemoveFirstAbsent | src/detect.ts:56 | `replace(u, "")` of a unit that does not occur changes nothing |
| Detect.RemoveFirstCuts | src/detect.ts:56 | otherwise it cuts out the unit at its first position |
| Detect.RemoveFirstCount | src/detect.ts:56 | either way exactly one occurrence goes, if there is one |
| Detect.RemoveMatchesIsFilter | src/detect.ts:52-58 | removing, one first occurrence at a time, every unit the filter picked leaves exactly the non-matching units, in order |
| Detect.RemoveEach | src/detect.ts:55-57 | the `for`/`replace` loop computes the repeated first-occurrence removal |
| Detect.StaticVerdict | src/detect.ts:67 | "JA" exactly when Japanese units outnumber Chinese ones; "ZH" exactly when there is a Chinese unit and at least as many as Japanese ones (so a tie goes to "ZH"); "" exactly when there are none of either |
| Detect.ConstructorVerdict | src/detect.ts:111 | "ZH" exactly when there is a Chinese unit; "JA" exactly when there is none but a Japanese one; "" exactly when there are none of either |
| Detect.VerdictsDisagree | src/detect.ts:67 | the two rules disagree exactly when there are some Chinese units but fewer than the Japanese ones, and then the static rule says "JA" and the constructor "ZH" |
| Detect.StaticResult | src/detect.ts:43-70 | `match`'s result keeps the text, and its verdict is the static rule applied to its own list lengths |
| Detect.ConstructorResult | src/detect.ts:87-111 | the constructor's result keeps the text, and its verdict is the constructor's rule applied to its own list lengths |
| Detect.Partition | src/detect.ts:52-66 | the three-stage split with a given verdict; `Detect.PartitionPlaces`, `Detect.PartitionCounts` and `Detect.OverlapIsJapanese` state its properties |
| Detect.PartitionPlaces | src/detect.ts:52-66 | every unit lands in exactly one list, as often as it occurs: Japanese-class units in the Japanese list, units only the Chinese class matches in the Chinese list, all others in the other list |
| Detect.PartitionCounts | src/detect.ts:52-66 | the three lists together are the text rearranged, and their lengths add up to its length |
| Detect.OverlapIsJapanese | src/detect.ts:52-59 | a unit that both classes match goes to the Japanese list only |
| Detect.ZaiJian | src/test/index.ts:69-75 | "再见", with 再 Japanese and 见 Chinese: a tie, which both rules call "ZH" |
| Detect.GreetingVerdicts | src/test/index.ts:62-68 | "こんにちは。你好": `match` says "JA", with six Japanese units, 你 and 。; the constructor says "ZH" |
| Detect.GreetingJapanese | src/test/index.ts:62-68 | the Japanese stage on "こんにちは。你好" picks the five kana and 好, and leaves 。你 |
| Detect.Unmatched | src/test/index.ts:205-211 | a text with no unit of either class (such as "hello") gets "" from both rules, with every unit other |
| Detect.XieXie | src/test/index.ts:104-110 | "谢谢" with 谢 Chinese only: "ZH", with both units Chinese, under both rules |
| Detect.BuZhiDao | src/test/index.ts:14 | "不知道", all Japanese: `hasChineseCharacters` can be true while `match` finds no Chinese unit |

## Left out

- File and process I/O:
  - reading the configuration and the readings file, unzipping, `mkdir`, writing the two result files, and the log output of setup/setup.ts;
  - the `readFileSync` calls and `trim` of the loaded sources in `init`.

  The readings text and the configuration (already parsed from JSON) are parameters of `Setup.BuildSources`. `Detect.DetectChineseStatic.Init` takes the two loaded code-point sets directly.
- Compiling the class source into a `RegExp`, and the engine's matching with the `i`, `m` and `u` flags. A compiled class is the set of code points it matches. `Setup.DeliveredClassSet` says which set of code points a built source denotes under the strict reading; the classifier's `Detect.DetectChineseStatic.Init` takes such sets as parameters, and no member composes the build with the classifier.
- UTF-16: `split("")` splits into UTF-16 code units, so a character outside the BMP becomes two surrogate units. The model treats each unit as one code point.
- Setup.CodeOf: a code string that parses to NaN or to a negative number gives no code point. The source would keep NaN (and a negative number) in its number array. The readings file's codes are all `U+` followed by hex digits, and `Setup.UnihanCode` covers them.
- Setup.ParseInt16: the value is an unbounded integer, not a double, so precision loss beyond 2^53 is not modelled.
- Setup.LanguageCodesDistinct: distinctness of the final list holds only when the parsed reading codes are distinct. De-duplication runs on the code strings, so two spellings of one code point (such as `U+4E00` and `U+4e00`) would both survive.
- Setup.BuildSources: returns the source written by the corrected (padded) generator. The generator as written is `RegExpSource.GenerateRegExpSource`; see Findings.
- ClassDecoder.DecodeClass: decodes only the escape atoms and ranges the compressor emits, not the full class grammar.
- ClassDecoder.DecodeClass: the strict reading takes each `\uHHHH` on its own and does not join a lead and a trail surrogate escape into one code point, as the `u` flag does; so `ClassDecoder.PaddedRoundTripStrict`, `Setup.Delivers` and `Setup.DeliveredClassSet` claim it only for lists of Unicode scalar values. The Unihan codes contain no surrogates.
- The sort algorithm of the JavaScript engine: `Sorting.SortAscending` sorts by insertion. `Sorting.SortedUnique` shows that any correct sort gives the same result.
- The test expectations in src/test/index.ts depend on the external Unihan data. The example lemmas state them under assumed class memberships, given as preconditions.
- setup/download.ts, setup/cli.ts, setup/init.ts, setup/constants.ts, build.ts and eslint.config.cjs are downloading, dispatching, copying, configuration and build tooling. They are not part of this model.

## Findings

| source | as written | input that shows it | evidently intended | confidence | as-written member | corrected member |
|---|---|---|---|---|---|---|
| setup/setup.ts:122-125 | `toCodeString` writes `\u` followed by the unpadded hex digits, so a code point below U+1000 gets fewer than four digits | the list `[0x41]` (for example from an include string "A") compresses to `\u41`, which is a syntax error in a class compiled with the `u` flag (`"imu"` at src/detect.ts:15-16) | pad the fixed-width escape to four digits (`\u0041`), which the `u` flag accepts | not executed | ClassDecoder.ShortEscapeRejected | RegExpSource.GenerateRegExpSourcePadded, ClassDecoder.PaddedRoundTripStrict |
