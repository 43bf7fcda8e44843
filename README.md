# CQ codes and mirai codes, modelled in Dafny

This project models the core of a Kotlin library for **CQ codes**. A CQ code
is an inline token `[CQ:type,key=value,...]` embedded in a chat message. The
library also handles the sibling **mirai code**, `[mirai:type:param]`. The
model covers:

- **`CQEncoder` / `CQDecoder`** (module `CQEscape`): the ordered `replace`
  chains that escape `&`, `[`, `]`, tab, CR and LF; `decodeParams` also
  un-escapes `&#44;` to `,`, which neither encoder produces. They are specified
  against a character-by-character reference, `Escaped(s, S)`, and the round
  trips are proved.
- **`KQCodeUtils`** (modules `KQCodeUtils`, `Scan`, `Removal`):
  - `toCq`, rendering a code;
  - the index-walking loops `getCq`, `getCqs`, `getParam`, `split` and
    `removeCode` (with `remove` / `removeByType`), as methods with loop
    invariants, each proved against a specification function of the
    message text.
  - `Scan` holds the walks shared by the CQ and mirai copies, parameterised by
    the code head. `Removal` holds the `removeCode` loop that both copies
    share.
- **`MapKQCode` / `MutableMapKQCode`** (module `MapKQCode`): the eager codec.
  - `splitCode` / `byCode` parse a code into a type and an insertion-ordered
    parameter map. Kotlin's `LinkedHashMap` is module `LinkedMap`.
  - The parse is proved to round-trip with the rendering.
  - The mutable variant is a class whose `put` / `remove` change its map in
    place.
- **`FastKQCode`** (module `FastKQCode`): the lazy codec that keeps the raw
  text and scans it on every lookup, with its one-entry `paramBuffer` cache.
  The lookup is proved to agree with the eager codec on rendered codes.
- **The parameter iterators and the text iterator** (module `KQIterators`):
  classes whose cursor fields `hasNext` / `next` move.
- **`EmptyKQCode` and the `KQCode.of` / `ofType` factories** (module `KQCode`),
  and the singleton objects (module `KQCodeObjects`).
- **`StringCodeBuilder` and `KQCodeBuilder`** (module `CodeBuilder`): the
  pending-key state machines.
- **`MQCodeUtils`** (module `MQCodeUtils`): `toMq`, `toMqCode`, `getMq`,
  `getMqCode`, `getMqs`, `getMqCodes`, `split`, `removeCode`, `MqIterator`, and
  the data class `MQCode`, which is `MiraiCode` here.
- **The array-backed `MQCode`** (module `MQCode`): class `MqCode`, whose
  `setParam` writes into its array.

Supporting modules: `Results` (Option, Result, the exceptions the source
throws), `Text` (Kotlin's `indexOf`, `replace`, `trim`, `split`,
`joinToString` and `isBlank` on `seq<char>`), and `Grammar` (the markers
`[CQ:`, `]`, `,` and `=`).

Exceptions the source throws are modelled as `Err` values:

- `IllegalArgumentException`
- `IndexOutOfBoundsException`
- `StringIndexOutOfBoundsException`
- `NoSuchElementException`
- `NullPointerException`

Where the code and its comments disagree, the model follows the code:

- `encodeParams` does not escape `,`, although its comment says it should; only `decodeParams` un-escapes `&#44;`.
- `FastKQCode`'s `empty` flag is set when the text holds a `,`.
- The pair and entry iterators split a field on every `=`.

## Model

| member | source | states |
|---|---|---|
| CQEscape.Code | src/main/java/com/simplerobot/modules/utils/KQCodeUtils.kt:83-89 | Each special character's escape is five characters `&...;` whose inner three are neither `&` nor special. |
| CQEscape.UncodeCode | src/main/java/com/simplerobot/modules/utils/KQCodeUtils.kt:47-53 | Every escape reads back as the character it stands for. |
| CQEscape.CodeInjective | src/main/java/com/simplerobot/modules/utils/KQCodeUtils.kt:83-89 | Distinct characters have distinct escapes. |
| CQEscape.EncodeStep | src/main/java/com/simplerobot/modules/utils/KQCodeUtils.kt:83-89 | One `replace(c, escape)` pass escapes one more character of the text. It must run first when `c` is `&`, because every escape contains an `&`. |
| CQEscape.DecodeStep | src/main/java/com/simplerobot/modules/utils/KQCodeUtils.kt:47-53 | One `replace(escape, c)` pass un-escapes `c`, provided `&` is still escaped. |
| CQEscape.EncodeTextEscaped | src/main/java/com/simplerobot/modules/utils/KQCodeUtils.kt:83-89 | `encodeText` escapes exactly `&`, `[`, `]`, tab, CR and LF, character by character. |
| CQEscape.EncodeParamsIsEncodeText | src/main/java/com/simplerobot/modules/utils/KQCodeUtils.kt:95-101 | `encodeParams` equals `encodeText` and leaves `,` alone. |
| CQEscape.DecodeTextUnescapes | src/main/java/com/simplerobot/modules/utils/KQCodeUtils.kt:47-53 | `decodeText` restores the plain text from the escapes `encodeText` writes. |
| CQEscape.DecodeParamsUnescapes | src/main/java/com/simplerobot/modules/utils/KQCodeUtils.kt:60-67 | `decodeParams` undoes the escaping of any set of special characters that includes `&`, the `&#44;` pass included. |
| CQEscape.DecodeEncodeText | src/main/java/com/simplerobot/modules/utils/KQCodeUtils.kt:47-89 | Round trip: `decodeText(encodeText(s)) == s` for every `s`. |
| CQEscape.DecodeEncodeParams | src/main/java/com/simplerobot/modules/utils/KQCodeUtils.kt:60-101 | Round trip: `decodeParams(encodeParams(s)) == s` for every `s`. |
| CQEscape.EscapedShape | src/main/java/com/simplerobot/modules/utils/KQCodeUtils.kt:83-101 | In escaped text an escaped character occurs only as the `&` that opens one of the escapes. |
| CQEscape.EncodeParamsClean | src/main/java/com/simplerobot/modules/utils/KQCodeUtils.kt:95-101 | `encodeParams` output holds no `[`, `]`, tab, CR or LF, and each `&` in it opens one of the six escapes. |
| CQEscape.DecodeWithoutAmpersand | src/main/java/com/simplerobot/modules/utils/KQCodeUtils.kt:47-67 | Text without `&` holds no escape, so both decoders leave it unchanged. |
| CQEscape.EscapedAppend | src/main/java/com/simplerobot/modules/utils/KQCodeUtils.kt:83-89 | Escaping distributes over concatenation. |
| CQEscape.EscapedKeeps | src/main/java/com/simplerobot/modules/utils/KQCodeUtils.kt:83-89 | A character that is neither escaped nor part of an escape is in the escaped text exactly when it is in the original. |
| CQEscape.EncodeParamsKeeps | src/main/java/com/simplerobot/modules/utils/KQCodeUtils.kt:95-101 | `encodeParams` adds no `,`, `=` or space, and the value starts or ends with a space exactly when the original does. |
| Grammar.CqHeadOf | src/main/java/com/simplerobot/modules/utils/KQCode.kt:26-29 | The head `[CQ:` + type opens with `[`, is four characters longer than the type, and holds no `]` when the type holds none. |
| Grammar.FramedEnds | src/main/java/com/simplerobot/modules/utils/codes/FastKQCode.kt:58-60 | A text framed by `[CQ:` and `]` has at least five characters and starts with `[` and ends with `]`. |
| Scan.TokensHit | src/main/java/com/simplerobot/modules/utils/KQCodeUtils.kt:389-410 | At a head closed by a `]`, the walk yields the text from the head to that `]` and resumes at the `]`. |
| Scan.TokensShape | src/main/java/com/simplerobot/modules/utils/KQCodeUtils.kt:389-410 | Every code `getCqs` finds starts with the head and has exactly one `]`, its last character. |
| Scan.TokensEmpty | src/main/java/com/simplerobot/modules/utils/KQCodeUtils.kt:389-410 | No code is found exactly when no head at or after the start has a `]` after it. |
| Scan.TokensOfCode | src/main/java/com/simplerobot/modules/utils/KQCodeUtils.kt:389-410 | A code on its own is the single code found in it. |
| Scan.CollectTokens | src/main/java/com/simplerobot/modules/utils/KQCodeUtils.kt:389-410 | The `do ... while` loop of `getCqs` collects exactly the walk's codes, in order. |
| Scan.NthToken | src/main/java/com/simplerobot/modules/utils/KQCodeUtils.kt:338-365 | `getCq`'s counting loop returns the `index`-th code of the walk, or nothing when there are fewer. |
| Scan.TokenStep | src/main/java/com/simplerobot/modules/utils/KQCodeUtils.kt:349-359 | One pass of `getCq`'s search either ends the walk, skips an unclosed head by one character, or counts the next code and moves to its `]`. |
| Scan.TerminatedHeads | src/main/java/com/simplerobot/modules/utils/KQCodeUtils.kt:430-471 | The heads `getParam` counts and the `]` after each lie in the text, at or after the start. |
| Scan.TerminatedHeadsSound | src/main/java/com/simplerobot/modules/utils/KQCodeUtils.kt:430-471 | Each counted head is a real head, paired with the first `]` after it. |
| Scan.TerminatedHeadsOrdered | src/main/java/com/simplerobot/modules/utils/KQCodeUtils.kt:430-471 | The counted heads are listed left to right. |
| Scan.TerminatedHeadsComplete | src/main/java/com/simplerobot/modules/utils/KQCodeUtils.kt:430-471 | Every head with a `]` after it is counted. |
| Scan.ParamAtSpec | src/main/java/com/simplerobot/modules/utils/KQCodeUtils.kt:452-467 | A value is found exactly when the first `,key=` ends inside the code. It is then the raw text up to the next `,` or the `]`; it holds no `,` and is `""` for a key with no value. |
| Scan.NthParam | src/main/java/com/simplerobot/modules/utils/KQCodeUtils.kt:430-471 | `getParam`'s loop looks the key up in the `index`-th head that a `]` closes, and finds nothing when there is no such head. |
| Scan.HeadStep | src/main/java/com/simplerobot/modules/utils/KQCodeUtils.kt:438-447 | One pass of `getParam`'s search: the next head, counted together with its `]` exactly when one follows. |
| Scan.SplitFromStep | src/main/java/com/simplerobot/modules/utils/KQCodeUtils.kt:288-329 | At a closed head, `split` adds the text since the previous code (when non-empty) and the code, then goes on after the `]`. |
| Scan.SplitText | src/main/java/com/simplerobot/modules/utils/KQCodeUtils.kt:288-329 | The loop of `split` produces exactly the pieces of the walk, or the whole text when the walk found no code. |
| Scan.SplitFromUnclosed | src/main/java/com/simplerobot/modules/utils/KQCodeUtils.kt:304-326 | After a head with no `]`, `split` yields nothing more, so the text after the last code is lost. |
| Scan.TokensUnclosed | src/main/java/com/simplerobot/modules/utils/KQCodeUtils.kt:389-410 | After a head with no `]`, `getCqs` finds nothing more. |
| Scan.SplitNoCode | src/main/java/com/simplerobot/modules/utils/KQCodeUtils.kt:288-329 | A text in which no head is closed comes back as the single piece `text`. |
| Scan.SplitNonEmpty | src/main/java/com/simplerobot/modules/utils/KQCodeUtils.kt:288-329 | `split` of a non-empty text yields no empty piece, so adjacent codes get no empty piece between them. |
| Scan.SplitConcat | src/main/java/com/simplerobot/modules/utils/KQCodeUtils.kt:288-329 | When every head is closed, the pieces concatenate back to the text. |
| Scan.SplitCodes | src/main/java/com/simplerobot/modules/utils/KQCodeUtils.kt:288-329 | The pieces of `split` that are codes are exactly the codes `getCqs` finds, in order. |
| Removal.NextMove | src/main/java/com/simplerobot/modules/utils/KQCodeUtils.kt:598-638 | One loop iteration moves the head search strictly forward and cuts only fragments inside the text. |
| Removal.Cuts | src/main/java/com/simplerobot/modules/utils/KQCodeUtils.kt:598-638 | The whole loop cuts fragments inside the text and stops at an index inside it. Its only failure is the `StringIndexOutOfBoundsException` of reading past the end. |
| Removal.Step | src/main/java/com/simplerobot/modules/utils/KQCodeUtils.kt:599-637 | The loop body computes exactly the move `NextMove` specifies. |
| Removal.RemoveLoop | src/main/java/com/simplerobot/modules/utils/KQCodeUtils.kt:578-652 | The loop and the tail give `Removed`, the source as written: the fragments `Cuts` names, offered to the builder in order, then `substring(sps + 1)` unless `sps` is the last index. |
| Removal.EmitTail | src/main/java/com/simplerobot/modules/utils/KQCodeUtils.kt:641-652 | After the loop, the builder gets the text after `sps` unless `sps` is the last index; when nothing was removed `sps` is 0 and the first character is left out. |
| Removal.RemovedOf | src/main/java/com/simplerobot/modules/utils/KQCodeUtils.kt:566-656 | `removeCode`, both as written and as intended, is the builder over the cut fragments plus the tail, or the loop's exception. |
| Removal.MoveFacts | src/main/java/com/simplerobot/modules/utils/KQCodeUtils.kt:606-634 | An iteration that cuts removes the text from after the previous `]` up to a head. An iteration that does not cut leaves `sps` alone, unless the code opens the text. |
| Removal.CutsShape | src/main/java/com/simplerobot/modules/utils/KQCodeUtils.kt:598-638 | The fragments come in order and do not overlap. Each starts at the text's start or right after a `]`, and ends at a head before the final `sps`. |
| Removal.RemovalShape | src/main/java/com/simplerobot/modules/utils/KQCodeUtils.kt:598-638 | The walk from the loop's initial state has that shape. |
| Removal.AssembleKept | src/main/java/com/simplerobot/modules/utils/KQCodeUtils.kt:621-630 | With `ignoreEmpty`, the result is the non-blank fragments, trimmed when `trim` is set, joined by the delimiter, which goes only between two kept fragments. |
| Removal.AssembleConcat | src/main/java/com/simplerobot/modules/utils/KQCodeUtils.kt:621-630 | With neither trimming nor dropping and no delimiter, the result is the fragments written out. |
| Removal.NoHeadNoCut | src/main/java/com/simplerobot/modules/utils/KQCodeUtils.kt:598-638 | Without a head in the text, the loop stops at once and cuts nothing. |
| Removal.NothingCut | src/main/java/com/simplerobot/modules/utils/KQCodeUtils.kt:641-652 | When nothing is cut, the intended result is the whole text (trimmed or dropped as asked), while the code as written loses the first character. |
| Removal.RemovedIntendedNoHead | src/main/java/com/simplerobot/modules/utils/mqCodeUtils.kt:281-335 | As intended, text without any code comes back as it is, up to the trimming and dropping asked for. |
| Removal.RemovedDropsFirst | src/main/java/com/simplerobot/modules/utils/mqCodeUtils.kt:281-335 | As written, text without any code loses its first character. |
| Removal.MiraiPlainText | src/main/java/com/simplerobot/modules/utils/mqCodeUtils.kt:324-325 | As written, `"hello world"` without mirai codes comes back as `"ello world"`; as intended it is unchanged. |
| Removal.HeadAtEndFails | src/main/java/com/simplerobot/modules/utils/KQCodeUtils.kt:601 | A head that ends the text makes the loop read past the end: `StringIndexOutOfBoundsException`. |
| Removal.TypedStopsAtLongerType | src/main/java/com/simplerobot/modules/utils/KQCodeUtils.kt:603-605 | A typed removal whose first match is the head of a longer type stops at once, so nothing is removed, not even later codes of the right type. |
| Removal.UnclosedHeadDropsFirst | src/main/java/com/simplerobot/modules/utils/KQCodeUtils.kt:586-642 | A first head with no `]` after it cuts nothing. As written the first character is lost; as intended the text is kept. |
| KQCodeUtils.ToCqPrefixed | src/main/java/com/simplerobot/modules/utils/KQCodeUtils.kt:159-192 | `toCq` renders `[CQ:` + type, then `,key=value` per pair in order, then `]`. Values are escaped when `encode` is set. |
| KQCodeUtils.ParamPairs | src/main/java/com/simplerobot/modules/utils/KQCodeUtils.kt:201-216 | Texts `key=value` cut at their first `=` give one pair each. |
| KQCodeUtils.FieldSplit | src/main/java/com/simplerobot/modules/utils/KQCodeUtils.kt:201-216 | A text `key=value` whose key has no `=` splits back into its key and value. |
| KQCodeUtils.ToCqParamsAgree | src/main/java/com/simplerobot/modules/utils/KQCodeUtils.kt:201-216 | Rendering texts `key=value` gives the same code as rendering the pairs, with and without `encode`. |
| KQCodeUtils.ToCqParamsFails | src/main/java/com/simplerobot/modules/utils/KQCodeUtils.kt:201-216 | With `encode`, rendering texts fails exactly when one of them holds no `=`. |
| KQCodeUtils.ToCqIsToken | src/main/java/com/simplerobot/modules/utils/KQCodeUtils.kt:177-192 | A rendered code is a single code for `getCqs` when neither the type nor a key holds `]`. |
| KQCodeUtils.GetCq | src/main/java/com/simplerobot/modules/utils/KQCodeUtils.kt:338-365 | A negative index throws `IndexOutOfBoundsException`; otherwise the result is the `index`-th code of `getCqs`, or null when there are fewer. |
| KQCodeUtils.GetCqs | src/main/java/com/simplerobot/modules/utils/KQCodeUtils.kt:389-410 | The codes of the type, left to right, each from its head to the first `]` after it. |
| KQCodeUtils.GetParam | src/main/java/com/simplerobot/modules/utils/KQCodeUtils.kt:430-471 | The raw value of the key in the `index`-th closed head of the type, or null when there is no such head or key. |
| KQCodeUtils.Split | src/main/java/com/simplerobot/modules/utils/KQCodeUtils.kt:288-329 | `split` with head `[CQ:` follows `SplitSpec`, whose properties are listed under `Scan`. |
| KQCodeUtils.RemoveCode | src/main/java/com/simplerobot/modules/utils/KQCodeUtils.kt:566-656 | Empty, too short or head-free text comes back unchanged; otherwise the removal loop as written, `substring(sps + 1)` tail included. |
| KQCodeUtils.RemoveWithoutHead | src/main/java/com/simplerobot/modules/utils/KQCodeUtils.kt:594-596 | A text in which the head does not occur comes back unchanged. |
| KQCodeUtils.RemoveUnclosedDropsFirst | src/main/java/com/simplerobot/modules/utils/KQCodeUtils.kt:586-642 | `removeCode` turns `"ab[CQ:x"` into `"b[CQ:x"`; the intended result is the text unchanged. |
| KQCodeUtils.TwoHeadsCuts | src/main/java/com/simplerobot/modules/utils/KQCodeUtils.kt:598-638 | In a text whose only `[` are two closed heads, the loop cuts the text before the first code (when there is some) and the text between the codes. |
| KQCodeUtils.TwoHeadsRemoved | src/main/java/com/simplerobot/modules/utils/KQCodeUtils.kt:566-656 | In such a text, the builder gets those fragments and then the text after the second code. |
| KQCodeUtils.RemoveTwoCodes | src/main/java/com/simplerobot/modules/utils/KQCodeUtils.kt:566-674 | Removing two codes from plain text keeps the text before, between and after them, in order, without the codes. |
| KQCodeUtils.AssembleSolid | src/main/java/com/simplerobot/modules/utils/KQCodeUtils.kt:621-630 | Three fragments that trimming leaves alone come out joined by the delimiter. |
| KQCodeUtils.RemoveBetweenText | src/main/java/com/simplerobot/modules/utils/KQCodeUtils.kt:566-674 | With text before, between and after two codes, `remove` offers the builder exactly those three fragments. |
| KQCodeUtils.RemoveExample | src/main/java/com/simplerobot/modules/utils/KQCodeUtils.kt:667-674 | `remove("A[CQ:at,qq=1]B[CQ:at,qq=2]C", delimiter = " ")` is `"A B C"`. |
| KQCodeUtils.Remove | src/main/java/com/simplerobot/modules/utils/KQCodeUtils.kt:667-674 | `remove` is `removeCode` with no type, tail as written. |
| KQCodeUtils.RemoveByType | src/main/java/com/simplerobot/modules/utils/KQCodeUtils.kt:686-694 | `removeByType` is `removeCode` with the type, tail as written. |
| KQIterators.Positions | src/main/java/com/simplerobot/modules/utils/kqIterators.kt:88-90 | The separators still ahead of a cursor lie in the text, at or after it, in increasing order. |
| KQIterators.PositionsCount | src/main/java/com/simplerobot/modules/utils/kqIterators.kt:25-28 | There are as many separators ahead as there are occurrences from the cursor on. |
| KQIterators.PositionsComplete | src/main/java/com/simplerobot/modules/utils/kqIterators.kt:88-90 | Every separator at or after the cursor is ahead. |
| KQIterators.CursorStep | src/main/java/com/simplerobot/modules/utils/kqIterators.kt:16-28 | `hasNext` holds exactly when a separator lies ahead, and `next` moves the cursor onto the first one, strictly forward. |
| KQIterators.KeyAt | src/main/java/com/simplerobot/modules/utils/kqIterators.kt:95-103 | A key is the text from after the `,` to the next `=`, which holds no `=`. Without a later `=` the cut fails. |
| KQIterators.FieldEnd | src/main/java/com/simplerobot/modules/utils/kqIterators.kt:132-143 | A field ends at the next `,` or at the closing `]`. |
| KQIterators.PairAt | src/main/java/com/simplerobot/modules/utils/kqIterators.kt:166-179 | A pair is read exactly when the field holds a `=`; otherwise reading the second piece fails. |
| KQIterators.KeyIterator.constructor | src/main/java/com/simplerobot/modules/utils/kqIterators.kt:85 | A fresh key iterator has every `,` of the code ahead. |
| KQIterators.KeyIterator.Open | src/main/java/com/simplerobot/modules/utils/kqIterators.kt:8-12 | Construction throws `IllegalArgumentException` unless the code is framed by `[CQ:` and `]`. |
| KQIterators.KeyIterator.HasNext | src/main/java/com/simplerobot/modules/utils/kqIterators.kt:25-28 | True exactly when a `,` lies ahead. |
| KQIterators.KeyIterator.Next | src/main/java/com/simplerobot/modules/utils/kqIterators.kt:95-103 | With nothing ahead, `NoSuchElementException` and no move. Otherwise the key at the first `,` ahead is returned and that `,` is consumed. |
| KQIterators.ValueIterator.constructor | src/main/java/com/simplerobot/modules/utils/kqIterators.kt:114 | A fresh value iterator has every `=` of the code ahead. |
| KQIterators.ValueIterator.Open | src/main/java/com/simplerobot/modules/utils/kqIterators.kt:8-12 | Construction throws `IllegalArgumentException` unless the code is framed. |
| KQIterators.ValueIterator.HasNext | src/main/java/com/simplerobot/modules/utils/kqIterators.kt:124-127 | True exactly when a `=` lies ahead. |
| KQIterators.ValueIterator.Next | src/main/java/com/simplerobot/modules/utils/kqIterators.kt:132-143 | With nothing ahead, `NoSuchElementException`. Otherwise the decoded value after the first `=` ahead is returned and that `=` is consumed. |
| KQIterators.ValueIterator.CutValue | src/main/java/com/simplerobot/modules/utils/kqIterators.kt:136-142 | The value is `decodeParams` of the text after the `=` up to the next `,` or the `]`. |
| KQIterators.PairIterator.constructor | src/main/java/com/simplerobot/modules/utils/kqIterators.kt:155 | A fresh pair (or entry) iterator has every `,` of the code ahead. |
| KQIterators.PairIterator.Open | src/main/java/com/simplerobot/modules/utils/kqIterators.kt:8-12 | Construction throws `IllegalArgumentException` unless the code is framed. |
| KQIterators.PairIterator.HasNext | src/main/java/com/simplerobot/modules/utils/kqIterators.kt:25-28 | True exactly when a `,` lies ahead. |
| KQIterators.PairIterator.Next | src/main/java/com/simplerobot/modules/utils/kqIterators.kt:166-179 | With nothing ahead, `NoSuchElementException`. Otherwise the pair of the field at the first `,` ahead is returned and that `,` is consumed. |
| KQIterators.PairIterator.CutPair | src/main/java/com/simplerobot/modules/utils/kqIterators.kt:172-178 | The field is split on every `=`: the first piece is the key, the decoded second piece the value. |
| KQIterators.IterationCounts | src/main/java/com/simplerobot/modules/utils/kqIterators.kt:85-160 | The key and pair iterators yield one item per `,` and the value iterator one per `=`. |
| KQIterators.TextIterator.constructor | src/main/java/com/simplerobot/modules/utils/kqIterators.kt:36-46 | A fresh text iterator has every code `getCqs` finds ahead. |
| KQIterators.TextIterator.HasNext | src/main/java/com/simplerobot/modules/utils/kqIterators.kt:48-67 | True exactly when a code lies ahead; asking again without `next` does not move on. |
| KQIterators.TextIterator.Seek | src/main/java/com/simplerobot/modules/utils/kqIterators.kt:53-64 | The search finds the next closed code, skipping unclosed heads, and leaves the rest of the walk ahead. |
| KQIterators.TextIterator.Next | src/main/java/com/simplerobot/modules/utils/kqIterators.kt:72-77 | Hands out the code found by `hasNext` and drops it from what lies ahead. Without one, `n!!` throws `NullPointerException`. |
| KQIterators.CqIter | src/main/java/com/simplerobot/modules/utils/KQCodeUtils.kt:480 | `getCqIter` iterates over exactly the codes `getCqs` finds. |
| KQIterators.Drain | src/main/java/com/simplerobot/modules/utils/kqIterators.kt:36-77 | A `for` loop over the text iterator sees exactly the codes `getCqs` collects, in order. |
| MapKQCode.SplitCode | src/main/java/com/simplerobot/modules/utils/codes/MapKQCode.kt:147-159 | The trimmed code must be framed, else `IllegalArgumentException`. The inner text splits into at least one field, the first being the type. |
| MapKQCode.ParseField | src/main/java/com/simplerobot/modules/utils/codes/MapKQCode.kt:166-183 | A field parses exactly when it holds a `=`. The key is the text before the first `=`; a field without `=` fails with `IndexOutOfBoundsException`. |
| MapKQCode.ParseFields | src/main/java/com/simplerobot/modules/utils/codes/MapKQCode.kt:166-183 | The fields parse exactly when every field holds a `=`, each into its own pair. |
| MapKQCode.ByCode | src/main/java/com/simplerobot/modules/utils/codes/MapKQCode.kt:166-183 | The parsed parameter map has distinct keys, a later duplicate overwriting an earlier one. |
| MapKQCode.GetNoDecode | src/main/java/com/simplerobot/modules/utils/codes/MapKQCode.kt:73 | `getNoDecode` finds a value exactly when `get` does, and decoding it gives `get`'s value. |
| MapKQCode.ByPairs | src/main/java/com/simplerobot/modules/utils/codes/MapKQCode.kt:190 | `byPair` looks every key up to the last value given for it. |
| MapKQCode.ByParamStrings | src/main/java/com/simplerobot/modules/utils/codes/MapKQCode.kt:193 | `byParamString` succeeds exactly when every text holds a `=`, and is then `byPair` over the cut texts. |
| MapKQCode.EqualsByLookup | src/main/java/com/simplerobot/modules/utils/codes/MapKQCode.kt:120-130 | Two codes are equal exactly when their types agree and every key looks up the same value, in any order. |
| MapKQCode.FieldParses | src/main/java/com/simplerobot/modules/utils/codes/MapKQCode.kt:166-183 | A rendered field parses back into its pair. |
| MapKQCode.FieldsParse | src/main/java/com/simplerobot/modules/utils/codes/MapKQCode.kt:166-183 | The rendered fields parse back into the code's pairs. |
| MapKQCode.RenderJoin | src/main/java/com/simplerobot/modules/utils/codes/MapKQCode.kt:97-100 | A rendered code with parameters is its type and fields joined by `,`, framed by `[CQ:` and `]`. |
| MapKQCode.RenderSplits | src/main/java/com/simplerobot/modules/utils/codes/MapKQCode.kt:147-159 | `splitCode` of a rendered code gives back its type and fields. |
| MapKQCode.RoundTrip | src/main/java/com/simplerobot/modules/utils/codes/MapKQCode.kt:97-183 | Round trip: `byCode(c.toString())` is `c` when the type, keys and values hold nothing the splitting would cut or trim. |
| MapKQCode.MutableMapCode.constructor | src/main/java/com/simplerobot/modules/utils/codes/MapKQCode.kt:248-261 | A mutable code holds the given type and map. |
| MapKQCode.MutableMapCode.Put | src/main/java/com/simplerobot/modules/utils/codes/MapKQCode.kt:247-248 | `put` returns the previous value. The key then maps to the new value, a new key goes last, and every other key is unchanged. |
| MapKQCode.MutableMapCode.Remove | src/main/java/com/simplerobot/modules/utils/codes/MapKQCode.kt:247-248 | `remove` returns the removed value. The key then maps to nothing and every other key is unchanged. |
| MapKQCode.MutableMapCode.SetType | src/main/java/com/simplerobot/modules/utils/codes/MapKQCode.kt:48 | Assigning `type` changes only the type, and the next `toString` renders the new type over the unchanged map. |
| MapKQCode.MutableMapCode.Immutable | src/main/java/com/simplerobot/modules/utils/codes/MapKQCode.kt:271 | `immutable()` is a snapshot of the current map and renders like the mutable code. |
| MapKQCode.Mutable | src/main/java/com/simplerobot/modules/utils/codes/MapKQCode.kt:112 | `mutable()` is a fresh mutable code over a copy of the map. |
| MapKQCode.MutableByCode | src/main/java/com/simplerobot/modules/utils/codes/MapKQCode.kt:200-217 | Fails exactly when `byCode` fails, with its exception; otherwise a fresh mutable code over `byCode`'s type and map. |
| MapKQCode.EditCopy | src/main/java/com/simplerobot/modules/utils/codes/MapKQCode.kt:112 | A `put` into a mutable copy leaves the original code and an earlier snapshot unchanged. |
| FastKQCode.TypeOf | src/main/java/com/simplerobot/modules/utils/codes/FastKQCode.kt:62-68 | The type is the text from after `[CQ:` up to the first `,`, or up to the final `]` when there is no `,`. |
| FastKQCode.Lookup | src/main/java/com/simplerobot/modules/utils/codes/FastKQCode.kt:162-184 | A value found by the scan holds no `,`. |
| FastKQCode.ContainsKeyNever | src/main/java/com/simplerobot/modules/utils/codes/FastKQCode.kt:108-111 | `containsKey` as written is false for every key. |
| FastKQCode.ContainsKeyIntendedFinds | src/main/java/com/simplerobot/modules/utils/codes/FastKQCode.kt:108-111 | With the emptiness test the other way round, `containsKey` holds exactly when `get` finds a value. |
| FastKQCode.ContainsValueShape | src/main/java/com/simplerobot/modules/utils/codes/FastKQCode.kt:117-121 | `containsValue` can only hold for a code without `,`, and then only for the text before the closing `]`. |
| FastKQCode.GetAgrees | src/main/java/com/simplerobot/modules/utils/codes/FastKQCode.kt:162-184 | On a rendered code the scan finds the escaped value the eager codec stores, so `get` agrees with `MapKQCode.byCode(...).get`. |
| FastKQCode.LookupEncoded | src/main/java/com/simplerobot/modules/utils/codes/FastKQCode.kt:162-184 | On a rendered code, `getNoDecode(k)` is the escaped value stored under `k`. |
| FastKQCode.TypeOfRender | src/main/java/com/simplerobot/modules/utils/codes/FastKQCode.kt:57-68 | The type read from a rendered code is the code's type. |
| FastKQCode.LookupIsGetParam | src/main/java/com/simplerobot/modules/utils/codes/FastKQCode.kt:162-184 | On a code whose only `]` closes it, the scan equals `KQCodeUtils.getParam` for its first code. |
| FastKQCode.OneField | src/main/java/com/simplerobot/modules/utils/codes/FastKQCode.kt:57-184 | `[CQ:t,k=v]` reads back type `t` and value `v` for `k`. |
| FastKQCode.FastCode.constructor | src/main/java/com/simplerobot/modules/utils/codes/FastKQCode.kt:57-74 | A code reads its type, size and emptiness from the text and starts with an empty cache. |
| FastKQCode.FastCode.ByCode | src/main/java/com/simplerobot/modules/utils/codes/FastKQCode.kt:336 | `byCode` trims and throws `IllegalArgumentException` unless the result is framed; the code's text is then the trimmed text. |
| FastKQCode.FastCode.GetParam | src/main/java/com/simplerobot/modules/utils/codes/FastKQCode.kt:162-184 | Cached or not, the result is a fresh scan's. A hit replaces the cache with the key and raw value; a miss leaves it alone. |
| FastKQCode.FastCode.Get | src/main/java/com/simplerobot/modules/utils/codes/FastKQCode.kt:126 | `get` is `decodeParams` of what `getParam` finds, null staying null. |
| FastKQCode.FastCode.KeysContainAll | src/main/java/com/simplerobot/modules/utils/codes/FastKQCode.kt:259-265 | True exactly when the code has no `,` and every element's `k=` occurs. |
| FastKQCode.FastCode.ValuesContainAll | src/main/java/com/simplerobot/modules/utils/codes/FastKQCode.kt:306-313 | True exactly when the code has no `,` and every element's `=` + escaped value occurs. |
| FastKQCode.FastCode.EntriesContainAll | src/main/java/com/simplerobot/modules/utils/codes/FastKQCode.kt:213-220 | True exactly when the code has no `,` and every entry's `k=` + escaped value occurs. |
| FastKQCode.FastCode.Keys | src/main/java/com/simplerobot/modules/utils/codes/FastKQCode.kt:270-272 | The key set's iterator is a key iterator over the text with every `,` ahead. |
| FastKQCode.FastCode.Values | src/main/java/com/simplerobot/modules/utils/codes/FastKQCode.kt:324-326 | The value collection's iterator is a value iterator over the text with every `=` ahead. |
| FastKQCode.FastCode.Entries | src/main/java/com/simplerobot/modules/utils/codes/FastKQCode.kt:230 | The entry set's iterator is an entry iterator over the text with every `,` ahead. |
| FastKQCode.FastCode.Mutable | src/main/java/com/simplerobot/modules/utils/codes/FastKQCode.kt:98 | `mutable()` parses the text again with `MapKQCode.mutableByCode`. |
| FastKQCode.SizeIsValueCount | src/main/java/com/simplerobot/modules/utils/codes/FastKQCode.kt:72-73 | `size` counts every `=` of the text, as many as the value iterator yields. |
| CodeBuilder.StringCodeBuilder.constructor | src/main/java/com/simplerobot/modules/utils/CodeBuilder.kt:103-105 | A new string builder holds `[CQ:` + type, no pending key and no pairs. |
| CodeBuilder.StringCodeBuilder.Key | src/main/java/com/simplerobot/modules/utils/CodeBuilder.kt:116-118 | `key(k)` sets the pending key and writes nothing. |
| CodeBuilder.StringCodeBuilder.Value | src/main/java/com/simplerobot/modules/utils/CodeBuilder.kt:134-143 | With a pending key, appends `,k=` and the escaped value (nothing for null), whatever `encode` says, and clears the key. Without one, throws `NullPointerException` and changes nothing. |
| CodeBuilder.StringCodeBuilder.EmptyValue | src/main/java/com/simplerobot/modules/utils/CodeBuilder.kt:148 | `emptyValue()` is `value(null)`. |
| CodeBuilder.StringCodeBuilder.Build | src/main/java/com/simplerobot/modules/utils/CodeBuilder.kt:123 | `build()` is the text so far plus `]`, which is `toCq` of the written pairs; the builder is unchanged. |
| CodeBuilder.KQCodeBuilder.constructor | src/main/java/com/simplerobot/modules/utils/CodeBuilder.kt:163-166 | A new map builder has an empty map and no pending key. |
| CodeBuilder.KQCodeBuilder.Key | src/main/java/com/simplerobot/modules/utils/CodeBuilder.kt:177-179 | `key(k)` sets the pending key and leaves the map alone. |
| CodeBuilder.KQCodeBuilder.Value | src/main/java/com/simplerobot/modules/utils/CodeBuilder.kt:195-201 | With a pending key, stores the value text (`""` for null), overwriting an earlier one, and clears the key. Without one, throws `NullPointerException`. |
| CodeBuilder.KQCodeBuilder.EmptyValue | src/main/java/com/simplerobot/modules/utils/CodeBuilder.kt:206 | `emptyValue()` stores `""` under the pending key. |
| CodeBuilder.KQCodeBuilder.Build | src/main/java/com/simplerobot/modules/utils/CodeBuilder.kt:184-186 | `build()` is an immutable code over a copy of the current map. |
| CodeBuilder.BuildThenWrite | src/main/java/com/simplerobot/modules/utils/CodeBuilder.kt:184-201 | Writing to the builder after `build()` does not change the code already built. |
| CodeBuilder.BuildersAgree | src/main/java/com/simplerobot/modules/utils/CodeBuilder.kt:101-209 | For pairs that survive splitting, the string builder's text parses into the code the map builder builds. |
| KQCode.Length | src/main/java/com/simplerobot/modules/utils/KQCode.kt:163 | `length` is the length of `[CQ:` + type + `]`. |
| KQCode.CharAt | src/main/java/com/simplerobot/modules/utils/KQCode.kt:164 | `get(i)` is the `i`-th character of the text, or `StringIndexOutOfBoundsException` outside it. |
| KQCode.EmptyIsToCq | src/main/java/com/simplerobot/modules/utils/KQCode.kt:136-138 | The empty code's text is `toCq` with no parameters. |
| KQCode.EmptyAgreesWithMap | src/main/java/com/simplerobot/modules/utils/KQCode.kt:155-162 | Parsed by the eager codec, the empty code's text has no parameters, so lookups and size agree with the empty code's. |
| KQCode.EmptyAgreesWithFast | src/main/java/com/simplerobot/modules/utils/KQCode.kt:155-162 | The lazy codec over the empty code's text reads the same type and finds no key. |
| KQCode.Mutable | src/main/java/com/simplerobot/modules/utils/KQCode.kt:149 | `mutable()` parses the text again; for a type without `,` it is a mutable code of that type with no parameters. |
| KQCode.OfType | src/main/java/com/simplerobot/modules/utils/KQCode.kt:85 | `ofType(t)` renders `[CQ:` + t + `]` and has no parameters. |
| KQCode.Of | src/main/java/com/simplerobot/modules/utils/KQCode.kt:91 | `of(code)` is `FastKQCode.byCode(code)`: malformed framing throws `IllegalArgumentException`. |
| KQCodeObjects.AtAllFacts | src/main/java/com/simplerobot/modules/utils/KQCodeObjects.kt:30 | `AtAll` is framed, of type `at`, and `get("qq")` is `all`. |
| KQCodeObjects.AnonymousFacts | src/main/java/com/simplerobot/modules/utils/KQCodeObjects.kt:70 | `Anonymous` is of type `anonymous` and `get("ignore")` is `true`. |
| KQCodeObjects.AnonymousNoIgnoreFacts | src/main/java/com/simplerobot/modules/utils/KQCodeObjects.kt:75 | `AnonymousNoIgnore` is of type `anonymous` and `get("ignore")` is `false`. |
| KQCodeObjects.AtAll | src/main/java/com/simplerobot/modules/utils/KQCodeObjects.kt:30 | `AtAll` is the lazy code over `[CQ:at,qq=all]`. |
| KQCodeObjects.Anonymous | src/main/java/com/simplerobot/modules/utils/KQCodeObjects.kt:70 | `Anonymous` is the lazy code over `[CQ:anonymous,ignore=true]`. |
| KQCodeObjects.AnonymousNoIgnore | src/main/java/com/simplerobot/modules/utils/KQCodeObjects.kt:75 | `AnonymousNoIgnore` is the lazy code over `[CQ:anonymous,ignore=false]`. |
| KQCodeObjects.EmptySingletonsRender | src/main/java/com/simplerobot/modules/utils/KQCodeObjects.kt:37-52 | `Rps`, `Dice` and `Shake` render `[CQ:rps]`, `[CQ:dice]` and `[CQ:shake]` and have no parameters. |
| KQCodeObjects.AnonymousCompulsoryRenders | src/main/java/com/simplerobot/modules/utils/KQCodeObjects.kt:81 | `AnonymousCompulsory`'s type is the literal `[CQ:anonymous]`, so it renders `[CQ:[CQ:anonymous]]`. |
| MQCodeUtils.MqHeadOf | src/main/java/com/simplerobot/modules/utils/mqCodeUtils.kt:22-24 | The head `[mirai:` + type opens with `[` and holds no `]` when the type holds none. |
| MQCodeUtils.ToMqCode | src/main/java/com/simplerobot/modules/utils/mqCodeUtils.kt:38-55 | Parsing fails only with `IllegalArgumentException` or `StringIndexOutOfBoundsException`. A parsed type holds no `:` and a parsed parameter no `]`. |
| MQCodeUtils.ToMqLayout | src/main/java/com/simplerobot/modules/utils/mqCodeUtils.kt:32 | `toMq(t, p)` is `[mirai:`, `t`, `:`, `p` and `]`, at the positions the parser reads. |
| MQCodeUtils.ToMqRoundTrip | src/main/java/com/simplerobot/modules/utils/mqCodeUtils.kt:32-55 | Round trip: `toMqCode(toMq(t, p))` is `MQCode(t, p)` when `t` has no `:` or `]` and `p` no `]`. |
| MQCodeUtils.TokenParses | src/main/java/com/simplerobot/modules/utils/mqCodeUtils.kt:38-55 | A found mirai code parses exactly when it has a second `:`, else `IllegalArgumentException`; a parsed code renders back to itself. |
| MQCodeUtils.MiraiCodeHead | src/main/java/com/simplerobot/modules/utils/mqCodeUtils.kt:38-55 | In a mirai code the first `:` is at index 6 and the first `]` is the last character. |
| MQCodeUtils.MiraiCodeRenders | src/main/java/com/simplerobot/modules/utils/mqCodeUtils.kt:32-55 | A mirai code cut at its first two `:` and its `]` renders back to itself. |
| MQCodeUtils.GetMq | src/main/java/com/simplerobot/modules/utils/mqCodeUtils.kt:71-101 | Blank text gives null; a negative index throws `IndexOutOfBoundsException`; otherwise the `index`-th code of `getMqs`, or null. |
| MQCodeUtils.GetMqCode | src/main/java/com/simplerobot/modules/utils/mqCodeUtils.kt:120-127 | `getMqCode` is the code `getMq` finds, parsed, the parse's exception passed on. |
| MQCodeUtils.GetMqs | src/main/java/com/simplerobot/modules/utils/mqCodeUtils.kt:145-168 | Blank text has none; otherwise the mirai codes of the type, in order. |
| MQCodeUtils.ParseAll | src/main/java/com/simplerobot/modules/utils/mqCodeUtils.kt:178-201 | Parsing a list that succeeds yields one code per code string. |
| MQCodeUtils.ParseAllSnoc | src/main/java/com/simplerobot/modules/utils/mqCodeUtils.kt:178-201 | Parsing one more code string appends its code, or fails with its exception. |
| MQCodeUtils.ParseAllStops | src/main/java/com/simplerobot/modules/utils/mqCodeUtils.kt:178-201 | Once a code string fails, the strings after it are not parsed. |
| MQCodeUtils.ParseAllPointwise | src/main/java/com/simplerobot/modules/utils/mqCodeUtils.kt:178-201 | The list parses exactly when every code string does, each into its own code. |
| MQCodeUtils.ParseStep | src/main/java/com/simplerobot/modules/utils/mqCodeUtils.kt:189-199 | One iteration of `getMqCodes` appends the parsed code, or the whole call fails with that exception. |
| MQCodeUtils.GetMqCodes | src/main/java/com/simplerobot/modules/utils/mqCodeUtils.kt:178-201 | Blank text has none; otherwise the codes `getMqs` finds, each parsed, the first failure thrown. |
| MQCodeUtils.GetMqCodesRender | src/main/java/com/simplerobot/modules/utils/mqCodeUtils.kt:178-201 | Every code `getMqCodes` returns renders back to the text it was parsed from, when the type holds no `]`. |
| MQCodeUtils.Split | src/main/java/com/simplerobot/modules/utils/mqCodeUtils.kt:208-249 | `split` follows the same rules as `KQCodeUtils.split`, with head `[mirai:`. |
| MQCodeUtils.RemoveCode | src/main/java/com/simplerobot/modules/utils/mqCodeUtils.kt:256-339 | Null gives null; empty and too-short text come back unchanged. There is no check that a head occurs; otherwise the removal loop as written, `substring(sps + 1)` tail included. |
| MQCodeUtils.Remove | src/main/java/com/simplerobot/modules/utils/mqCodeUtils.kt:349 | `remove` is `removeCode` with no type, tail as written. |
| MQCodeUtils.RemoveByType | src/main/java/com/simplerobot/modules/utils/mqCodeUtils.kt:360 | `removeByType` is `removeCode` with the type, tail as written. |
| MQCodeUtils.RemovePlainDropsFirst | src/main/java/com/simplerobot/modules/utils/mqCodeUtils.kt:281-325 | `remove` drops the first character of any text of eight characters or more without a mirai code; as intended that text is unchanged. |
| MQCodeUtils.RemoveTypedKeepsParameter | src/main/java/com/simplerobot/modules/utils/mqCodeUtils.kt:284-288 | A typed match needs `]` right after `[mirai:` + type, so a code of the type that carries a parameter is not removed; when it opens the text `removeByType` still drops the first character. |
| MQCodeUtils.MqIter | src/main/java/com/simplerobot/modules/utils/mqCodeUtils.kt:368-417 | `getMqIter` iterates over exactly the codes `getMqs` finds. |
| MQCode.Decimal | src/main/java/com/simplerobot/modules/utils/codes/MQCode.kt:75-84 | The decimal text of an index has at least one digit, and two from 10 on. |
| MQCode.DecimalInjective | src/main/java/com/simplerobot/modules/utils/codes/MQCode.kt:75-84 | Different indices have different decimal texts. |
| MQCode.ParamKeyInjective | src/main/java/com/simplerobot/modules/utils/codes/MQCode.kt:75-84 | The keys `param$i` of different indices differ. |
| MQCode.ValueParses | src/main/java/com/simplerobot/modules/utils/codes/MQCode.kt:41-48 | `toMqCode` of the rendered text gives the type and joined parameters back when there are parameters, and `IllegalArgumentException` when there are none. |
| MQCode.ValueShape | src/main/java/com/simplerobot/modules/utils/codes/MQCode.kt:41-48 | The text is `toMq(type, params joined by ",")` with parameters, and `[mirai:` + type + `]` without. |
| MQCode.NoParamsRefused | src/main/java/com/simplerobot/modules/utils/codes/MQCode.kt:41-48 | A code without parameters renders a text that `toMqCode` refuses. |
| MQCode.SingleValue | src/main/java/com/simplerobot/modules/utils/codes/MQCode.kt:35-48 | A code with one parameter renders as the data class `MQCode(type, param)` does. |
| MQCode.ValueForgetsCuts | src/main/java/com/simplerobot/modules/utils/codes/MQCode.kt:41-45 | Rendering forgets where parameters were cut: one parameter `a,b` renders like two. |
| MQCode.IndexedPairs | src/main/java/com/simplerobot/modules/utils/codes/MQCode.kt:75-84 | One `param$i` pair per parameter. |
| MQCode.KQOfParam | src/main/java/com/simplerobot/modules/utils/codes/MQCode.kt:75-84 | In `toKQCode()`, each parameter is found under its `param$i` key and the type is kept. |
| MQCode.KQOfType | src/main/java/com/simplerobot/modules/utils/codes/MQCode.kt:75-84 | The type's own key holds the joined parameters, unless a `param$i` key equals the type. |
| MQCode.KQOfOther | src/main/java/com/simplerobot/modules/utils/codes/MQCode.kt:75-84 | No other key is present; a code without parameters has none at all. |
| MQCode.MqCode.constructor | src/main/java/com/simplerobot/modules/utils/codes/MQCode.kt:34 | The caller's array itself becomes the parameters, and `paramEmpty` records whether it is empty. |
| MQCode.MqCode.Single | src/main/java/com/simplerobot/modules/utils/codes/MQCode.kt:35-36 | Null gives no parameters; a value gives one. |
| MQCode.MqCode.GetParam | src/main/java/com/simplerobot/modules/utils/codes/MQCode.kt:60 | The slot's value inside the array; `IndexOutOfBoundsException` outside it. |
| MQCode.MqCode.SetParam | src/main/java/com/simplerobot/modules/utils/codes/MQCode.kt:53-55 | Writes one slot in place: `getParam(i)` is then the value, the other slots and the size are unchanged, and outside the array it fails and writes nothing. |
| MQCode.MqCode.Size | src/main/java/com/simplerobot/modules/utils/codes/MQCode.kt:65-70 | `size` is the number of parameters, zero exactly when `paramEmpty` is set. |
| MQCode.EqualsIff | src/main/java/com/simplerobot/modules/utils/codes/MQCode.kt:116-127 | Two codes are equal exactly when their types agree and their arrays hold the same parameters. |

## Left out

- `toCQCode()` of every code: it converts to a class of another library, which is not part of this model.
- The `CharSequence` plumbing (`subSequence`, and `get(index)` of the map and lazy codecs): delegation to the rendered text. `EmptyKQCode` keeps `length` and `get(index)`.
- `plus` (building `Msgs`), `hashCode` and the lazy caching of `MapKQCode.toString`: the cache is modelled as rendering on demand, which gives the same text while the type is not reassigned.
- The `type` setter of the immutable `MapKQCode` (`override var type`, codes/MapKQCode.kt:48): `MapCode` is a value whose type is fixed, so the model does not capture a reassigned type, nor that the cached `toString` then keeps the old type. The setter is modelled on `MutableMapCode`, whose `toString` is not cached.
- `MapKQCode.immutable()` and `MutableMapKQCode.mutable()`: both return the object itself.
- `byMap` / `mutableByMap`: the same as `byPair` over the map's entries.
- `MQCodeUtils.toMqCode(type, param)` (mqCodeUtils.kt:60): the `MiraiCode` constructor.
- `toKq`, `getKq` and `getKqs`: factories that only compose `EmptyKQCode`, `MapKQCode.byCode`, `FastKQCode.byCode`, `getCq` and `getCqs`, all modelled.
- `getStringBuilder`, `getKQCodeBuilder`, `getCqKeyIter`, `getCqValueIter` and `getCqPairIter`: one call each to a constructor that is modelled.
- The data class `MQCode.toKQCode` (mqCodeUtils.kt:452) and `replaceToCq` (mqCodeUtils.kt:421-427): they call a `KQCode(type, pair)` constructor that exists only in an older copy of the library.
- The older duplicate files (`kqCode.kt`, `fastKQCode.kt`, `kqCodeObjects.kt`, `mqCode.kt`, `treeKQCode.kt` and the commented-out root `MapKQCode.kt`): they redefine the classes modelled here.
- `CodeTemplate`, `KQCodeDsl`, `KQCodeJsonUtils`, `kqCodeMessageUtils`, `Msg` / `msg` and the configuration classes: these are not part of this model.
- Thread safety of `paramBuffer`: a single owner is modelled; concurrency is out of scope.
- Integers are unbounded. Text positions stay below the length of a Kotlin string, so the model ignores 32-bit overflow.
- `Character.isWhitespace` is modelled by an explicit list of code points (Java's whitespace and space separators), as `trim` and `isBlank` use them.
- The escapes of CR and LF: `\r` is written `&#10;` and `\n` is written `&#13;`, the reverse of their code points. The encoder and the decoder agree on this, so every round trip holds; the model keeps the source's table.
- KQIterators.TextIterator.Ahead: the codes still ahead are a ghost view of the cursor state. Its contracts relate that view to `getCqs`, not the cursor fields to positions.
- MapKQCode.ByCode: its own contract states only that keys are distinct. What it parses is stated by `ParseFields`, `FieldsParse`, `RenderSplits` and `RoundTrip`.
- MQCode.MqCode.ToString and MQCode.MqCode.ToKQCode: stated through the functions `Value` and `KQOf` and the lemmas about them.

## Findings

| source | as written | input that shows it | evidently intended | confidence | as-written member | corrected member |
|---|---|---|---|---|---|---|
| src/main/java/com/simplerobot/modules/utils/KQCodeUtils.kt:641-642 | The text after the last removed code is `substring(sps + 1)` even when no code was removed, so `sps` is still 0 and the first character is lost. | `removeCode("", "ab[CQ:x")` (a head with no `]`) gives `"b[CQ:x"` | the text after the last removed code, which is the whole text when nothing was removed | not executed; high | KQCodeUtils.RemoveUnclosedDropsFirst | Removal.NothingCut |
| src/main/java/com/simplerobot/modules/utils/mqCodeUtils.kt:324-325 | The same tail, and the mirai copy has no `contains(head)` check, so any text without a mirai code loses its first character. | `remove("hello world")` gives `"ello world"` | text without codes comes back unchanged | not executed; high | Removal.MiraiPlainText | Removal.RemovedIntendedNoHead |
| src/main/java/com/simplerobot/modules/utils/codes/FastKQCode.kt:108-111 | `containsKey` returns false when `empty` is set, and `empty` is `code.contains(",")` (line 70). The search for `",key="` therefore runs only on text without `,`, where it cannot succeed. | `containsKey("qq")` on `[CQ:at,qq=1]` gives false | `containsKey(k)` holds exactly when `get(k)` finds a value | not executed; high | FastKQCode.ContainsKeyNever | FastKQCode.ContainsKeyIntendedFinds |

`removeCode`, `remove` and `removeByType`, in both copies, are modelled as
written, through `Removal.Removed` and its `substring(sps + 1)` tail. The
corrected definition is `Removal.RemovedIntended`, whose tail is the whole
text when nothing was removed; the lemmas named above prove what it
promises and show where the two differ. `FastKQCode`'s `isEmpty`, `containsValue` and the `contains` /
`containsAll` of its views are modelled as written. The intended
`containsKey` is `FastKQCode.ContainsKeyIntended`.
