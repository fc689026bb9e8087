# Masked-email editor text format and CSV export, in Dafny

This project models the text-processing core of a small Fastmail JMAP
client. The client manages masked e-mail addresses, and two of its
scripts are modelled:

* `scripts/masked-email.js` lets a user edit their masked e-mails in a text
  editor. The records are serialized to a text of numbered blocks:
  `[k/n] <email> (id: <id>)`, followed by the lines `  description: …`,
  `  forDomain: …` and `  url: …`. The blocks are separated by a blank line.
  After editing, the text is parsed back line by line. Every block is paired
  with an original record by its id, using a cursor that only moves forward.
  The blocks that change something go into the update object, keyed by id.
* `scripts/read.js` exports the records as CSV. Each row holds the nine
  `FIELDS` cells, each cell escaped by `fieldToCsv`, joined by `;`.

Modules:

* `JsValues` (`js_values.dfy`): JavaScript property values. A record is a
  map from keys to `Null` or `Str(s)`, and a missing key reads as `undefined`.
* `JsText` (`js_text.dfy`): the JavaScript string operations the scripts rely
  on. These are `split`, `join`, `trim`, a first-occurrence `replace`,
  `filter`, and the ECMAScript `\s` class.
* `LineGrammar` (`line_grammar.dfy`): the two regular expressions of `parse`.
  Each is a hand-written matcher plus a declarative shape predicate, with
  soundness and completeness lemmas between the two.
* `Serializer` (`serializer.dfy`): the `fmt` tag, `toString`, and the block
  layout built inside `edit`. `fmt` is a method with loops, proved against
  the function `Formatted`.
* `Parser` (`parser.dfy`): `parse`, its `add` closure and `hasChanged`. Each
  is a method with loops. `Parse` and `Add` are proved against functions on
  `ParseState`, the tuple of `parse`'s local variables; `HasChanged` is
  proved against the predicate `Changed` on a record and a block.
* `EditRoundTrip` (`edit_round_trip.dfy`): what parsing the serialized text
  of edited records against the originals yields. The no-edit round trip is
  the special case in which nothing is reported.
* `CsvExport` (`csv_export.dfy`): `fieldToCsv`, the data rows and the header
  row of `read.js`.

Points worth noting about the code:

* `maskedEmails[i].id` throws a `TypeError` once the cursor runs past the
  last record (scripts/masked-email.js:131-133). The model returns
  `CorrelationFailure(id)` there.
* For a changed id, `add` stores the whole parsed block map, not only the
  fields that differ (scripts/masked-email.js:136).
* The header pattern needs a space before `(id:`
  (scripts/masked-email.js:145).
* The field pattern drops all of the value's leading white space
  (scripts/masked-email.js:151).

## Model

| member | source | states |
|---|---|---|
| Serializer.Fmt | scripts/masked-email.js:100-120 | the `fmt` method (concatenation loop, first-line indent captured once, two filters, join, trim) returns exactly `Formatted` of its pieces |
| Serializer.Concatenate | scripts/masked-email.js:101-105 | the accumulating loop gives the template pieces interleaved with the values: `strs[0] + vars[0] + strs[1] + …` |
| Serializer.DedentLines | scripts/masked-email.js:107-116 | the `map` with the mutable `indent` removes, from every line, the first occurrence of the first line's leading white space |
| Serializer.DedentBy | scripts/masked-email.js:115 | de-indenting keeps the number of lines and replaces only the first occurrence of the indent in each line, wherever it lies |
| Serializer.Formatted | scripts/masked-email.js:117-119 | the result of `fmt` is empty or begins and ends with a non-space character |
| JsText.TrimParts | scripts/masked-email.js:119 | `trim` returns a slice of its input and removes only white space on either side |
| Serializer.TemplateSplit | scripts/masked-email.js:92-97 | splitting the filled `toString` template at newlines gives an empty line, the four indented record lines and a last line of two spaces |
| Serializer.RecordNonEmpty | scripts/masked-email.js:109-110 | `filter(Boolean)` drops only the leading empty line of the template |
| Serializer.ShownRecord | scripts/masked-email.js:111-117 | de-indenting by the header's four spaces leaves the header flush and the field lines indented by two; the blank last line is dropped |
| Serializer.TrimRecord | scripts/masked-email.js:118-119 | the final `trim` only removes the trailing space of an empty `url:` line |
| Serializer.FormatsRecord | scripts/masked-email.js:92-119 | `fmt` on the record template yields `<email> (id: <id>)`, `  description: d`, `  forDomain: f`, and `  url: u` (or `  url:` when u is empty), joined by newlines |
| Serializer.ToStringLines | scripts/masked-email.js:91-98 | `toString` of a serializable record is its four lines joined by `\n`; a null or missing url shows as an empty value |
| Serializer.CounterChars | scripts/masked-email.js:58 | the `[k/n] ` prefix starts with `[`, ends with a space and holds no white space, colon or line terminator before that |
| Serializer.BlockSplit | scripts/masked-email.js:56-58 | a numbered block splits into the header line `[k/n] <email> (id: <id>)` and the three field lines |
| Serializer.SerializedLayout | scripts/masked-email.js:56-59 | the whole editor text splits into the blocks' lines in record order, with exactly one empty line between neighbouring blocks |
| LineGrammar.MatchHeaderSound | scripts/masked-email.js:145 | a captured id comes from a header shape `pre + " (id: " + id + ")"`: `pre` starts with a non-space character and holds no line terminator, and `id` is non-empty and free of white space |
| LineGrammar.MatchHeaderComplete | scripts/masked-email.js:145 | every line of header shape matches, and the match captures its id |
| LineGrammar.HeaderShapeUnique | scripts/masked-email.js:145 | a header line has only one decomposition, so the captured id is determined |
| LineGrammar.MatchFieldSound | scripts/masked-email.js:151 | a field match comes from a greedy decomposition: white space, key, colon, white space, then a value that starts with a non-space and holds no terminator |
| LineGrammar.MatchFieldComplete | scripts/masked-email.js:151 | every field-shaped line matches, with a key at least as long as the shape's key (the key capture is greedy) |
| LineGrammar.MatchFieldExact | scripts/masked-email.js:151 | a greedy field decomposition is exactly what the pattern captures |
| LineGrammar.NoColonNoField | scripts/masked-email.js:151 | a line whose first word holds no colon is not a field line |
| Parser.HasChanged | scripts/masked-email.js:166-171 | the early-return loop answers true iff some key of the block holds a value strictly different from the original's (a key the original lacks always differs) |
| Parser.SeekFrom | scripts/masked-email.js:131-133 | the seek finds the first record at or after the cursor with the id, and none exists iff it fails |
| Parser.Flushed | scripts/masked-email.js:128-142 | with no id open, `add` changes nothing. Otherwise it fails with `CorrelationFailure(id)` iff no record from the cursor on has the id; on success the cursor stops at the first such record, and the id and block are reset |
| Parser.FlushedUpdates | scripts/masked-email.js:135-137 | after `add`, the id is in the update object iff it was before or the block changed; the stored value is the whole block; every other entry is unchanged |
| Parser.Add | scripts/masked-email.js:128-142 | the `add` method, with its bounded seek loop, computes `Flushed` |
| Parser.Parse | scripts/masked-email.js:122-164 | the `parse` method (line loop, header and field handling, final `add`) computes `Parsed` |
| Parser.StepHeader | scripts/masked-email.js:145-149 | a header line first runs `add`, then opens its id, and is still offered to the field pattern |
| Parser.StepField | scripts/masked-email.js:151-158 | a field-shaped line with no header shape, indented or not, sets its key in the current block (null for an empty url), overwriting an earlier value, and changes nothing else |
| Parser.StepOther | scripts/masked-email.js:144-159 | a line with neither the header shape nor the field shape (a blank line, any line without a colon) leaves every variable of `parse` unchanged |
| Parser.FeedAppend | scripts/masked-email.js:144-159 | reading two runs of lines is reading the first, then the second |
| Parser.StepCursor | scripts/masked-email.js:131-133 | one line never moves the cursor back |
| Parser.FeedCursor | scripts/masked-email.js:124-159 | the cursor only ever increases over the whole loop |
| Parser.FirstHeaderKeepsFields | scripts/masked-email.js:128-148 | with no id open, a header-shaped line whose first word holds no colon only opens its id: the cursor, the block read so far and the update object are unchanged, so field lines before the first header go into the first block |
| Parser.RepeatedIdKeepsCursor | scripts/masked-email.js:131-133 | when the record under the cursor already has the id, the seek succeeds without moving |
| Parser.FlushJustified | scripts/masked-email.js:135-137 | `add` only stores blocks that change the record they are paired with |
| Parser.StepJustified | scripts/masked-email.js:144-159 | every line preserves that invariant |
| Parser.ParsedChangesAreReal | scripts/masked-email.js:122-164 | every id `parse` reports names an original record whose block changes it |
| EditRoundTrip.ChangedIffEdited | scripts/masked-email.js:166-171 | the block of an editable record changes an original iff description, forDomain or url differ |
| EditRoundTrip.UneditedUnchanged | scripts/masked-email.js:166-171 | the block of an editable record never changes the record itself |
| EditRoundTrip.EditableSerializable | scripts/masked-email.js:91-98 | an editable record lays out as its four lines |
| EditRoundTrip.HeaderLine | scripts/masked-email.js:58 | the first line of a numbered block is a header that captures the record's id, and it is no field line |
| EditRoundTrip.TextFieldStep | scripts/masked-email.js:151-157 | a serialized field line `  key: v` with single-line `v` sets exactly `key` to the stored form of `v`: the string `v`, or null for an empty url |
| EditRoundTrip.UrlFieldStep | scripts/masked-email.js:153-156 | the url line gives back the record's url: an empty url line becomes null again |
| EditRoundTrip.SeekBlock | scripts/masked-email.js:131-133 | with distinct ids in unchanged order, block k's seek lands on original k |
| EditRoundTrip.FlushAfter | scripts/masked-email.js:128-142 | closing block k-1 leaves the cursor at k-1 and the update object of the first k records |
| EditRoundTrip.BlockStep | scripts/masked-email.js:144-159 | reading one numbered block moves the parse from record k to record k+1 |
| EditRoundTrip.LayoutStep | scripts/masked-email.js:144-159 | reading the blocks of records k.. from the state before block k ends with the last block open and the updates of all earlier records collected |
| EditRoundTrip.NoChanges | scripts/masked-email.js:166-171 | when every record is paired with its own unedited block, no update is expected |
| EditRoundTrip.ChangesUpToKeys | scripts/masked-email.js:135-137 | the expected update object holds an id iff some record among the first n is edited and has that id |
| EditRoundTrip.ChangesUpToValue | scripts/masked-email.js:136 | for an edited record, the expected update object holds its whole new block |
| EditRoundTrip.EditsAreDetected | scripts/masked-email.js:55-67 | parsing the serialized edited records against the originals yields the expected update object |
| EditRoundTrip.EditedRecordsReported | scripts/masked-email.js:55-67 | parsing succeeds, reports exactly the ids of the edited records, and stores each one's whole block |
| EditRoundTrip.RoundTrip | scripts/masked-email.js:55-67 | serializing editable records with distinct ids and parsing the text unedited yields an empty update object |
| CsvExport.DoubledCount | scripts/read.js:48 | the global backslash replace doubles the number of backslashes and keeps the count of every other character |
| CsvExport.DoubledLength | scripts/read.js:48 | doubling adds exactly one character per backslash of the input |
| CsvExport.DoubleAppend | scripts/read.js:48 | the global replace works piecewise: doubling a concatenation doubles each part |
| CsvExport.NoQuoteEscaped | scripts/read.js:49 | without a `"`, the quote replace changes nothing |
| CsvExport.FirstQuoteEscaped | scripts/read.js:48-49 | only the first `"` gets a backslash and later quotes stay as they are; the inserted backslash is not doubled |
| CsvExport.EscapedChars | scripts/read.js:48-49 | escaping keeps the count of every character other than the backslash (the quote count included) |
| CsvExport.UnescapeEscaped | scripts/read.js:48-49 | reading `\x` as `x` undoes the escaping, so no information is lost |
| CsvExport.CellShape | scripts/read.js:46-51 | a cell always starts and ends with `"`, and it is `""` iff the field is undefined, null or empty |
| CsvExport.PlainCell | scripts/read.js:50 | a value with no `\` and no `"` is wrapped in quotes unchanged |
| CsvExport.CellLength | scripts/read.js:46-51 | the cell length is the value length, plus the number of backslashes, plus one if there is a `"`, plus two |
| CsvExport.CellDecodes | scripts/read.js:46-51 | removing the quotes and undoing the escaping gives back every field that is present and neither null nor empty |
| CsvExport.CellNoSeparator | scripts/read.js:46-51 | a cell holds a `;` only when its value does |
| CsvExport.RowCells | scripts/read.js:24-26 | when no value holds a `;`, splitting a data row at `;` gives the nine cells in `FIELDS` order |
| CsvExport.HeaderCells | scripts/read.js:22 | splitting the header row at `;` gives the nine `FIELDS` names in order |

## Left out

- Input and output are not modelled: `main`, `getMaskedEmails`, `updateMaskedEmails`, the console, the HTTP client and the JMAP calls. The text the editor saves is a parameter of `Parsed`, and the round-trip lemmas take it to be the serialized text.
- The temporary directory and file, and spawning the editor (`edit` lines 60-66, `editFile`), are file-system and process I/O.
- The `localeCompare` sort of the records (scripts/masked-email.js:37) depends on the locale's collation. Records are taken in the order given.
- Property values are strings, null or absent. Numbers, booleans and objects are not modelled. Interpolating null or undefined gives `"null"` or `"undefined"`, as in JavaScript.
- JavaScript strings are sequences of UTF-16 code units. The model uses `seq<char>` and does not model surrogate pairs.
- A field line whose key is `__proto__` or another key with a special meaning on plain JavaScript objects is modelled as an ordinary key.
- `Object.keys` iterates in insertion order. `Changed` quantifies over the keys instead, since `hasChanged`'s answer does not depend on the order.
- EditRoundTrip.RoundTrip: holds for records that are editable and have distinct ids. Editable means all of the following. The e-mail is non-empty, has no leading white space and holds no line terminator. The id is a non-empty string with no white space. The description and the forDomain are strings, each holding no line terminator and not starting with white space. The `url` key is present, and its value is either null or a non-empty string that holds no line terminator and neither starts nor ends with white space. Without the conditions on the id, the fields and the url, a value can change on its way through `fmt` or the patterns. Without distinct ids, a block can be paired with the wrong record. The e-mail conditions are narrower than the source needs. They serve the exact four-line layout of `toString` (Serializer.ToStringLines), which assumes a four-space indent.
- EditRoundTrip.EditsAreDetected: carries the same e-mail conditions. An empty e-mail, or one led by white space, makes `fmt` strip a longer indent. The records still round-trip in the source, unless that indent occurs inside a field value, but the model does not cover those records.
- EditRoundTrip.EditedRecordsReported: carries the same e-mail conditions, for the same reason.
- CsvExport.RowCells: is stated only for values without `;`. The row format has no way to tell a `;` inside a quoted cell from a separator once the row is split naively.
- CsvExport.CellDecodes: a null field and an empty string both give `""`, so the decoding returns the field only when it is neither.
- LineGrammar.MatchFieldComplete: states only that the captured key is at least as long as the shape's key. MatchFieldExact gives the exact captures for the greedy shape.
