# influxdb-line-protocol encoder, modelled in Dafny

This project models the encoder of the Rust crate `influxdb-line-protocol`, which writes one
data point in the InfluxDB v2 line protocol. A point has these parts:

- a measurement name;
- an ordered list of tags (key and value);
- an ordered list of fields (key and `FieldValue`);
- an optional `i64` timestamp.

The encoder writes all of this as one line to a `core::fmt::Write` sink in a single
left-to-right pass. The first rule the point breaks stops the pass with an `Error`, and
nothing already written is taken back.

Modules, one per source file:

- `Errors` (`src/error.rs`): the error kinds, plus `Result` and `Option`.
- `Primitives`: the machine integer ranges `i64` and `u64`, the UTF-8 byte length that
  `str::len()` returns, the decimal text Rust's `Display` writes for integers, and
  backslash escaping over a set of special characters. The crate escapes with three
  sets: `,` and space in a measurement, `,`, `=` and space in keys and tag values, `"`
  and `\` in a string field value.
- `Writers`: the sink, a class holding the text appended so far. Its appends cannot fail,
  as with a `String`.
- `FieldValues` (`src/field_value.rs`): the five-variant `FieldValue` and `to_writer`.
- `LineProtocol` (`src/lib.rs`):
  - `Encode`, a specification function. It gives the text the pass appends, partial text
    included, and the result it returns.
  - The source's procedures `to_writer`, `to_string`, `escape` and `check_string_length`.
    `ToWriter` is proved to keep the sink's earlier text, append exactly `Encode`'s text
    and return `Encode`'s result.
  - `Escape` and each loop of the pass are proved against the matching step of `Encode`:
    `Escaped`, `EncodeTag(s)` or `EncodeField(s)`.
  - `ToString` returns the text `ToWriter` appends to an empty string, or its error.
- `LineGrammar`: an independent reference for the encoder.
  - `Validate` and `ValidPoint` state the naming, length and newline rules.
  - `Line` is the unchecked text of a point.
  - Theorems connect `Encode` to both: the result it returns, the text it writes, and where
    it stops.
- `DataPoints` (`src/data_point.rs`): the `DataPoint` value and its own copy of the pass
  (`into_writer`, `into_string`, its local `escape`). It is proved against the same
  specification.
- `Scenarios`: the six worked examples of `src/tests.rs:4-85`, which
  `src/data_point/tests.rs:13-76` repeats for `DataPoint`, each as a whole line.
  - Names, keys, plain values and the timestamp are parameters.
  - The emoji example keeps its two literal values.
  - A few supporting facts sit beside them. These are not crate examples: escaping of
    spaces, `=` and `\` (`EscapeSpace`, `MeasurementKeepsEquals`), and unchecked string
    field values (`FieldStringUnchecked`).

The code is followed wherever it differs from the crate's own tests. A string field value
gets no length check and no newline check: `FieldValue::to_writer` copies it straight
through, escaping only `"` and `\`. Four tests expect `StringLengthLimit` or `Newline` for
such values:

- `src/tests.rs:105-131`;
- `src/data_point/tests.rs:104-132`.

`Scenarios.FieldStringUnchecked` states what the code actually does instead.

## Model

| member | source | states |
|---|---|---|
| Primitives.CharUtf8Len | influxdb-line-protocol/src/lib.rs:126 | one character takes 1 to 4 bytes of UTF-8, and exactly 1 when it is ASCII |
| Primitives.Utf8Len | influxdb-line-protocol/src/lib.rs:126 | the byte length `len()` measures lies between the character count and four times it |
| Primitives.AsciiUtf8Len | influxdb-line-protocol/src/lib.rs:126 | on ASCII text the byte length is the character count |
| Primitives.Utf8LenRepeat | influxdb-line-protocol/src/lib.rs:126 | `n` copies of a character take `n` times its byte length |
| Primitives.Utf8LenAppend | influxdb-line-protocol/src/lib.rs:126 | the byte length of a concatenation is the sum of the byte lengths |
| Primitives.NatText | influxdb-line-protocol/src/lib.rs:86 | the decimal text of a natural number is non-empty, all digits, and has no leading zero unless the number is 0 |
| Primitives.IntText | influxdb-line-protocol/src/field_value.rs:19 | the decimal text of an integer starts with `-` exactly when it is negative, and otherwise with a digit |
| Primitives.NatTextValue | influxdb-line-protocol/src/field_value.rs:20 | the digits of a natural number's text denote that number |
| Primitives.IntTextRoundTrip | influxdb-line-protocol/src/field_value.rs:19 | reading back an integer's decimal text gives the integer |
| Primitives.IntTextInjective | influxdb-line-protocol/src/lib.rs:86 | distinct integers (and so distinct timestamps) have distinct texts |
| Primitives.EscapeAllAppend | influxdb-line-protocol/src/lib.rs:113-121 | the escaping loops work character by character: the escape of a concatenation is the concatenation of the escapes, for any special set |
| Primitives.UnescapeEscapeAll | influxdb-line-protocol/src/lib.rs:113-121 | escaped text is read back as the original, for the key set, the measurement set and the string-value set alike |
| Primitives.EscapeAllInjective | influxdb-line-protocol/src/lib.rs:113-121 | distinct texts are escaped to distinct texts, so distinct keys are written differently |
| Primitives.EscapeAllLength | influxdb-line-protocol/src/lib.rs:116-119 | each special character costs exactly one extra `\` and nothing else changes length |
| Primitives.EscapeAllPlain | influxdb-line-protocol/src/lib.rs:119 | text without special characters, non-ASCII included, is copied unchanged |
| Primitives.EscapeAllFixedPoint | influxdb-line-protocol/src/field_value.rs:23-29 | escaping leaves a text unchanged exactly when it holds no special character |
| FieldValues.WriteTo | influxdb-line-protocol/src/field_value.rs:13-41 | the writer gains exactly the value's text: `Ni`, `Nu`, `true`/`false`, or the string in quotes with each `"` and `\` escaped, copied character by character |
| FieldValues.QuotedShape | influxdb-line-protocol/src/field_value.rs:21-32 | a rendered string value starts and ends with `"` and is `len + 2 + (number of " and \)` characters long |
| FieldValues.RenderRoundTrip | influxdb-line-protocol/src/field_value.rs:17-40 | every non-float value is recovered from its text: the `i`/`u` suffixes, the boolean words and the quoting are unambiguous |
| FieldValues.RenderInjective | influxdb-line-protocol/src/field_value.rs:17-40 | distinct non-float values render to distinct text |
| FieldValues.EscapeStringOccurrences | influxdb-line-protocol/src/field_value.rs:25-26 | each `"` and `\` becomes two characters from that same pair |
| FieldValues.EscapeStringNotIdempotent | influxdb-line-protocol/src/field_value.rs:86-89 | escaping an escaped string that held a `"` or a `\` changes it again |
| FieldValues.RenderRendered | influxdb-line-protocol/src/field_value.rs:86-89 | rendering a rendered string escapes its outer quotes and re-escapes every earlier escape |
| FieldValues.RenderQuotedWord | influxdb-line-protocol/src/field_value.rs:82-85 | a value `"w" r` (no quote or backslash in `w`, `r`) is written `"\"w\" r"` |
| LineProtocol.CheckStringLength | influxdb-line-protocol/src/lib.rs:125-131 | succeeds exactly when the UTF-8 byte length is at most 65536 (inclusive), and otherwise fails with `StringLengthLimit` |
| LineProtocol.NewlineIndex | influxdb-line-protocol/src/lib.rs:113-115 | the position where the escaping loop meets its first newline, or the end when there is none |
| LineProtocol.Escape | influxdb-line-protocol/src/lib.rs:109-123 | appends each character with `,`, `=` and space escaped, up to the first newline, and returns `Newline` there, otherwise `Ok` |
| LineProtocol.WriteMeasurement | influxdb-line-protocol/src/lib.rs:43-50 | the measurement loop escapes only `,` and space, copies `=` and `\`, and stops with `Newline` at a newline |
| LineProtocol.WriteTag | influxdb-line-protocol/src/lib.rs:53-61 | one tag appends `,`, then checks the key's length and leading `_`, escapes the key, writes `=`, checks the value's length and escapes the value, stopping at the first failure |
| LineProtocol.WriteField | influxdb-line-protocol/src/lib.rs:66-77 | one field appends a space (first field) or `,`, checks and escapes the key, writes `=` and the rendered value |
| LineProtocol.WriteTags | influxdb-line-protocol/src/lib.rs:52-62 | the tag loop writes the tags in input order and stops at the first failing one |
| LineProtocol.WriteFields | influxdb-line-protocol/src/lib.rs:64-80 | the field loop writes the fields in input order, stops at the first failing one, and counts every field when it succeeds |
| LineProtocol.ToWriter | influxdb-line-protocol/src/lib.rs:27-91 | `to_writer` only appends: the sink's earlier text is kept, followed by exactly `Encode`'s text, and the result is `Encode`'s result |
| LineProtocol.ToString | influxdb-line-protocol/src/lib.rs:93-106 | `to_string` returns the text `to_writer` appends to an empty string, or its error |
| LineGrammar.EscapedResult | influxdb-line-protocol/src/lib.rs:113-122 | an escaping loop fails exactly on text holding a newline, always with `Newline`, and otherwise writes the whole escaped text |
| LineGrammar.EscapedCovers | influxdb-line-protocol/src/lib.rs:113-122 | on failure an escaping loop has written the start of the escaped text |
| LineGrammar.ThenCovers | influxdb-line-protocol/src/lib.rs:39-90 | two steps sequenced under `?` write the start of their texts joined |
| LineGrammar.CheckName | influxdb-line-protocol/src/lib.rs:39-50 | a name passes exactly when it is within 64 KiB, has no leading `_` and no newline, and fails only with those three errors |
| LineGrammar.CheckTagValue | influxdb-line-protocol/src/lib.rs:60-61 | a tag value passes exactly when it is within 64 KiB and has no newline; a leading `_` is allowed |
| LineGrammar.CheckTags | influxdb-line-protocol/src/lib.rs:52-62 | a tag list passes exactly when every tag does |
| LineGrammar.CheckFieldKeys | influxdb-line-protocol/src/lib.rs:71-75 | a field list passes exactly when every key does |
| LineGrammar.Validate | influxdb-line-protocol/src/lib.rs:39-83 | a point passes exactly when it follows every rule and has at least one field |
| LineGrammar.EncodeTagResult | influxdb-line-protocol/src/lib.rs:53-61 | a tag's verdict is the first rule it breaks, the key before the value |
| LineGrammar.EncodeTagText | influxdb-line-protocol/src/lib.rs:53-61 | a tag writes `,key=value` escaped on success, and otherwise the start of it |
| LineGrammar.EncodeTagsResult | influxdb-line-protocol/src/lib.rs:52-62 | the tag loop's verdict is the first rule broken by the tags, in order |
| LineGrammar.EncodeTagsText | influxdb-line-protocol/src/lib.rs:52-62 | the tag loop writes the tags' text in order, or the start of it |
| LineGrammar.EncodeFieldResult | influxdb-line-protocol/src/lib.rs:66-77 | a field's verdict depends only on its key; the value is never checked |
| LineGrammar.EncodeFieldText | influxdb-line-protocol/src/lib.rs:66-77 | a field writes its separator, `key=` and the rendered value, or the start of that |
| LineGrammar.EncodeFieldsResult | influxdb-line-protocol/src/lib.rs:64-80 | the field loop's verdict is the first key that breaks a rule |
| LineGrammar.EncodeFieldsText | influxdb-line-protocol/src/lib.rs:64-80 | the field loop writes a space and the comma-joined field texts, or the start of that |
| LineGrammar.JoinStep | influxdb-line-protocol/src/lib.rs:66-70 | the comma-joined field text is the first field, then a comma and the rest when there is more |
| LineGrammar.FinishText | influxdb-line-protocol/src/lib.rs:85-90 | with at least one field, the line ends with ` timestamp` when there is one and then exactly one newline |
| LineGrammar.EncodeResult | influxdb-line-protocol/src/lib.rs:27-91 | `to_writer` returns exactly the first rule the point breaks: measurement, then tags, then field keys, then the empty field set |
| LineGrammar.EncodeText | influxdb-line-protocol/src/lib.rs:27-91 | the text `to_writer` appends is always the start of the unchecked line, and the whole line on success |
| LineGrammar.EncodeValid | influxdb-line-protocol/src/lib.rs:27-91 | a point that breaks no rule is written in full as `measurement[,tags] fields[ timestamp]` and a newline |
| LineGrammar.AsciiLengthLimit | influxdb-line-protocol/src/lib.rs:125-131 | on ASCII text the limit allows exactly 65536 characters |
| LineGrammar.WideLengthLimit | influxdb-line-protocol/src/lib.rs:125-131 | 16384 four-byte characters pass the limit and 16385 fail it, so the limit counts bytes |
| LineGrammar.MeasurementChecksFirst | influxdb-line-protocol/src/lib.rs:39-42 | an over-long or `_`-prefixed measurement fails before anything is written, the length check first |
| LineGrammar.MeasurementNewline | influxdb-line-protocol/src/lib.rs:43-50 | a newline in the measurement stops the pass after the escaped text before it |
| LineGrammar.NewlineIndexFirst | influxdb-line-protocol/src/lib.rs:45 | the escaping loop stops at the first newline |
| LineGrammar.EncodeTagsSplit | influxdb-line-protocol/src/lib.rs:52-62 | acceptable tags are written one after another and the loop goes on with the next tag |
| LineGrammar.TagKeyUnderscore | influxdb-line-protocol/src/lib.rs:53-57 | a tag key with a leading `_` fails with `NamingRestrictions` after the measurement, the earlier tags and that tag's comma have been written |
| LineGrammar.EncodeFieldsSplit | influxdb-line-protocol/src/lib.rs:64-80 | fields with acceptable keys are written one after another, the first with its separator and the rest comma-joined, and the loop goes on with the next field |
| LineGrammar.FieldKeyUnderscore | influxdb-line-protocol/src/lib.rs:65-74 | a field key with a leading `_` fails with `NamingRestrictions` after the measurement, the tags, the earlier fields and that field's separator (space or comma) have been written |
| LineGrammar.NoFields | influxdb-line-protocol/src/lib.rs:81-83 | with no fields only the measurement and the tags are written, and the result is `EmptyFieldSet` |
| DataPoints.Escape | influxdb-line-protocol/src/data_point.rs:88-102 | the local `escape` appends each character with `,`, `=` and space escaped, up to the first newline, and returns `Newline` there |
| DataPoints.WriteMeasurement | influxdb-line-protocol/src/data_point.rs:29-36 | the measurement loop escapes `,` and space and stops with `Newline` at a newline |
| DataPoints.WriteTag | influxdb-line-protocol/src/data_point.rs:39-47 | one tag appends `,`, checks the key's length and leading `_`, escapes the key, writes `=`, checks the value's length and escapes the value, stopping at the first failure |
| DataPoints.WriteField | influxdb-line-protocol/src/data_point.rs:52-63 | one field appends a space (first field) or `,`, checks and escapes the key, writes `=` and the rendered value |
| DataPoints.WriteTags | influxdb-line-protocol/src/data_point.rs:38-48 | the tag loop writes the tags in order and stops at the first failing one |
| DataPoints.WriteFields | influxdb-line-protocol/src/data_point.rs:50-66 | the field loop writes the fields in order, stops at the first failing one, and counts every field when it succeeds |
| DataPoints.IntoWriter | influxdb-line-protocol/src/data_point.rs:21-77 | `into_writer` keeps the sink's text, appends exactly what `to_writer` would for the same parts, and returns the same result |
| DataPoints.IntoString | influxdb-line-protocol/src/data_point.rs:79-84 | `into_string` returns the text `into_writer` appends to an empty string, or its error |
| Scenarios.MeasurementKeepsEquals | influxdb-line-protocol/src/lib.rs:43-50 | `=` and `\` are copied into a measurement, while `=` in a key gets a `\` |
| Scenarios.EscapeSpace | influxdb-line-protocol/src/lib.rs:118 | a space between two words without special characters gets a single `\`, in either escape set |
| Scenarios.OneFieldLine | influxdb-line-protocol/src/lib.rs:27-91 | a valid point with any tags and one field is written as the escaped measurement, the tags, ` key=value`, the timestamp and a newline |
| Scenarios.OneTagText | influxdb-line-protocol/src/lib.rs:52-62 | one tag is written `,key=value`, both escaped |
| Scenarios.TwoTagsText | influxdb-line-protocol/src/lib.rs:52-62 | two tags are written one after the other, each `,key=value` |
| Scenarios.PlainTagsAndTimestamp | influxdb-line-protocol/src/tests.rs:6-18 | two plain tags, a plain string field and a timestamp give `m,k1=v1,k2=v2 key="s" ts` and a newline |
| Scenarios.StringFieldLine | influxdb-line-protocol/src/lib.rs:27-91 | with no tags and no timestamp, one string field gives the escaped measurement, ` key="escaped value"` and a newline |
| Scenarios.SpacedMeasurement | influxdb-line-protocol/src/tests.rs:19-28 | a measurement `a b` with a plain string field is written `a\ b key="s"` and a newline |
| Scenarios.QuotedWordField | influxdb-line-protocol/src/tests.rs:29-44 | a string field `"w" r` is written `m key="\"w\" r"` and a newline |
| Scenarios.SpacedWords | influxdb-line-protocol/src/lib.rs:118 | a key or tag value of two words joined by a space is written with that space escaped |
| Scenarios.SpacedTags | influxdb-line-protocol/src/tests.rs:45-57 | two tags whose keys and values hold a space are written with every space escaped, `m,a\ b=c\ d,e\ f=g\ h key=` and the float's text |
| Scenarios.OneTagLine | influxdb-line-protocol/src/lib.rs:27-91 | one plain tag, a plain string field and a timestamp give `m,k=v key="s" ts` and a newline |
| Scenarios.EmojiPlain | influxdb-line-protocol/src/tests.rs:58-70 | the lollipop and rocket emoji are outside every escape set, and the lollipop is a valid tag value |
| Scenarios.EmojiLine | influxdb-line-protocol/src/tests.rs:58-70 | the emoji line `m,k=🍭 key="Launch 🚀" ts` is written with both emoji copied unchanged |
| Scenarios.TwoFields | influxdb-line-protocol/src/tests.rs:72-84 | two fields are written `m k1=v1,k2=v2`: a space before the first, a comma before the second |
| Scenarios.FieldStringUnchecked | influxdb-line-protocol/src/field_value.rs:21-32 | a string field value of any length, newline included, never makes the pass fail, whatever the tags and timestamp, and its newline is copied into the line |
| Scenarios.EscapeStringKeepsNewline | influxdb-line-protocol/src/field_value.rs:27 | a newline in a string field value survives escaping |

## Left out

- Float rendering: `Float` carries the IEEE-754 bits, and the text is whatever the `showFloat` parameter returns. Rust's shortest round-trip `f64` formatting is floating-point library code, so nothing is claimed about that text.
- Writer faults and the `Fmt` error variant: the sink is an infallible append-only string, as a `String` is, so `Fmt` can never be produced and is not in the error datatype.
- The `thiserror` display messages and the `std` feature gate on `into_string`: these are presentation and build configuration only.
- Rust generics, `IntoIterator` and lifetimes: tags and fields are plain sequences of pairs.
- Module wiring: `data_point.rs` is not declared from `lib.rs`. It is modelled as its own module sharing `check_string_length`, without reconciling the crate layout.
- The crate's tests expecting `StringLengthLimit` and `Newline` from a field string value (`src/tests.rs:105-131`, `src/data_point/tests.rs:104-132`): the code checks neither, and the model follows the code.
- The concrete names and the 19-digit timestamp of the crate's examples: they are parameters, and the timestamp appears through `IntText`.
- The float values `100.` and `1.` of two examples: their text is whatever `showFloat` gives, so only its place in the line is stated.
- LineProtocol.WriteFields: the field counter is an unbounded `nat`. In the source it is an `i32` (an unannotated integer literal). Past `i32::MAX` fields a debug build panics, and at 2^32 fields a release build wraps to 0 and returns `EmptyFieldSet` after writing every field. The model does not capture that overflow.
- DataPoints.WriteFields: the same unbounded counter. The `i32` overflow of `into_writer`'s counter past `i32::MAX` fields is not modelled.
- Loop layout: each loop of `to_writer` and `into_writer`, and each loop body, is its own method, so one pass is a chain of method calls rather than a single body.
