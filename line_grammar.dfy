/** An independent description of the line `to_writer` (influxdb-line-protocol/src/lib.rs)
    produces, and the theorems tying the encoder to it.

    The description has two halves that the encoder interleaves in a single pass:
    `Validate`, the first rule a data point breaks in reading order, and `Line`, the text
    of the data point with nothing checked, built by joining fields with commas rather
    than by writing a separator in front of each. The theorems say that the encoder
    returns exactly `Validate`'s verdict, writes exactly `Line` when that verdict is
    `Ok`, and otherwise stops part-way through `Line`. */
module LineGrammar {

  import opened Errors
  import opened Primitives
  import opened FieldValues
  import opened LineProtocol

  // ---------------------------------------------------------------------------
  // The escaping loops

  /** The per-character loops fail exactly on text holding a newline, and otherwise
      write the whole escaped text. */
  lemma EscapedResult(s: string, special: set<char>)
    ensures Escaped(s, special).result.Ok? <==> '\n' !in s
    ensures Escaped(s, special).result.Err? ==> Escaped(s, special).result == Err(Newline)
    ensures '\n' !in s ==> Escaped(s, special).written == EscapeAll(s, special)
  {
    var k := NewlineIndex(s);
    if k == |s| {
      assert s[..k] == s;
    }
  }

  /** The per-character loops write the start of the escaped text: all of it on
      success, the escaped text before the first newline otherwise. */
  lemma EscapedCovers(s: string, special: set<char>)
    ensures Covers(Escaped(s, special), EscapeAll(s, special))
  {
    var k := NewlineIndex(s);
    assert s == s[..k] + s[k..];
    EscapeAllAppend(s[..k], s[k..], special);
    if k == |s| {
      assert s[..k] == s;
    }
  }

  // ---------------------------------------------------------------------------
  // Prefixes

  predicate IsPrefix(a: string, b: string) {
    |a| <= |b| && b[..|a|] == a
  }

  lemma PrefixAppend(a: string, b: string, c: string)
    requires IsPrefix(b, c)
    ensures IsPrefix(a + b, a + c)
  {
    assert (a + c)[..|a + b|] == a + c[..|b|];
  }

  lemma PrefixExtend(a: string, b: string)
    ensures IsPrefix(a, a + b)
  {
    assert (a + b)[..|a|] == a;
  }

  lemma PrefixTrans(a: string, b: string, c: string)
    requires IsPrefix(a, b) && IsPrefix(b, c)
    ensures IsPrefix(a, c)
  {
    assert c[..|a|] == c[..|b|][..|a|];
  }

  /** A step "covers" a text when what it writes is a prefix of that text, and the
      whole text when it succeeds. */
  predicate Covers(e: Emission, x: string) {
    IsPrefix(e.written, x) && (e.result.Ok? ==> e.written == x)
  }

  /** Two steps in sequence cover the concatenation of what each covers. */
  lemma ThenCovers(a: Emission, b: Emission, x: string, y: string)
    requires Covers(a, x) && Covers(b, y)
    ensures Covers(Then(a, b), x + y)
  {
    if a.result.Err? {
      PrefixExtend(a.written, y);
      PrefixTrans(a.written, x, x + y);
    } else {
      PrefixAppend(x, b.written, y);
    }
  }

  // ---------------------------------------------------------------------------
  // The rules a data point must follow

  /** A measurement name, tag key or field key: at most 64 KiB of UTF-8, no leading
      `_`, no newline. */
  predicate ValidName(s: string) {
    Utf8Len(s) <= MaxStringLength && !StartsWithUnderscore(s) && '\n' !in s
  }

  /** A tag value: at most 64 KiB of UTF-8, no newline; a leading `_` is allowed. */
  predicate ValidTagValue(s: string) {
    Utf8Len(s) <= MaxStringLength && '\n' !in s
  }

  predicate ValidTag(tag: Tag) {
    ValidName(tag.0) && ValidTagValue(tag.1)
  }

  predicate ValidTags(tags: seq<Tag>) {
    forall i :: 0 <= i < |tags| ==> ValidTag(tags[i])
  }

  /** Field values are not checked at all. */
  predicate ValidPoint(measurement: string, tags: seq<Tag>, fields: seq<Field>) {
    && ValidName(measurement)
    && ValidTags(tags)
    && (forall i :: 0 <= i < |fields| ==> ValidName(fields[i].0))
    && |fields| > 0
  }

  function AndThen(a: Result<()>, b: Result<()>): Result<()> {
    if a.Err? then a else b
  }

  /** The first rule a name breaks, in the order the encoder checks them. */
  function CheckName(s: string): (r: Result<()>)
    ensures r.Ok? <==> ValidName(s)
    ensures r.Err? ==> r.error in {StringLengthLimit, NamingRestrictions, Newline}
  {
    if Utf8Len(s) > MaxStringLength then Err(StringLengthLimit)
    else if StartsWithUnderscore(s) then Err(NamingRestrictions)
    else if '\n' in s then Err(Newline)
    else Ok(())
  }

  function CheckTagValue(s: string): (r: Result<()>)
    ensures r.Ok? <==> ValidTagValue(s)
    ensures r.Err? ==> r.error in {StringLengthLimit, Newline}
  {
    if Utf8Len(s) > MaxStringLength then Err(StringLengthLimit)
    else if '\n' in s then Err(Newline)
    else Ok(())
  }

  /** The first rule broken by a tag list, tag by tag, key before value. */
  function CheckTags(tags: seq<Tag>): (r: Result<()>)
    ensures r.Ok? <==> ValidTags(tags)
  {
    if tags == [] then Ok(())
    else
      var r := AndThen(AndThen(CheckName(tags[0].0), CheckTagValue(tags[0].1)), CheckTags(tags[1..]));
      assert forall i :: 1 <= i < |tags| ==> tags[i] == tags[1..][i - 1];
      r
  }

  /** The first rule broken by the keys of a field list. */
  function CheckFieldKeys(fields: seq<Field>): (r: Result<()>)
    ensures r.Ok? <==> forall i :: 0 <= i < |fields| ==> ValidName(fields[i].0)
  {
    if fields == [] then Ok(())
    else
      var r := AndThen(CheckName(fields[0].0), CheckFieldKeys(fields[1..]));
      assert forall i :: 1 <= i < |fields| ==> fields[i] == fields[1..][i - 1];
      r
  }

  /** The first rule a data point breaks: the measurement, then the tags, then the
      field keys, and last the requirement of at least one field. */
  function Validate(measurement: string, tags: seq<Tag>, fields: seq<Field>): (r: Result<()>)
    ensures r.Ok? <==> ValidPoint(measurement, tags, fields)
  {
    AndThen(CheckName(measurement),
      AndThen(CheckTags(tags),
        AndThen(CheckFieldKeys(fields),
          if |fields| == 0 then Err(EmptyFieldSet) else Ok(()))))
  }

  // ---------------------------------------------------------------------------
  // The text of a data point, nothing checked

  function TagText(tag: Tag): string {
    [','] + EscapeAll(tag.0, KeySpecial) + ['='] + EscapeAll(tag.1, KeySpecial)
  }

  /** Every tag in input order, each opened by a comma. */
  function TagsText(tags: seq<Tag>): string {
    if tags == [] then [] else TagText(tags[0]) + TagsText(tags[1..])
  }

  function FieldText(field: Field, showFloat: FloatFormat): string {
    EscapeAll(field.0, KeySpecial) + ['='] + Render(field.1, showFloat)
  }

  /** Texts joined by commas. */
  function Join(parts: seq<string>): string {
    if parts == [] then []
    else if |parts| == 1 then parts[0]
    else parts[0] + [','] + Join(parts[1..])
  }

  /** The text of each field, in input order. */
  function FieldTexts(fields: seq<Field>, showFloat: FloatFormat): (parts: seq<string>)
    ensures |parts| == |fields|
  {
    seq(|fields|, i requires 0 <= i < |fields| => FieldText(fields[i], showFloat))
  }

  /** ` fields[ timestamp]` and a newline. */
  function LineEnd(fields: seq<Field>, timestamp: Option<i64>, showFloat: FloatFormat): string {
    [' '] + Join(FieldTexts(fields, showFloat)) + TimestampText(timestamp) + ['\n']
  }

  /** `measurement[,tags] fields[ timestamp]` and a newline. */
  function Line(measurement: string, tags: seq<Tag>, fields: seq<Field>,
                timestamp: Option<i64>, showFloat: FloatFormat): string
  {
    EscapeAll(measurement, MeasurementSpecial) + TagsText(tags) + LineEnd(fields, timestamp, showFloat)
  }

  // ---------------------------------------------------------------------------
  // The encoder against the grammar, one step at a time

  /** One tag: the encoder's verdict is the first rule the tag breaks. */
  lemma EncodeTagResult(tag: Tag)
    ensures EncodeTag(tag).result == AndThen(CheckName(tag.0), CheckTagValue(tag.1))
  {
    EscapedResult(tag.0, KeySpecial);
    EscapedResult(tag.1, KeySpecial);
  }

  /** One tag: on success the encoder writes the tag's text, and otherwise stops
      inside it. */
  lemma EncodeTagText(tag: Tag)
    ensures Covers(EncodeTag(tag), TagText(tag))
  {
    var (key, value) := tag;
    var ek := Escaped(key, KeySpecial);
    var ev := Escaped(value, KeySpecial);
    EscapedCovers(key, KeySpecial);
    EscapedCovers(value, KeySpecial);
    var k' := EscapeAll(key, KeySpecial);
    var v' := EscapeAll(value, KeySpecial);
    assert TagText(tag) == [','] + (k' + (['='] + v'));
    if CheckStringLength(key).Err? || StartsWithUnderscore(key) {
      PrefixExtend([','], k' + (['='] + v'));
    } else if ek.result.Err? {
      PrefixTrans(ek.written, k', k' + (['='] + v')) by { PrefixExtend(k', ['='] + v'); }
      PrefixAppend([','], ek.written, k' + (['='] + v'));
    } else if CheckStringLength(value).Err? {
      assert EncodeTag(tag).written == [','] + (k' + ['=']);
      PrefixExtend(['='], v');
      PrefixAppend(k', ['='], ['='] + v');
      PrefixAppend([','], k' + ['='], k' + (['='] + v'));
    } else {
      assert EncodeTag(tag).written == [','] + (k' + (['='] + ev.written));
      PrefixAppend(['='], ev.written, v');
      PrefixAppend(k', ['='] + ev.written, ['='] + v');
      PrefixAppend([','], k' + (['='] + ev.written), k' + (['='] + v'));
    }
  }

  /** The tag loop from the `i`-th tag on: its verdict. */
  lemma {:induction false} EncodeTagsResult(tags: seq<Tag>, i: nat)
    requires i <= |tags|
    ensures EncodeTags(tags, i).result == CheckTags(tags[i..])
    decreases |tags| - i
  {
    if i == |tags| {
      assert tags[i..] == [];
    } else {
      var rest := tags[i..];
      assert rest[0] == tags[i] && rest[1..] == tags[i + 1..];
      EncodeTagResult(tags[i]);
      EncodeTagsResult(tags, i + 1);
    }
  }

  /** The tag loop from the `i`-th tag on: its text. */
  lemma {:induction false} EncodeTagsText(tags: seq<Tag>, i: nat)
    requires i <= |tags|
    ensures Covers(EncodeTags(tags, i), TagsText(tags[i..]))
    decreases |tags| - i
  {
    if i == |tags| {
      assert tags[i..] == [];
    } else {
      var rest := tags[i..];
      assert rest[0] == tags[i] && rest[1..] == tags[i + 1..];
      EncodeTagText(tags[i]);
      EncodeTagsText(tags, i + 1);
      ThenCovers(EncodeTag(tags[i]), EncodeTags(tags, i + 1), TagText(tags[i]), TagsText(tags[i + 1..]));
    }
  }

  /** One field: only the key is checked. */
  lemma EncodeFieldResult(field: Field, i: nat, showFloat: FloatFormat)
    ensures EncodeField(field, i, showFloat).result == CheckName(field.0)
  {
    EscapedResult(field.0, KeySpecial);
  }

  /** One field: on success the separator, the key and the rendered value are
      written, and otherwise a prefix of them. */
  lemma EncodeFieldText(field: Field, i: nat, showFloat: FloatFormat)
    ensures Covers(EncodeField(field, i, showFloat), FieldSeparator(i) + FieldText(field, showFloat))
  {
    var (key, value) := field;
    var sep := FieldSeparator(i);
    var ek := Escaped(key, KeySpecial);
    EscapedCovers(key, KeySpecial);
    var k' := EscapeAll(key, KeySpecial);
    var tail := ['='] + Render(value, showFloat);
    assert FieldText(field, showFloat) == k' + tail;
    if CheckStringLength(key).Err? || StartsWithUnderscore(key) {
      PrefixExtend(sep, k' + tail);
    } else if ek.result.Err? {
      PrefixTrans(ek.written, k', k' + tail) by { PrefixExtend(k', tail); }
      PrefixAppend(sep, ek.written, k' + tail);
    } else {
      assert EncodeField(field, i, showFloat).written == sep + (k' + tail);
      PrefixExtend(sep + (k' + tail), []);
    }
  }

  /** What the fields from the `i`-th on contribute to the line: nothing after the
      last one, otherwise their separator and their comma-joined text. */
  function FieldsTail(fields: seq<Field>, i: nat, showFloat: FloatFormat): string
    requires i <= |fields|
  {
    if i == |fields| then [] else FieldSeparator(i) + Join(FieldTexts(fields, showFloat)[i..])
  }

  /** The field loop from the `i`-th field on: its verdict. */
  lemma {:induction false} EncodeFieldsResult(fields: seq<Field>, i: nat, showFloat: FloatFormat)
    requires i <= |fields|
    ensures EncodeFields(fields, i, showFloat).result == CheckFieldKeys(fields[i..])
    decreases |fields| - i
  {
    if i == |fields| {
      assert fields[i..] == [];
    } else {
      var rest := fields[i..];
      assert rest[0] == fields[i] && rest[1..] == fields[i + 1..];
      EncodeFieldResult(fields[i], i, showFloat);
      EncodeFieldsResult(fields, i + 1, showFloat);
    }
  }

  /** The field loop from the `i`-th field on: its text. */
  lemma {:induction false} EncodeFieldsText(fields: seq<Field>, i: nat, showFloat: FloatFormat)
    requires i <= |fields|
    ensures Covers(EncodeFields(fields, i, showFloat), FieldsTail(fields, i, showFloat))
    decreases |fields| - i
  {
    if i == |fields| {
      assert EncodeFields(fields, i, showFloat).written == [];
    } else {
      var head := FieldSeparator(i) + FieldText(fields[i], showFloat);
      EncodeFieldText(fields[i], i, showFloat);
      EncodeFieldsText(fields, i + 1, showFloat);
      FieldsTailStep(fields, i, showFloat);
      ThenCovers(EncodeField(fields[i], i, showFloat), EncodeFields(fields, i + 1, showFloat),
                 head, FieldsTail(fields, i + 1, showFloat));
    }
  }

  /** The comma-joined text splits into the first field with its separator and the
      rest. */
  lemma FieldsTailStep(fields: seq<Field>, i: nat, showFloat: FloatFormat)
    requires i < |fields|
    ensures FieldsTail(fields, i, showFloat)
      == FieldSeparator(i) + FieldText(fields[i], showFloat) + FieldsTail(fields, i + 1, showFloat)
  {
    var parts := FieldTexts(fields, showFloat);
    JoinStep(parts, i);
    if i + 1 < |fields| {
      AppendAssoc(FieldSeparator(i), parts[i], [','] + Join(parts[i + 1..]));
    }
  }

  /** A comma-joined tail splits into its first part and the rest. */
  lemma JoinStep(parts: seq<string>, i: nat)
    requires i < |parts|
    ensures Join(parts[i..]) == parts[i] + if i + 1 == |parts| then [] else [','] + Join(parts[i + 1..])
  {
    var rest := parts[i..];
    assert rest[0] == parts[i] && rest[1..] == parts[i + 1..];
    if i + 1 == |parts| {
      assert parts[i] + [] == parts[i];
    } else {
      AppendAssoc(parts[i], [','], Join(parts[i + 1..]));
    }
  }

  // ---------------------------------------------------------------------------
  // The encoder against the grammar: the whole line

  /** `to_writer` returns exactly the first rule the data point breaks, in the order
      measurement, tags (key before value), field keys, and at least one field. */
  lemma EncodeResult(measurement: string, tags: seq<Tag>, fields: seq<Field>,
                     timestamp: Option<i64>, showFloat: FloatFormat)
    ensures Encode(measurement, tags, fields, timestamp, showFloat).result == Validate(measurement, tags, fields)
  {
    EscapedResult(measurement, MeasurementSpecial);
    EncodeTagsResult(tags, 0);
    EncodeFieldsResult(fields, 0, showFloat);
    assert tags[0..] == tags && fields[0..] == fields;
  }

  /** The field loop and what follows it write the start of the line's end. */
  lemma FieldsAndFinishText(fields: seq<Field>, timestamp: Option<i64>, showFloat: FloatFormat)
    ensures Covers(Then(EncodeFields(fields, 0, showFloat), Finish(|fields|, timestamp)),
                   LineEnd(fields, timestamp, showFloat))
  {
    if |fields| == 0 {
      assert LineEnd(fields, timestamp, showFloat)[..0] == [];
    } else {
      SomeFieldsText(fields, timestamp, showFloat);
    }
  }

  lemma SomeFieldsText(fields: seq<Field>, timestamp: Option<i64>, showFloat: FloatFormat)
    requires |fields| > 0
    ensures Covers(Then(EncodeFields(fields, 0, showFloat), Finish(|fields|, timestamp)),
                   LineEnd(fields, timestamp, showFloat))
  {
    var parts := FieldTexts(fields, showFloat);
    var fText := [' '] + Join(parts);
    var finText := TimestampText(timestamp) + ['\n'];
    assert parts[0..] == parts;
    assert FieldsTail(fields, 0, showFloat) == fText;
    EncodeFieldsText(fields, 0, showFloat);
    FinishText(|fields|, timestamp);
    ThenCovers(EncodeFields(fields, 0, showFloat), Finish(|fields|, timestamp), fText, finText);
    AppendAssoc(fText, TimestampText(timestamp), ['\n']);
  }

  /** With at least one field, the end of the line is written in full. */
  lemma FinishText(fieldCount: nat, timestamp: Option<i64>)
    requires fieldCount > 0
    ensures Covers(Finish(fieldCount, timestamp), TimestampText(timestamp) + ['\n'])
  {
    PrefixExtend(TimestampText(timestamp) + ['\n'], []);
    assert TimestampText(timestamp) + ['\n'] + [] == TimestampText(timestamp) + ['\n'];
  }

  /** What `to_writer` appends is always the start of the unchecked line: text is
      never written out of order, and on success the whole line is written. */
  lemma EncodeText(measurement: string, tags: seq<Tag>, fields: seq<Field>,
                   timestamp: Option<i64>, showFloat: FloatFormat)
    ensures Covers(Encode(measurement, tags, fields, timestamp, showFloat),
                   Line(measurement, tags, fields, timestamp, showFloat))
  {
    if CheckStringLength(measurement).Err? || StartsWithUnderscore(measurement) {
      assert Line(measurement, tags, fields, timestamp, showFloat)[..0] == [];
    } else {
      EncodeTextChecked(measurement, tags, fields, timestamp, showFloat);
    }
  }

  lemma EncodeTextChecked(measurement: string, tags: seq<Tag>, fields: seq<Field>,
                          timestamp: Option<i64>, showFloat: FloatFormat)
    requires CheckStringLength(measurement).Ok? && !StartsWithUnderscore(measurement)
    ensures Covers(Encode(measurement, tags, fields, timestamp, showFloat),
                   Line(measurement, tags, fields, timestamp, showFloat))
  {
    var t := EncodeTags(tags, 0);
    var rest := Then(EncodeFields(fields, 0, showFloat), Finish(|fields|, timestamp));
    var mText := EscapeAll(measurement, MeasurementSpecial);
    var tText := TagsText(tags);
    var end := LineEnd(fields, timestamp, showFloat);
    assert tags[0..] == tags;
    EscapedCovers(measurement, MeasurementSpecial);
    EncodeTagsText(tags, 0);
    FieldsAndFinishText(fields, timestamp, showFloat);
    ThenCovers(t, rest, tText, end);
    ThenCovers(Escaped(measurement, MeasurementSpecial), Then(t, rest), mText, tText + end);
    AppendAssoc(mText, tText, end);
    assert Encode(measurement, tags, fields, timestamp, showFloat) == Then(Escaped(measurement, MeasurementSpecial), Then(t, rest));
  }

  /** A data point that breaks no rule is written in full, as the unchecked line. */
  lemma EncodeValid(measurement: string, tags: seq<Tag>, fields: seq<Field>,
                    timestamp: Option<i64>, showFloat: FloatFormat)
    requires ValidPoint(measurement, tags, fields)
    ensures Encode(measurement, tags, fields, timestamp, showFloat)
      == Emission(Line(measurement, tags, fields, timestamp, showFloat), Ok(()))
  {
    EncodeResult(measurement, tags, fields, timestamp, showFloat);
    EncodeText(measurement, tags, fields, timestamp, showFloat);
  }

  // ---------------------------------------------------------------------------
  // Where the encoder stops

  /** The length ceiling counts bytes and is inclusive: on ASCII text it allows
      exactly 65536 characters. */
  lemma AsciiLengthLimit(s: string)
    requires IsAscii(s)
    ensures CheckStringLength(s).Ok? <==> |s| <= 65536
  {
    AsciiUtf8Len(s);
  }

  /** 16384 four-byte characters are at the limit; one more is over it. */
  lemma WideLengthLimit(c: char)
    requires c as int >= 0x1_0000
    ensures CheckStringLength(seq(16384, _ => c)) == Ok(())
    ensures CheckStringLength(seq(16385, _ => c)) == Err(StringLengthLimit)
  {
    Utf8LenRepeat(c, 16384);
    Utf8LenRepeat(c, 16385);
  }

  /** The measurement is checked before anything is written: first its length, then
      its leading `_`, whatever follows. */
  lemma MeasurementChecksFirst(measurement: string, tags: seq<Tag>, fields: seq<Field>,
                               timestamp: Option<i64>, showFloat: FloatFormat)
    requires Utf8Len(measurement) > MaxStringLength || StartsWithUnderscore(measurement)
    ensures Encode(measurement, tags, fields, timestamp, showFloat)
      == Emission([], if Utf8Len(measurement) > MaxStringLength then Err(StringLengthLimit)
                      else Err(NamingRestrictions))
  {
  }

  /** A newline in an otherwise acceptable measurement stops the encoder after the
      escaped text before it. */
  lemma MeasurementNewline(measurement: string, tags: seq<Tag>, fields: seq<Field>,
                           timestamp: Option<i64>, showFloat: FloatFormat, k: nat)
    requires Utf8Len(measurement) <= MaxStringLength && !StartsWithUnderscore(measurement)
    requires k < |measurement| && measurement[k] == '\n' && '\n' !in measurement[..k]
    ensures Encode(measurement, tags, fields, timestamp, showFloat)
      == Emission(EscapeAll(measurement[..k], MeasurementSpecial), Err(Newline))
  {
    NewlineIndexFirst(measurement, k);
  }

  lemma {:induction false} NewlineIndexFirst(s: string, k: nat)
    requires k < |s| && s[k] == '\n' && '\n' !in s[..k]
    ensures NewlineIndex(s) == k
  {
    if s[0] != '\n' {
      assert s[1..][..k - 1] == s[1..k];
      assert forall j :: 0 <= j < k - 1 ==> s[1..k][j] == s[..k][j + 1];
      NewlineIndexFirst(s[1..], k - 1);
    }
  }

  /** The tags in `[j, i)` all being acceptable, the tag loop writes their text and
      goes on at the `i`-th tag. */
  lemma {:induction false} EncodeTagsSplit(tags: seq<Tag>, j: nat, i: nat)
    requires j <= i <= |tags|
    requires forall t :: j <= t < i ==> ValidTag(tags[t])
    ensures EncodeTags(tags, j) == Then(Emission(TagsText(tags[j..i]), Ok(())), EncodeTags(tags, i))
    decreases i - j
  {
    if j == i {
      assert tags[j..i] == [];
      assert [] + EncodeTags(tags, i).written == EncodeTags(tags, i).written;
    } else {
      var rest := tags[j..i];
      assert rest[0] == tags[j] && rest[1..] == tags[j + 1..i];
      EncodeTagResult(tags[j]);
      EncodeTagText(tags[j]);
      EncodeTagsSplit(tags, j + 1, i);
      ThenOk(TagText(tags[j]), Emission(TagsText(tags[j + 1..i]), Ok(())), EncodeTags(tags, i));
      assert [] + TagText(tags[j]) == TagText(tags[j]);
    }
  }

  /** A tag key with a leading `_` (not a tag value) fails with `NamingRestrictions`
      after the measurement, the earlier tags and the tag's comma have been written. */
  lemma TagKeyUnderscore(measurement: string, tags: seq<Tag>, fields: seq<Field>,
                         timestamp: Option<i64>, showFloat: FloatFormat, i: nat)
    requires ValidName(measurement)
    requires i < |tags| && ValidTags(tags[..i])
    requires Utf8Len(tags[i].0) <= MaxStringLength && StartsWithUnderscore(tags[i].0)
    ensures Encode(measurement, tags, fields, timestamp, showFloat)
      == Emission(EscapeAll(measurement, MeasurementSpecial) + TagsText(tags[..i]) + [','], Err(NamingRestrictions))
  {
    var mText := EscapeAll(measurement, MeasurementSpecial);
    var before := TagsText(tags[..i]);
    EscapedResult(measurement, MeasurementSpecial);
    assert forall t :: 0 <= t < i ==> ValidTag(tags[t]) by {
      forall t | 0 <= t < i ensures ValidTag(tags[t]) { assert tags[..i][t] == tags[t]; }
    }
    EncodeTagsSplit(tags, 0, i);
    assert tags[0..i] == tags[..i];
    assert EncodeTags(tags, i) == Emission([','], Err(NamingRestrictions));
    assert EncodeTags(tags, 0) == Emission(before + [','], Err(NamingRestrictions));
    AppendAssoc(mText, before, [',']);
  }

  /** The fields in `[j, i)` all having acceptable keys, the field loop writes the
      `j`-th separator and their comma-joined text, and goes on at the `i`-th field. */
  lemma {:induction false} EncodeFieldsSplit(fields: seq<Field>, j: nat, i: nat, showFloat: FloatFormat)
    requires j < i <= |fields|
    requires forall t :: j <= t < i ==> ValidName(fields[t].0)
    ensures EncodeFields(fields, j, showFloat)
      == Then(Emission(FieldSeparator(j) + Join(FieldTexts(fields, showFloat)[j..i]), Ok(())),
              EncodeFields(fields, i, showFloat))
    decreases i - j
  {
    var parts := FieldTexts(fields, showFloat);
    var sep := FieldSeparator(j);
    var head := sep + parts[j];
    EncodeFieldResult(fields[j], j, showFloat);
    EncodeFieldText(fields[j], j, showFloat);
    assert EncodeField(fields[j], j, showFloat) == Emission(head, Ok(()));
    var q := parts[j..i];
    assert q[0..] == q && q[0] == parts[j] && q[1..] == parts[j + 1..i];
    JoinStep(q, 0);
    if j + 1 == i {
      assert head + [] == head;
    } else {
      EncodeFieldsSplit(fields, j + 1, i, showFloat);
      var tail := FieldSeparator(j + 1) + Join(parts[j + 1..i]);
      ThenOk(head, Emission(tail, Ok(())), EncodeFields(fields, i, showFloat));
      AppendAssoc(sep, parts[j], tail);
    }
  }

  /** A field key with a leading `_` fails with `NamingRestrictions` after the
      measurement, the tags, the earlier fields and that field's separator have been
      written. */
  lemma FieldKeyUnderscore(measurement: string, tags: seq<Tag>, fields: seq<Field>,
                           timestamp: Option<i64>, showFloat: FloatFormat, i: nat)
    requires ValidName(measurement) && ValidTags(tags)
    requires i < |fields| && forall t :: 0 <= t < i ==> ValidName(fields[t].0)
    requires Utf8Len(fields[i].0) <= MaxStringLength && StartsWithUnderscore(fields[i].0)
    ensures Encode(measurement, tags, fields, timestamp, showFloat)
      == Emission(EscapeAll(measurement, MeasurementSpecial) + TagsText(tags)
                  + (if i == 0 then [' '] else [' '] + Join(FieldTexts(fields[..i], showFloat)) + [',']),
                  Err(NamingRestrictions))
  {
    var mText := EscapeAll(measurement, MeasurementSpecial);
    var tText := TagsText(tags);
    EscapedResult(measurement, MeasurementSpecial);
    EncodeTagsSplit(tags, 0, |tags|);
    assert tags[0..|tags|] == tags;
    assert EncodeTags(tags, 0) == Emission(tText + [], Ok(()));
    assert EncodeField(fields[i], i, showFloat) == Emission(FieldSeparator(i), Err(NamingRestrictions));
    var fWritten: string;
    if i == 0 {
      fWritten := [' '];
    } else {
      EncodeFieldsSplit(fields, 0, i, showFloat);
      assert FieldTexts(fields[..i], showFloat) == FieldTexts(fields, showFloat)[0..i];
      fWritten := [' '] + Join(FieldTexts(fields[..i], showFloat)) + [','];
    }
    assert EncodeFields(fields, 0, showFloat) == Emission(fWritten, Err(NamingRestrictions));
    assert tText + [] == tText;
    AppendAssoc(mText, tText, fWritten);
  }

  /** With no fields, the measurement and the tags are written and the encoder fails
      with `EmptyFieldSet`. */
  lemma NoFields(measurement: string, tags: seq<Tag>, timestamp: Option<i64>, showFloat: FloatFormat)
    requires ValidName(measurement) && ValidTags(tags)
    ensures Encode(measurement, tags, [], timestamp, showFloat)
      == Emission(EscapeAll(measurement, MeasurementSpecial) + TagsText(tags), Err(EmptyFieldSet))
  {
    var mText := EscapeAll(measurement, MeasurementSpecial);
    EscapedResult(measurement, MeasurementSpecial);
    EncodeTagsSplit(tags, 0, |tags|);
    assert tags[0..|tags|] == tags;
    assert TagsText(tags) + [] == TagsText(tags);
    assert mText + (TagsText(tags) + []) == mText + TagsText(tags);
  }
}
