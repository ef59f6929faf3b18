/** The line encoder of the crate root (influxdb-line-protocol/src/lib.rs): one
    left-to-right pass that validates and escapes a measurement name, an ordered tag
    list and an ordered field list, then writes the optional timestamp and a newline.

    `Encode` is the specification: the text the pass appends to its sink and the result
    it returns. Text already appended when a check fails is never taken back, so
    `Encode` records that partial text too. `ToWriter` is proved to keep the sink's
    earlier text, append exactly `Encode`'s text and return its result. `Escape` and
    each loop of the pass are proved against the matching step (`Escaped`, `EncodeTag`,
    `EncodeTags`, `EncodeField`, `EncodeFields`). `ToString` returns the text `ToWriter`
    appends to an empty string, or its error. */
module LineProtocol {

  import opened Errors
  import opened Primitives
  import opened Writers
  import opened FieldValues

  type Tag = (string, string)
  type Field = (string, FieldValue)

  /** `64 << 10` bytes. */
  const MaxStringLength: nat := 65536

  /** Characters escaped in a measurement name. */
  const MeasurementSpecial: set<char> := {',', ' '}

  /** Characters escaped in tag keys, tag values and field keys. */
  const KeySpecial: set<char> := {',', '=', ' '}

  /** What one step of the pass appends to the sink, and what it returns. */
  datatype Emission = Emission(written: string, result: Result<()>)

  /** `check_string_length`: a component may be at most 64 KiB of UTF-8. */
  function CheckStringLength(value: string): (r: Result<()>)
    ensures r.Ok? <==> Utf8Len(value) <= MaxStringLength
    ensures r == Ok(()) || r == Err(StringLengthLimit)
  {
    if Utf8Len(value) <= MaxStringLength then Ok(()) else Err(StringLengthLimit)
  }

  /** `str::starts_with('_')` */
  predicate StartsWithUnderscore(s: string) {
    |s| > 0 && s[0] == '_'
  }

  /** The position of the first newline of `s`, or `|s|` when there is none. */
  function NewlineIndex(s: string): (k: nat)
    ensures k <= |s|
    ensures '\n' !in s[..k]
    ensures k < |s| ==> s[k] == '\n'
  {
    if s == [] then 0
    else if s[0] == '\n' then 0
    else
      var k := 1 + NewlineIndex(s[1..]);
      assert s[..k] == [s[0]] + s[1..][..k - 1];
      k
  }

  /** What the per-character escaping loop does: it writes the escaped characters up to
      the first newline and fails there with `Newline`. */
  function Escaped(s: string, special: set<char>): Emission {
    var k := NewlineIndex(s);
    if k < |s| then Emission(EscapeAll(s[..k], special), Err(Newline))
    else Emission(EscapeAll(s, special), Ok(()))
  }

  /** Sequencing under `?`: the second step runs only when the first succeeded. */
  function Then(a: Emission, b: Emission): Emission {
    if a.result.Err? then a else Emission(a.written + b.written, b.result)
  }

  /** One iteration of the tag loop: `,`, checks on the key, the escaped key, `=`,
      the length check on the value and the escaped value. */
  function EncodeTag(tag: Tag): Emission {
    var (key, value) := tag;
    if CheckStringLength(key).Err? then Emission(",", Err(StringLengthLimit))
    else if StartsWithUnderscore(key) then Emission(",", Err(NamingRestrictions))
    else
      var ek := Escaped(key, KeySpecial);
      if ek.result.Err? then Emission("," + ek.written, ek.result)
      else if CheckStringLength(value).Err? then Emission("," + ek.written + "=", Err(StringLengthLimit))
      else
        var ev := Escaped(value, KeySpecial);
        Emission("," + ek.written + "=" + ev.written, ev.result)
  }

  /** The tag loop from the `i`-th tag on. */
  function EncodeTags(tags: seq<Tag>, i: nat): Emission
    requires i <= |tags|
    decreases |tags| - i
  {
    if i == |tags| then Emission([], Ok(()))
    else Then(EncodeTag(tags[i]), EncodeTags(tags, i + 1))
  }

  /** The separator before the `i`-th field: a space opens the field block. */
  function FieldSeparator(i: nat): string {
    if i == 0 then " " else ","
  }

  /** One iteration of the field loop. Rendering the value cannot fail. */
  function EncodeField(field: Field, i: nat, showFloat: FloatFormat): Emission {
    var (key, value) := field;
    var sep := FieldSeparator(i);
    if CheckStringLength(key).Err? then Emission(sep, Err(StringLengthLimit))
    else if StartsWithUnderscore(key) then Emission(sep, Err(NamingRestrictions))
    else
      var ek := Escaped(key, KeySpecial);
      if ek.result.Err? then Emission(sep + ek.written, ek.result)
      else Emission(sep + ek.written + "=" + Render(value, showFloat), Ok(()))
  }

  /** The field loop from the `i`-th field on. */
  function EncodeFields(fields: seq<Field>, i: nat, showFloat: FloatFormat): Emission
    requires i <= |fields|
    decreases |fields| - i
  {
    if i == |fields| then Emission([], Ok(()))
    else Then(EncodeField(fields[i], i, showFloat), EncodeFields(fields, i + 1, showFloat))
  }

  /** ` {timestamp}` when there is one. */
  function TimestampText(timestamp: Option<i64>): string {
    match timestamp
    case None => []
    case Some(t) => " " + IntText(t as int)
  }

  /** After the field loop: the empty-field-set check, the timestamp and the newline. */
  function Finish(fieldCount: nat, timestamp: Option<i64>): Emission {
    if fieldCount == 0 then Emission([], Err(EmptyFieldSet))
    else Emission(TimestampText(timestamp) + "\n", Ok(()))
  }

  /** The whole pass of `to_writer`. */
  function Encode(measurement: string, tags: seq<Tag>, fields: seq<Field>,
                  timestamp: Option<i64>, showFloat: FloatFormat): Emission
  {
    if CheckStringLength(measurement).Err? then Emission([], Err(StringLengthLimit))
    else if StartsWithUnderscore(measurement) then Emission([], Err(NamingRestrictions))
    else
      Then(Escaped(measurement, MeasurementSpecial),
        Then(EncodeTags(tags, 0),
          Then(EncodeFields(fields, 0, showFloat), Finish(|fields|, timestamp))))
  }

  // Facts the procedures below rely on.

  /** Once a step has failed, nothing after it runs. */
  lemma ThenErr(a: string, b: Emission, c: Emission)
    requires b.result.Err?
    ensures Then(Emission(a, Ok(())), Then(b, c)) == Emission(a + b.written, b.result)
  {
  }

  /** A step that succeeded can be moved into the text already written. */
  lemma ThenOk(a: string, b: Emission, c: Emission)
    requires b.result.Ok?
    ensures Then(Emission(a, Ok(())), Then(b, c)) == Then(Emission(a + b.written, Ok(())), c)
  {
    if c.result.Ok? {
      assert a + (b.written + c.written) == a + b.written + c.written;
    }
  }

  /** `escape` (lib.rs): the per-character loop for tag keys, tag values and field keys. */
  method Escape(w: Writer, value: string) returns (r: Result<()>)
    modifies w
    ensures w.text == old(w.text) + Escaped(value, KeySpecial).written
    ensures r == Escaped(value, KeySpecial).result
  {
    ghost var start := w.text;
    var k := 0;
    while k < |value|
      invariant 0 <= k <= |value|
      invariant '\n' !in value[..k]
      invariant w.text == start + EscapeAll(value[..k], KeySpecial)
    {
      var c := value[k];
      EscapeAllAppend(value[..k], [c], KeySpecial);
      assert EscapeAll([c], KeySpecial) == EscapeChar(c, KeySpecial);
      assert value[..k + 1] == value[..k] + [c];
      AppendAssoc(start, EscapeAll(value[..k], KeySpecial), EscapeChar(c, KeySpecial));
      if c == '\n' {
        return Err(Newline);
      } else if c == ',' {
        w.WriteStr("\\,");
      } else if c == '=' {
        w.WriteStr("\\=");
      } else if c == ' ' {
        w.WriteStr("\\ ");
      } else {
        w.WriteChar(c);
      }
      k := k + 1;
    }
    assert value[..k] == value;
    return Ok(());
  }

  lemma TagsStep(tags: seq<Tag>, i: nat, out: string)
    requires i < |tags|
    requires EncodeTags(tags, 0) == Then(Emission(out, Ok(())), EncodeTags(tags, i))
    ensures EncodeTag(tags[i]).result.Err? ==>
      EncodeTags(tags, 0) == Emission(out + EncodeTag(tags[i]).written, EncodeTag(tags[i]).result)
    ensures EncodeTag(tags[i]).result.Ok? ==>
      EncodeTags(tags, 0) == Then(Emission(out + EncodeTag(tags[i]).written, Ok(())), EncodeTags(tags, i + 1))
  {
    var tag := EncodeTag(tags[i]);
    if tag.result.Err? {
      ThenErr(out, tag, EncodeTags(tags, i + 1));
    } else {
      ThenOk(out, tag, EncodeTags(tags, i + 1));
    }
  }

  lemma FieldsStep(fields: seq<Field>, i: nat, out: string, showFloat: FloatFormat)
    requires i < |fields|
    requires EncodeFields(fields, 0, showFloat) == Then(Emission(out, Ok(())), EncodeFields(fields, i, showFloat))
    ensures EncodeField(fields[i], i, showFloat).result.Err? ==>
      EncodeFields(fields, 0, showFloat)
        == Emission(out + EncodeField(fields[i], i, showFloat).written, EncodeField(fields[i], i, showFloat).result)
    ensures EncodeField(fields[i], i, showFloat).result.Ok? ==>
      EncodeFields(fields, 0, showFloat)
        == Then(Emission(out + EncodeField(fields[i], i, showFloat).written, Ok(())), EncodeFields(fields, i + 1, showFloat))
  {
    var field := EncodeField(fields[i], i, showFloat);
    if field.result.Err? {
      ThenErr(out, field, EncodeFields(fields, i + 1, showFloat));
    } else {
      ThenOk(out, field, EncodeFields(fields, i + 1, showFloat));
    }
  }

  /** The measurement loop of `to_writer`: like `escape`, but `=` is copied. */
  method WriteMeasurement(w: Writer, measurement: string) returns (r: Result<()>)
    modifies w
    ensures w.text == old(w.text) + Escaped(measurement, MeasurementSpecial).written
    ensures r == Escaped(measurement, MeasurementSpecial).result
  {
    ghost var start := w.text;
    var k := 0;
    while k < |measurement|
      invariant 0 <= k <= |measurement|
      invariant '\n' !in measurement[..k]
      invariant w.text == start + EscapeAll(measurement[..k], MeasurementSpecial)
    {
      var c := measurement[k];
      EscapeAllAppend(measurement[..k], [c], MeasurementSpecial);
      assert EscapeAll([c], MeasurementSpecial) == EscapeChar(c, MeasurementSpecial);
      assert measurement[..k + 1] == measurement[..k] + [c];
      AppendAssoc(start, EscapeAll(measurement[..k], MeasurementSpecial), EscapeChar(c, MeasurementSpecial));
      if c == '\n' {
        return Err(Newline);
      } else if c == ',' {
        w.WriteStr("\\,");
      } else if c == ' ' {
        w.WriteStr("\\ ");
      } else {
        w.WriteChar(c);
      }
      k := k + 1;
    }
    assert measurement[..k] == measurement;
    return Ok(());
  }

  /** The body of the tag loop of `to_writer`. */
  method WriteTag(w: Writer, tag: Tag) returns (r: Result<()>)
    modifies w
    ensures w.text == old(w.text) + EncodeTag(tag).written
    ensures r == EncodeTag(tag).result
  {
    var (key, value) := tag;
    w.WriteStr(",");
    r := CheckStringLength(key);
    if r.Err? {
      return;
    }
    if StartsWithUnderscore(key) {
      return Err(NamingRestrictions);
    }
    r := Escape(w, key);
    if r.Err? {
      return;
    }
    w.WriteStr("=");
    r := CheckStringLength(value);
    if r.Err? {
      return;
    }
    r := Escape(w, value);
  }

  /** The body of the field loop of `to_writer`, for the `i`-th field. */
  method WriteField(w: Writer, field: Field, i: nat, showFloat: FloatFormat) returns (r: Result<()>)
    modifies w
    ensures w.text == old(w.text) + EncodeField(field, i, showFloat).written
    ensures r == EncodeField(field, i, showFloat).result
  {
    var (key, value) := field;
    if i == 0 {
      w.WriteStr(" ");
    } else {
      w.WriteStr(",");
    }
    r := CheckStringLength(key);
    if r.Err? {
      return;
    }
    if StartsWithUnderscore(key) {
      return Err(NamingRestrictions);
    }
    r := Escape(w, key);
    if r.Err? {
      return;
    }
    w.WriteStr("=");
    WriteTo(value, w, showFloat);
  }

  /** The tag loop of `to_writer`: each tag in input order. */
  method WriteTags(w: Writer, tags: seq<Tag>) returns (r: Result<()>)
    modifies w
    ensures w.text == old(w.text) + EncodeTags(tags, 0).written
    ensures r == EncodeTags(tags, 0).result
  {
    ghost var start := w.text;
    ghost var out: string := [];
    var i := 0;
    while i < |tags|
      invariant 0 <= i <= |tags|
      invariant w.text == start + out
      invariant EncodeTags(tags, 0) == Then(Emission(out, Ok(())), EncodeTags(tags, i))
    {
      ghost var e := EncodeTag(tags[i]);
      TagsStep(tags, i, out);
      AppendAssoc(start, out, e.written);
      r := WriteTag(w, tags[i]);
      out := out + e.written;
      if r.Err? {
        return;
      }
      i := i + 1;
    }
    assert out + [] == out;
    return Ok(());
  }

  /** The field loop of `to_writer`; `count` is the number of fields written. */
  method WriteFields(w: Writer, fields: seq<Field>, showFloat: FloatFormat) returns (r: Result<()>, count: nat)
    modifies w
    ensures w.text == old(w.text) + EncodeFields(fields, 0, showFloat).written
    ensures r == EncodeFields(fields, 0, showFloat).result
    ensures r.Ok? ==> count == |fields|
  {
    ghost var start := w.text;
    ghost var out: string := [];
    count := 0;
    var i := 0;
    while i < |fields|
      invariant 0 <= i <= |fields|
      invariant count == i
      invariant w.text == start + out
      invariant EncodeFields(fields, 0, showFloat) == Then(Emission(out, Ok(())), EncodeFields(fields, i, showFloat))
    {
      ghost var e := EncodeField(fields[i], i, showFloat);
      FieldsStep(fields, i, out, showFloat);
      AppendAssoc(start, out, e.written);
      r := WriteField(w, fields[i], i, showFloat);
      out := out + e.written;
      if r.Err? {
        return;
      }
      count := count + 1;
      i := i + 1;
    }
    assert out + [] == out;
    r := Ok(());
  }

  /** `to_writer` with a sink whose appends cannot fail. */
  method ToWriter(w: Writer, measurement: string, tags: seq<Tag>, fields: seq<Field>,
                  timestamp: Option<i64>, showFloat: FloatFormat)
    returns (r: Result<()>)
    modifies w
    ensures w.text == old(w.text) + Encode(measurement, tags, fields, timestamp, showFloat).written
    ensures r == Encode(measurement, tags, fields, timestamp, showFloat).result
  {
    ghost var start := w.text;
    r := CheckStringLength(measurement);
    if r.Err? {
      assert start + [] == start;
      return;
    }
    if StartsWithUnderscore(measurement) {
      assert start + [] == start;
      return Err(NamingRestrictions);
    }
    ghost var spec := Encode(measurement, tags, fields, timestamp, showFloat);
    ghost var m := Escaped(measurement, MeasurementSpecial);
    ghost var t := EncodeTags(tags, 0);
    ghost var f := EncodeFields(fields, 0, showFloat);
    ghost var fin := Finish(|fields|, timestamp);
    assert spec == Then(m, Then(t, Then(f, fin)));

    r := WriteMeasurement(w, measurement);
    if r.Err? {
      return;
    }
    assert m == Emission(m.written, Ok(()));

    AppendAssoc(start, m.written, t.written);
    r := WriteTags(w, tags);
    if r.Err? {
      ThenErr(m.written, t, Then(f, fin));
      return;
    }
    ThenOk(m.written, t, Then(f, fin));

    ghost var out := m.written + t.written;
    AppendAssoc(start, out, f.written);
    var count;
    r, count := WriteFields(w, fields, showFloat);
    if r.Err? {
      ThenErr(out, f, fin);
      return;
    }
    ThenOk(out, f, fin);
    out := out + f.written;

    if count == 0 {
      assert out + [] == out;
      return Err(EmptyFieldSet);
    }
    AppendAssoc(start, out, fin.written);
    match timestamp {
      case Some(ts) => w.WriteStr(" " + IntText(ts as int));
      case None =>
    }
    w.WriteChar('\n');
    AppendAssoc(start + out, TimestampText(timestamp), "\n");
    r := Ok(());
  }

  /** `to_string`: the text `to_writer` appends to an empty string, or its error. */
  method ToString(measurement: string, tags: seq<Tag>, fields: seq<Field>,
                  timestamp: Option<i64>, showFloat: FloatFormat)
    returns (r: Result<string>)
    ensures var e := Encode(measurement, tags, fields, timestamp, showFloat);
            r == if e.result.Ok? then Ok(e.written) else Err(e.result.error)
  {
    var w := new Writer();
    var status := ToWriter(w, measurement, tags, fields, timestamp, showFloat);
    assert w.text == Encode(measurement, tags, fields, timestamp, showFloat).written;
    if status.Err? {
      return Err(status.error);
    }
    return Ok(w.text);
  }
}
