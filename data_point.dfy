/** `DataPoint` (influxdb-line-protocol/src/data_point.rs): a data point held as a
    value, written by `into_writer`, a second copy of the encoding pass of the crate
    root with its own copy of `escape`. Its procedures are proved to append the text
    and return the result of the same specification, `LineProtocol.Encode`. */
module DataPoints {

  import opened Errors
  import opened Primitives
  import opened Writers
  import opened FieldValues
  import LP = LineProtocol

  datatype DataPoint = DataPoint(
    measurement: string,
    tagSet: seq<LP.Tag>,
    fieldSet: seq<LP.Field>,
    timestamp: Option<i64>)

  /** What `into_writer` appends to its sink and returns. */
  function Encoding(p: DataPoint, showFloat: FloatFormat): LP.Emission {
    LP.Encode(p.measurement, p.tagSet, p.fieldSet, p.timestamp, showFloat)
  }

  /** The local `escape`: `,`, `=` and space get a `\`, a newline fails. */
  method Escape(w: Writer, value: string) returns (r: Result<()>)
    modifies w
    ensures w.text == old(w.text) + LP.Escaped(value, LP.KeySpecial).written
    ensures r == LP.Escaped(value, LP.KeySpecial).result
  {
    ghost var start := w.text;
    for k := 0 to |value|
      invariant '\n' !in value[..k]
      invariant w.text == start + EscapeAll(value[..k], LP.KeySpecial)
    {
      var c := value[k];
      EscapeAllAppend(value[..k], [c], LP.KeySpecial);
      assert EscapeAll([c], LP.KeySpecial) == EscapeChar(c, LP.KeySpecial);
      assert value[..k + 1] == value[..k] + [c];
      AppendAssoc(start, EscapeAll(value[..k], LP.KeySpecial), EscapeChar(c, LP.KeySpecial));
      match c {
        case '\n' => return Err(Newline);
        case ',' => w.WriteStr("\\,");
        case '=' => w.WriteStr("\\=");
        case ' ' => w.WriteStr("\\ ");
        case _ => w.WriteChar(c);
      }
    }
    assert value[..|value|] == value;
    return Ok(());
  }

  /** The body of the tag loop of `into_writer`. */
  method WriteTag(w: Writer, tag: LP.Tag) returns (r: Result<()>)
    modifies w
    ensures w.text == old(w.text) + LP.EncodeTag(tag).written
    ensures r == LP.EncodeTag(tag).result
  {
    var (key, value) := tag;
    w.WriteStr(",");
    r := LP.CheckStringLength(key);
    if r.Err? {
      return;
    }
    if LP.StartsWithUnderscore(key) {
      return Err(NamingRestrictions);
    }
    r := Escape(w, key);
    if r.Err? {
      return;
    }
    w.WriteStr("=");
    r := LP.CheckStringLength(value);
    if r.Err? {
      return;
    }
    r := Escape(w, value);
  }

  /** The body of the field loop of `into_writer`, for the `i`-th field. */
  method WriteField(w: Writer, field: LP.Field, i: nat, showFloat: FloatFormat) returns (r: Result<()>)
    modifies w
    ensures w.text == old(w.text) + LP.EncodeField(field, i, showFloat).written
    ensures r == LP.EncodeField(field, i, showFloat).result
  {
    var (key, value) := field;
    if i == 0 {
      w.WriteStr(" ");
    } else {
      w.WriteStr(",");
    }
    r := LP.CheckStringLength(key);
    if r.Err? {
      return;
    }
    if LP.StartsWithUnderscore(key) {
      return Err(NamingRestrictions);
    }
    r := Escape(w, key);
    if r.Err? {
      return;
    }
    w.WriteStr("=");
    WriteTo(value, w, showFloat);
  }

  /** The measurement loop of `into_writer`: `,` and space escaped, `=` copied. */
  method WriteMeasurement(w: Writer, measurement: string) returns (r: Result<()>)
    modifies w
    ensures w.text == old(w.text) + LP.Escaped(measurement, LP.MeasurementSpecial).written
    ensures r == LP.Escaped(measurement, LP.MeasurementSpecial).result
  {
    ghost var start := w.text;
    for k := 0 to |measurement|
      invariant '\n' !in measurement[..k]
      invariant w.text == start + EscapeAll(measurement[..k], LP.MeasurementSpecial)
    {
      var c := measurement[k];
      EscapeAllAppend(measurement[..k], [c], LP.MeasurementSpecial);
      assert EscapeAll([c], LP.MeasurementSpecial) == EscapeChar(c, LP.MeasurementSpecial);
      assert measurement[..k + 1] == measurement[..k] + [c];
      AppendAssoc(start, EscapeAll(measurement[..k], LP.MeasurementSpecial), EscapeChar(c, LP.MeasurementSpecial));
      match c {
        case '\n' => return Err(Newline);
        case ',' => w.WriteStr("\\,");
        case ' ' => w.WriteStr("\\ ");
        case _ => w.WriteChar(c);
      }
    }
    assert measurement[..|measurement|] == measurement;
    return Ok(());
  }

  /** The tag loop of `into_writer`: each tag in input order. */
  method WriteTags(w: Writer, tags: seq<LP.Tag>) returns (r: Result<()>)
    modifies w
    ensures w.text == old(w.text) + LP.EncodeTags(tags, 0).written
    ensures r == LP.EncodeTags(tags, 0).result
  {
    ghost var start := w.text;
    ghost var out: string := [];
    for i := 0 to |tags|
      invariant w.text == start + out
      invariant LP.EncodeTags(tags, 0) == LP.Then(LP.Emission(out, Ok(())), LP.EncodeTags(tags, i))
    {
      ghost var e := LP.EncodeTag(tags[i]);
      LP.TagsStep(tags, i, out);
      AppendAssoc(start, out, e.written);
      r := WriteTag(w, tags[i]);
      out := out + e.written;
      if r.Err? {
        return;
      }
    }
    assert out + [] == out;
    return Ok(());
  }

  /** The field loop of `into_writer`; `count` is the number of fields written. */
  method WriteFields(w: Writer, fields: seq<LP.Field>, showFloat: FloatFormat) returns (r: Result<()>, count: nat)
    modifies w
    ensures w.text == old(w.text) + LP.EncodeFields(fields, 0, showFloat).written
    ensures r == LP.EncodeFields(fields, 0, showFloat).result
    ensures r.Ok? ==> count == |fields|
  {
    ghost var start := w.text;
    ghost var out: string := [];
    count := 0;
    for i := 0 to |fields|
      invariant count == i
      invariant w.text == start + out
      invariant LP.EncodeFields(fields, 0, showFloat) == LP.Then(LP.Emission(out, Ok(())), LP.EncodeFields(fields, i, showFloat))
    {
      ghost var e := LP.EncodeField(fields[i], i, showFloat);
      LP.FieldsStep(fields, i, out, showFloat);
      AppendAssoc(start, out, e.written);
      r := WriteField(w, fields[i], i, showFloat);
      out := out + e.written;
      if r.Err? {
        return;
      }
      count := count + 1;
    }
    assert out + [] == out;
    r := Ok(());
  }

  /** `into_writer` with a sink whose appends cannot fail. */
  method IntoWriter(p: DataPoint, w: Writer, showFloat: FloatFormat) returns (r: Result<()>)
    modifies w
    ensures w.text == old(w.text) + Encoding(p, showFloat).written
    ensures r == Encoding(p, showFloat).result
  {
    ghost var start := w.text;
    ghost var spec := Encoding(p, showFloat);
    var measurement := p.measurement;
    r := LP.CheckStringLength(measurement);
    if r.Err? {
      assert start + [] == start;
      return;
    }
    if LP.StartsWithUnderscore(measurement) {
      assert start + [] == start;
      return Err(NamingRestrictions);
    }
    ghost var fin := LP.Finish(|p.fieldSet|, p.timestamp);
    ghost var fieldsThenFin := LP.Then(LP.EncodeFields(p.fieldSet, 0, showFloat), fin);
    assert spec == LP.Then(LP.Escaped(measurement, LP.MeasurementSpecial),
                           LP.Then(LP.EncodeTags(p.tagSet, 0), fieldsThenFin));

    r := WriteMeasurement(w, measurement);
    if r.Err? {
      return;
    }
    ghost var out := LP.Escaped(measurement, LP.MeasurementSpecial).written;
    assert LP.Escaped(measurement, LP.MeasurementSpecial) == LP.Emission(out, Ok(()));

    AppendAssoc(start, out, LP.EncodeTags(p.tagSet, 0).written);
    r := WriteTags(w, p.tagSet);
    ghost var t := LP.EncodeTags(p.tagSet, 0);
    if r.Err? {
      LP.ThenErr(out, t, fieldsThenFin);
      return;
    }
    LP.ThenOk(out, t, fieldsThenFin);
    out := out + t.written;

    ghost var f := LP.EncodeFields(p.fieldSet, 0, showFloat);
    AppendAssoc(start, out, f.written);
    var count;
    r, count := WriteFields(w, p.fieldSet, showFloat);
    if r.Err? {
      LP.ThenErr(out, f, fin);
      return;
    }
    LP.ThenOk(out, f, fin);
    out := out + f.written;

    if count == 0 {
      assert out + [] == out;
      return Err(EmptyFieldSet);
    }
    AppendAssoc(start, out, fin.written);
    match p.timestamp {
      case Some(ts) => w.WriteStr(" " + IntText(ts as int));
      case None =>
    }
    w.WriteChar('\n');
    AppendAssoc(start + out, LP.TimestampText(p.timestamp), "\n");
    r := Ok(());
  }

  /** `into_string`: the text `into_writer` appends to an empty string, or its error. */
  method IntoString(p: DataPoint, showFloat: FloatFormat) returns (r: Result<string>)
    ensures var e := Encoding(p, showFloat);
            r == if e.result.Ok? then Ok(e.written) else Err(e.result.error)
  {
    var w := new Writer();
    var status := IntoWriter(p, w, showFloat);
    assert w.text == Encoding(p, showFloat).written;
    if status.Err? {
      return Err(status.error);
    }
    return Ok(w.text);
  }
}
