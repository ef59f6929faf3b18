/** The crate's worked examples (influxdb-line-protocol/src/tests.rs and
    influxdb-line-protocol/src/data_point/tests.rs) as whole lines. Names, keys, plain
    values and timestamps are parameters; only the emoji example keeps its literal
    characters. Each expected line is grouped as measurement, tag set, field set,
    timestamp and newline. */
module Scenarios {

  import opened Errors
  import opened Primitives
  import opened FieldValues
  import opened LineProtocol
  import opened LineGrammar

  /** A measurement that is acceptable and holds neither `,` nor space. Other
      characters, `=` and `\` included, are copied into the line unchanged. */
  predicate PlainMeasurement(s: string) {
    ValidName(s) && NoneOf(s, MeasurementSpecial)
  }

  /** A key that is acceptable and holds nothing the encoder escapes. */
  predicate PlainName(s: string) {
    ValidName(s) && NoneOf(s, KeySpecial)
  }

  /** `=` and `\` are copied into a measurement, while `=` in a key gets a `\`. */
  lemma MeasurementKeepsEquals()
    ensures EscapeAll("a=b", MeasurementSpecial) == "a=b"
    ensures EscapeAll("a\\b", MeasurementSpecial) == "a\\b"
    ensures EscapeAll("a=b", KeySpecial) == "a\\=b"
  {
    assert "a=b"[1..] == "=b" && "=b"[1..] == "b" && "b"[1..] == [];
    assert "a\\b"[1..] == "\\b" && "\\b"[1..] == "b";
  }

  /** A space between two words that need no escaping gets a single `\`, in either
      escape set. */
  lemma EscapeSpace(a: string, b: string, special: set<char>)
    requires ' ' in special && NoneOf(a, special) && NoneOf(b, special)
    ensures EscapeAll(a + [' '] + b, special) == a + ['\\', ' '] + b
  {
    EscapeAllAppend(a + [' '], b, special);
    EscapeAllAppend(a, [' '], special);
    assert EscapeAll([' '], special) == ['\\', ' '];
    EscapeAllPlain(a, special);
    EscapeAllPlain(b, special);
  }

  /** A valid point with any tags and one field: the line is the escaped measurement,
      the tag set, a space, `key=value`, the timestamp and a newline. */
  lemma OneFieldLine(measurement: string, tags: seq<Tag>, key: string, value: FieldValue,
                     timestamp: Option<i64>, showFloat: FloatFormat)
    requires ValidName(measurement) && ValidTags(tags) && ValidName(key)
    ensures Encode(measurement, tags, [(key, value)], timestamp, showFloat)
      == Emission(EscapeAll(measurement, MeasurementSpecial) + TagsText(tags)
                  + ([' '] + (EscapeAll(key, KeySpecial) + ['='] + Render(value, showFloat))
                     + TimestampText(timestamp) + ['\n']), Ok(()))
  {
    var fields: seq<Field> := [(key, value)];
    EncodeValid(measurement, tags, fields, timestamp, showFloat);
    assert FieldTexts(fields, showFloat) == [FieldText((key, value), showFloat)];
  }

  lemma OneTagText(t: Tag)
    ensures TagsText([t]) == [','] + EscapeAll(t.0, KeySpecial) + ['='] + EscapeAll(t.1, KeySpecial)
  {
    assert [t][1..] == [];
    assert TagsText([t]) == TagText(t) + [];
  }

  /** Two tags are written one after the other, each opened by its comma. */
  lemma TwoTagsText(t1: Tag, t2: Tag)
    ensures TagsText([t1, t2])
         == ([','] + EscapeAll(t1.0, KeySpecial) + ['='] + EscapeAll(t1.1, KeySpecial))
          + ([','] + EscapeAll(t2.0, KeySpecial) + ['='] + EscapeAll(t2.1, KeySpecial))
  {
    var tags := [t1, t2];
    assert tags[1..] == [t2] && tags[1..][1..] == [];
    assert TagsText(tags[1..]) == TagText(t2) + [];
  }

  /** `myMeasurement,tag1=value1,tag2=value2 fieldKey="fieldValue" 1556813561098000000`:
      two plain tags, a plain string field and a timestamp. */
  lemma PlainTagsAndTimestamp(measurement: string, k1: string, v1: string, k2: string, v2: string,
                              key: string, s: string, ts: i64, showFloat: FloatFormat)
    requires PlainMeasurement(measurement) && PlainName(k1) && PlainName(k2) && PlainName(key)
    requires ValidTagValue(v1) && NoneOf(v1, KeySpecial) && ValidTagValue(v2) && NoneOf(v2, KeySpecial)
    requires NoneOf(s, StringSpecial)
    ensures Encode(measurement, [(k1, v1), (k2, v2)], [(key, String(s))], Some(ts), showFloat)
      == Emission(measurement
                  + (([','] + k1 + ['='] + v1) + ([','] + k2 + ['='] + v2))
                  + ([' '] + (key + ['='] + ("\"" + s + "\"")) + (" " + IntText(ts as int)) + ['\n']),
                  Ok(()))
  {
    OneFieldLine(measurement, [(k1, v1), (k2, v2)], key, String(s), Some(ts), showFloat);
    TwoTagsText((k1, v1), (k2, v2));
    EscapeAllPlain(measurement, MeasurementSpecial);
    EscapeAllPlain(k1, KeySpecial);
    EscapeAllPlain(v1, KeySpecial);
    EscapeAllPlain(k2, KeySpecial);
    EscapeAllPlain(v2, KeySpecial);
    EscapeAllPlain(key, KeySpecial);
    EscapeAllPlain(s, StringSpecial);
  }

  /** No tags, one string field and no timestamp: `measurement key="value"`. */
  lemma StringFieldLine(measurement: string, key: string, s: string, showFloat: FloatFormat)
    requires ValidName(measurement) && PlainName(key)
    ensures Encode(measurement, [], [(key, String(s))], None, showFloat)
      == Emission(EscapeAll(measurement, MeasurementSpecial)
                  + ([' '] + (key + ['='] + ("\"" + EscapeString(s) + "\"")) + ['\n']), Ok(()))
  {
    OneFieldLine(measurement, [], key, String(s), None, showFloat);
    EscapeAllPlain(key, KeySpecial);
    var mText := EscapeAll(measurement, MeasurementSpecial);
    var field := key + ['='] + ("\"" + EscapeString(s) + "\"");
    assert TagsText([]) == [] && mText + [] == mText;
    assert TimestampText(None) == [] && [' '] + field + [] == [' '] + field;
  }

  /** `my Measurement fieldKey="string value"`: the space of the measurement gets a `\`. */
  lemma SpacedMeasurement(a: string, b: string, key: string, s: string, showFloat: FloatFormat)
    requires ValidName(a + [' '] + b) && NoneOf(a, MeasurementSpecial) && NoneOf(b, MeasurementSpecial)
    requires PlainName(key) && NoneOf(s, StringSpecial)
    ensures Encode(a + [' '] + b, [], [(key, String(s))], None, showFloat)
      == Emission((a + ['\\', ' '] + b)
                  + ([' '] + (key + ['='] + ("\"" + s + "\"")) + ['\n']), Ok(()))
  {
    StringFieldLine(a + [' '] + b, key, s, showFloat);
    EscapeSpace(a, b, MeasurementSpecial);
    EscapeAllPlain(s, StringSpecial);
  }

  /** `myMeasurement fieldKey="\"string\" within a string"`: the quotes inside a string
      value get a `\`. */
  lemma QuotedWordField(measurement: string, key: string, w: string, r: string, showFloat: FloatFormat)
    requires PlainMeasurement(measurement) && PlainName(key)
    requires NoneOf(w, StringSpecial) && NoneOf(r, StringSpecial)
    ensures Encode(measurement, [], [(key, String("\"" + w + "\"" + r))], None, showFloat)
      == Emission(measurement
                  + ([' '] + (key + ['='] + ("\"\\\"" + w + "\\\"" + r + "\"")) + ['\n']), Ok(()))
  {
    StringFieldLine(measurement, key, "\"" + w + "\"" + r, showFloat);
    EscapeAllPlain(measurement, MeasurementSpecial);
    RenderQuotedWord(w, r, showFloat);
  }

  /** A word pair joined by a space, as in `tag Key1`. */
  function Spaced(words: (string, string)): string {
    words.0 + [' '] + words.1
  }

  /** The same pair with the space escaped, as in `tag\ Key1`. */
  function EscapedSpaced(words: (string, string)): string {
    words.0 + ['\\', ' '] + words.1
  }

  predicate PlainWords(words: (string, string)) {
    NoneOf(words.0, KeySpecial) && NoneOf(words.1, KeySpecial)
  }

  lemma SpacedWords(words: (string, string))
    requires PlainWords(words)
    ensures EscapeAll(Spaced(words), KeySpecial) == EscapedSpaced(words)
  {
    EscapeSpace(words.0, words.1, KeySpecial);
  }

  /** `myMeasurement,tag\ Key1=tag\ Value1,tag\ Key2=tag\ Value2 fieldKey=100`: every
      space in a tag key or tag value gets a `\`, and a float field is written as the
      float formatter writes it. */
  lemma SpacedTags(measurement: string, k1: (string, string), v1: (string, string),
                   k2: (string, string), v2: (string, string),
                   key: string, bits: bv64, showFloat: FloatFormat)
    requires PlainMeasurement(measurement) && PlainName(key)
    requires PlainWords(k1) && PlainWords(v1) && PlainWords(k2) && PlainWords(v2)
    requires ValidTag((Spaced(k1), Spaced(v1))) && ValidTag((Spaced(k2), Spaced(v2)))
    ensures Encode(measurement, [(Spaced(k1), Spaced(v1)), (Spaced(k2), Spaced(v2))],
                   [(key, Float(bits))], None, showFloat)
      == Emission(measurement
                  + (([','] + EscapedSpaced(k1) + ['='] + EscapedSpaced(v1))
                     + ([','] + EscapedSpaced(k2) + ['='] + EscapedSpaced(v2)))
                  + ([' '] + (key + ['='] + showFloat(bits)) + ['\n']), Ok(()))
  {
    var tags := [(Spaced(k1), Spaced(v1)), (Spaced(k2), Spaced(v2))];
    OneFieldLine(measurement, tags, key, Float(bits), None, showFloat);
    TwoTagsText(tags[0], tags[1]);
    SpacedWords(k1);
    SpacedWords(v1);
    SpacedWords(k2);
    SpacedWords(v2);
    EscapeAllPlain(measurement, MeasurementSpecial);
    EscapeAllPlain(key, KeySpecial);
  }

  /** One plain tag, a plain string field and a timestamp. */
  lemma OneTagLine(measurement: string, tagKey: string, v: string, key: string, s: string,
                   ts: i64, showFloat: FloatFormat)
    requires PlainMeasurement(measurement) && PlainName(tagKey) && PlainName(key)
    requires ValidTagValue(v) && NoneOf(v, KeySpecial) && NoneOf(s, StringSpecial)
    ensures Encode(measurement, [(tagKey, v)], [(key, String(s))], Some(ts), showFloat)
      == Emission(measurement
                  + ([','] + tagKey + ['='] + v)
                  + ([' '] + (key + ['='] + ("\"" + s + "\"")) + (" " + IntText(ts as int)) + ['\n']),
                  Ok(()))
  {
    OneFieldLine(measurement, [(tagKey, v)], key, String(s), Some(ts), showFloat);
    OneTagText((tagKey, v));
    EscapeAllPlain(measurement, MeasurementSpecial);
    EscapeAllPlain(tagKey, KeySpecial);
    EscapeAllPlain(v, KeySpecial);
    EscapeAllPlain(key, KeySpecial);
    EscapeAllPlain(s, StringSpecial);
  }

  /** The emoji of the crate's example are outside every escape set, and the lollipop
      is a valid tag value (four bytes of UTF-8, no newline). */
  lemma EmojiPlain()
    ensures ValidTagValue("\U{1F36D}") && NoneOf("\U{1F36D}", KeySpecial)
    ensures NoneOf("Launch \U{1F680}", StringSpecial)
  {
    assert Utf8Len("\U{1F36D}") == 4 by { assert "\U{1F36D}"[1..] == []; }
  }

  /** `myMeasurement,tagKey=🍭 fieldKey="Launch 🚀" 1556813561098000000`: emoji are
      copied unchanged into a tag value and into a string field value. */
  lemma EmojiLine(measurement: string, tagKey: string, key: string, ts: i64, showFloat: FloatFormat)
    requires PlainMeasurement(measurement) && PlainName(tagKey) && PlainName(key)
    ensures Encode(measurement, [(tagKey, "\U{1F36D}")], [(key, String("Launch \U{1F680}"))], Some(ts), showFloat)
      == Emission(measurement
                  + ([','] + tagKey + ['='] + "\U{1F36D}")
                  + ([' '] + (key + ['='] + ("\"" + "Launch \U{1F680}" + "\"")) + (" " + IntText(ts as int)) + ['\n']),
                  Ok(()))
  {
    EmojiPlain();
    OneTagLine(measurement, tagKey, "\U{1F36D}", key, "Launch \U{1F680}", ts, showFloat);
  }

  /** `myMeasurement fieldKey1=1,fieldKey2=2i`: a space before the first field and a
      comma before the second. */
  lemma TwoFields(measurement: string, k1: string, v1: FieldValue, k2: string, v2: FieldValue,
                  showFloat: FloatFormat)
    requires PlainMeasurement(measurement) && PlainName(k1) && PlainName(k2)
    ensures Encode(measurement, [], [(k1, v1), (k2, v2)], None, showFloat)
      == Emission(measurement
                  + ([' '] + ((k1 + ['='] + Render(v1, showFloat)) + [','] + (k2 + ['='] + Render(v2, showFloat)))
                     + ['\n']), Ok(()))
  {
    var fields: seq<Field> := [(k1, v1), (k2, v2)];
    EncodeValid(measurement, [], fields, None, showFloat);
    var parts := FieldTexts(fields, showFloat);
    assert parts == [FieldText((k1, v1), showFloat), FieldText((k2, v2), showFloat)];
    assert Join(parts) == parts[0] + [','] + parts[1] by {
      assert parts[1..] == [parts[1]];
    }
    EscapeAllPlain(measurement, MeasurementSpecial);
    EscapeAllPlain(k1, KeySpecial);
    EscapeAllPlain(k2, KeySpecial);
    var joined := Join(parts);
    assert TagsText([]) == [] && measurement + [] == measurement;
    assert TimestampText(None) == [] && [' '] + joined + [] == [' '] + joined;
  }

  /** A string field value is never checked: however long it is, and with or without
      a newline, the point is written whole and the newline is copied into the line. */
  lemma FieldStringUnchecked(measurement: string, tags: seq<Tag>, key: string, s: string,
                             timestamp: Option<i64>, showFloat: FloatFormat)
    requires ValidName(measurement) && ValidTags(tags) && ValidName(key)
    ensures var e := Encode(measurement, tags, [(key, String(s))], timestamp, showFloat);
            e.result == Ok(()) && ('\n' in s ==> '\n' in e.written[..|e.written| - 1])
  {
    OneFieldLine(measurement, tags, key, String(s), timestamp, showFloat);
    if '\n' in s {
      EscapeStringKeepsNewline(s);
      var f := EscapeAll(key, KeySpecial) + ['='] + Render(String(s), showFloat);
      assert f == EscapeAll(key, KeySpecial) + ['='] + ("\"" + EscapeString(s) + "\"");
      assert '\n' in f;
      NewlineBeforeEnd(EscapeAll(measurement, MeasurementSpecial) + TagsText(tags), f, TimestampText(timestamp));
    }
  }

  lemma {:induction false} EscapeStringKeepsNewline(s: string)
    requires '\n' in s
    ensures '\n' in EscapeString(s)
  {
    if s[0] != '\n' {
      assert '\n' in s[1..] by {
        var k :| 0 <= k < |s| && s[k] == '\n';
        assert s[1..][k - 1] == '\n';
      }
      EscapeStringKeepsNewline(s[1..]);
    }
  }

  lemma NewlineBeforeEnd(x: string, f: string, t: string)
    requires '\n' in f
    ensures var w := x + ([' '] + f + t + ['\n']); '\n' in w[..|w| - 1]
  {
    var w := x + ([' '] + f + t + ['\n']);
    assert w[..|w| - 1] == x + ([' '] + f + t);
  }
}
