/** Field values and their literal text (influxdb-line-protocol/src/field_value.rs). */
module FieldValues {

  import opened Errors
  import opened Primitives
  import opened Writers

  /** Rust's `Display` for `f64` (shortest round-trip decimal) is foreign formatting
      code; the model takes it as a parameter and claims nothing about its text. */
  type FloatFormat = bv64 -> string

  /** The closed five-way union `FieldValue`. A float is held as its IEEE-754 bits. */
  datatype FieldValue =
    | Float(bits: bv64)
    | Integer(i: i64)
    | UInteger(u: u64)
    | String(s: string)
    | Boolean(b: bool)

  /** The two characters a string field value escapes. */
  const StringSpecial: set<char> := {'"', '\\'}

  /** The body of a string field value: `"` and `\` get a `\` in front, every other
      character (newline included) is copied. */
  function EscapeString(s: string): string {
    EscapeAll(s, StringSpecial)
  }

  function Quoted(s: string): string {
    "\"" + EscapeString(s) + "\""
  }

  /** The text `FieldValue::to_writer` writes for `v`. */
  function Render(v: FieldValue, showFloat: FloatFormat): string {
    match v
    case Float(bits) => showFloat(bits)
    case Integer(i) => IntText(i as int) + "i"
    case UInteger(u) => IntText(u as int) + "u"
    case String(s) => Quoted(s)
    case Boolean(b) => if b then "true" else "false"
  }

  /** `FieldValue::to_writer` on a sink that never fails. */
  method WriteTo(v: FieldValue, w: Writer, showFloat: FloatFormat)
    modifies w
    ensures w.text == old(w.text) + Render(v, showFloat)
  {
    match v
    case Float(bits) =>
      w.WriteStr(showFloat(bits));
    case Integer(i) =>
      w.WriteStr(IntText(i as int) + "i");
    case UInteger(u) =>
      w.WriteStr(IntText(u as int) + "u");
    case String(s) =>
      w.WriteChar('"');
      ghost var start := w.text;
      var k := 0;
      while k < |s|
        invariant 0 <= k <= |s|
        invariant w.text == start + EscapeAll(s[..k], StringSpecial)
      {
        var c := s[k];
        EscapeAllAppend(s[..k], [c], StringSpecial);
        assert s[..k + 1] == s[..k] + [c];
        assert EscapeAll([c], StringSpecial) == EscapeChar(c, StringSpecial);
        AppendAssoc(start, EscapeAll(s[..k], StringSpecial), EscapeChar(c, StringSpecial));
        if c == '"' {
          w.WriteStr("\\\"");
        } else if c == '\\' {
          w.WriteStr("\\\\");
        } else {
          w.WriteChar(c);
        }
        k := k + 1;
      }
      assert s[..k] == s;
      w.WriteChar('"');
      assert w.text == old(w.text) + (['"'] + EscapeString(s) + ['"']);
    case Boolean(b) =>
      if b {
        w.WriteStr("true");
      } else {
        w.WriteStr("false");
      }
  }

  /** A rendered string value is `|s| + 2 + (number of '"' and '\')` characters long,
      and begins and ends with a quote. */
  lemma QuotedShape(s: string)
    ensures |Quoted(s)| == |s| + 2 + Occurrences(s, StringSpecial)
    ensures Quoted(s)[0] == '"' && Quoted(s)[|Quoted(s)| - 1] == '"'
  {
    EscapeAllLength(s, StringSpecial);
  }

  /** A reader for the literal forms of the four non-float variants. */
  function ParseFieldValue(t: string): Option<FieldValue> {
    if |t| >= 2 && t[0] == '"' && t[|t| - 1] == '"' then
      Some(String(Unescape(t[1..|t| - 1], StringSpecial)))
    else if t == "true" then
      Some(Boolean(true))
    else if t == "false" then
      Some(Boolean(false))
    else if |t| >= 1 && t[|t| - 1] == 'i' then
      match ParseInt(t[..|t| - 1])
      case Some(v) => if -0x8000_0000_0000_0000 <= v < 0x8000_0000_0000_0000 then Some(Integer(v as i64)) else None
      case None => None
    else if |t| >= 1 && t[|t| - 1] == 'u' then
      match ParseInt(t[..|t| - 1])
      case Some(v) => if 0 <= v < 0x1_0000_0000_0000_0000 then Some(UInteger(v as u64)) else None
      case None => None
    else
      None
  }

  /** Every non-float field value is recovered from its text: the integer suffixes,
      the boolean words and the string quoting are unambiguous. */
  lemma RenderRoundTrip(v: FieldValue, showFloat: FloatFormat)
    requires !v.Float?
    ensures ParseFieldValue(Render(v, showFloat)) == Some(v)
  {
    var t := Render(v, showFloat);
    match v
    case Integer(i) =>
      assert t[0] != '"' && t[|t| - 1] == 'i' && t != "true" && t != "false";
      assert t[..|t| - 1] == IntText(i as int);
      IntTextRoundTrip(i as int);
    case UInteger(u) =>
      assert t[0] != '"' && t[|t| - 1] == 'u' && t != "true" && t != "false";
      assert t[..|t| - 1] == IntText(u as int);
      IntTextRoundTrip(u as int);
    case String(s) =>
      assert t[1..|t| - 1] == EscapeString(s);
      UnescapeEscapeAll(s, StringSpecial);
    case Boolean(b) =>
  }

  /** Distinct non-float values render to distinct text. */
  lemma RenderInjective(v: FieldValue, v': FieldValue, showFloat: FloatFormat)
    requires !v.Float? && !v'.Float?
    requires Render(v, showFloat) == Render(v', showFloat)
    ensures v == v'
  {
    RenderRoundTrip(v, showFloat);
    RenderRoundTrip(v', showFloat);
  }

  /** Each `"` and `\` of `s` becomes two characters of that same set. */
  lemma {:induction false} EscapeStringOccurrences(s: string)
    ensures Occurrences(EscapeString(s), StringSpecial) == 2 * Occurrences(s, StringSpecial)
  {
    if s != [] {
      EscapeStringOccurrences(s[1..]);
      OccurrencesAppend(EscapeChar(s[0], StringSpecial), EscapeString(s[1..]), StringSpecial);
    }
  }

  /** Escaping is not idempotent: escaping an escaped string that held a `"` or a `\`
      changes it again. */
  lemma EscapeStringNotIdempotent(s: string)
    requires !NoneOf(s, StringSpecial)
    ensures EscapeString(EscapeString(s)) != EscapeString(s)
  {
    OccurrencesZero(s, StringSpecial);
    EscapeStringOccurrences(s);
    OccurrencesZero(EscapeString(s), StringSpecial);
    EscapeAllFixedPoint(EscapeString(s), StringSpecial);
  }

  lemma EscapeStringQuote()
    ensures EscapeString(['"']) == ['\\', '"']
  {
    assert ['"'][1..] == [];
  }

  /** Quotes around a text are escaped in place. */
  lemma EscapeStringAround(x: string)
    ensures EscapeString(['"'] + x + ['"']) == ['\\', '"'] + EscapeString(x) + ['\\', '"']
  {
    EscapeStringQuote();
    EscapeAllAppend(['"'] + x, ['"'], StringSpecial);
    EscapeAllAppend(['"'], x, StringSpecial);
  }

  /** Rendering a string value that is itself a rendered string value escapes the outer
      quotes and re-escapes every earlier escape. */
  lemma RenderRendered(s: string, showFloat: FloatFormat)
    ensures Render(String(Quoted(s)), showFloat)
         == "\"\\\"" + EscapeString(EscapeString(s)) + "\\\"\""
  {
    var q := Quoted(s);
    assert q == ['"'] + EscapeString(s) + ['"'];
    EscapeStringAround(EscapeString(s));
    assert Render(String(q), showFloat) == ['"'] + EscapeString(q) + ['"'];
  }

  /** Escaping `"w" r` when `w` and `r` hold no quote or backslash. */
  lemma EscapeQuotedWord(w: string, r: string)
    requires NoneOf(w, StringSpecial) && NoneOf(r, StringSpecial)
    ensures EscapeString(['"'] + w + ['"'] + r) == ['\\', '"'] + w + ['\\', '"'] + r
  {
    EscapeAllPlain(w, StringSpecial);
    EscapeAllPlain(r, StringSpecial);
    EscapeStringAround(w);
    EscapeAllAppend(['"'] + w + ['"'], r, StringSpecial);
  }

  /** The shape of the crate's own string example: a value `"w" r` with no quote or
      backslash in `w` and `r` is written `"\"w\" r"`. */
  lemma RenderQuotedWord(w: string, r: string, showFloat: FloatFormat)
    requires NoneOf(w, StringSpecial) && NoneOf(r, StringSpecial)
    ensures Render(String("\"" + w + "\"" + r), showFloat) == "\"\\\"" + w + "\\\"" + r + "\""
  {
    var v := ['"'] + w + ['"'] + r;
    EscapeQuotedWord(w, r);
    assert Render(String(v), showFloat) == ['"'] + EscapeString(v) + ['"'];
  }
}
