/** Machine integers, UTF-8 byte length, decimal text and backslash escaping over a
    set of special characters, shared by the field-value codec and the line encoder. */
module Primitives {

  import opened Errors

  newtype i64 = x: int | -0x8000_0000_0000_0000 <= x < 0x8000_0000_0000_0000
  newtype u64 = x: int | 0 <= x < 0x1_0000_0000_0000_0000

  /** Number of bytes the UTF-8 encoding of one Unicode scalar value takes. */
  function CharUtf8Len(c: char): (n: nat)
    ensures 1 <= n <= 4
    ensures n == 1 <==> c as int < 0x80
  {
    if c as int < 0x80 then 1
    else if c as int < 0x800 then 2
    else if c as int < 0x1_0000 then 3
    else 4
  }

  /** Rust's `str::len()`: the length of the UTF-8 encoding, in bytes. */
  function Utf8Len(s: string): (n: nat)
    ensures |s| <= n <= 4 * |s|
  {
    if s == [] then 0 else CharUtf8Len(s[0]) + Utf8Len(s[1..])
  }

  predicate IsAscii(s: string) {
    forall i :: 0 <= i < |s| ==> s[i] as int < 0x80
  }

  /** On ASCII text the byte length is the character count. */
  lemma {:induction false} AsciiUtf8Len(s: string)
    requires IsAscii(s)
    ensures Utf8Len(s) == |s|
  {
    if s != [] {
      assert IsAscii(s[1..]) by {
        forall i | 0 <= i < |s[1..]| ensures s[1..][i] as int < 0x80 { assert s[1..][i] == s[i + 1]; }
      }
      AsciiUtf8Len(s[1..]);
    }
  }

  /** `n` copies of one character take `n` times its byte length. */
  lemma {:induction false} Utf8LenRepeat(c: char, n: nat)
    ensures Utf8Len(seq(n, _ => c)) == n * CharUtf8Len(c)
  {
    if n > 0 {
      assert seq(n, _ => c)[1..] == seq(n - 1, _ => c);
      Utf8LenRepeat(c, n - 1);
    }
  }

  /** The byte length of a concatenation is the sum of the byte lengths. */
  lemma {:induction false} Utf8LenAppend(a: string, b: string)
    ensures Utf8Len(a + b) == Utf8Len(a) + Utf8Len(b)
  {
    if a == [] {
      assert a + b == b;
    } else {
      assert (a + b)[1..] == a[1..] + b;
      Utf8LenAppend(a[1..], b);
    }
  }

  /** How many characters of `s` belong to `cs`. */
  function Occurrences(s: string, cs: set<char>): (n: nat)
    ensures n <= |s|
  {
    if s == [] then 0 else (if s[0] in cs then 1 else 0) + Occurrences(s[1..], cs)
  }

  lemma AppendAssoc(a: string, b: string, c: string)
    ensures (a + b) + c == a + (b + c)
  {
  }

  /** No character of `s` belongs to `cs`. */
  predicate NoneOf(s: string, cs: set<char>) {
    forall i :: 0 <= i < |s| ==> s[i] !in cs
  }

  lemma {:induction false} OccurrencesZero(s: string, cs: set<char>)
    ensures Occurrences(s, cs) == 0 <==> NoneOf(s, cs)
  {
    if s != [] {
      OccurrencesZero(s[1..], cs);
      assert NoneOf(s, cs) <==> s[0] !in cs && NoneOf(s[1..], cs) by {
        if s[0] !in cs && NoneOf(s[1..], cs) {
          forall i | 0 <= i < |s| ensures s[i] !in cs { if i > 0 { assert s[i] == s[1..][i - 1]; } }
        }
      }
    }
  }

  lemma {:induction false} OccurrencesAppend(a: string, b: string, cs: set<char>)
    ensures Occurrences(a + b, cs) == Occurrences(a, cs) + Occurrences(b, cs)
  {
    if a == [] {
      assert a + b == b;
    } else {
      assert (a + b)[1..] == a[1..] + b;
      OccurrencesAppend(a[1..], b, cs);
    }
  }

  // Backslash escaping. The crate escapes with three sets: `,` and space for
  // measurements, `,`, `=` and space for keys and tag values, `"` and `\` for the
  // body of a string field value.

  function EscapeChar(c: char, special: set<char>): string {
    if c in special then ['\\', c] else [c]
  }

  /** The escaped form of `s`: a `\` in front of every character of `special`. */
  function EscapeAll(s: string, special: set<char>): string {
    if s == [] then [] else EscapeChar(s[0], special) + EscapeAll(s[1..], special)
  }

  lemma {:induction false} EscapeAllAppend(a: string, b: string, special: set<char>)
    ensures EscapeAll(a + b, special) == EscapeAll(a, special) + EscapeAll(b, special)
  {
    if a == [] {
      assert a + b == b;
    } else {
      assert (a + b)[1..] == a[1..] + b;
      EscapeAllAppend(a[1..], b, special);
    }
  }

  /** Reading escaped text back: a `\` in front of a special character stands for
      that character. */
  function Unescape(t: string, special: set<char>): string {
    if t == [] then []
    else if t[0] == '\\' && |t| > 1 && t[1] in special then [t[1]] + Unescape(t[2..], special)
    else [t[0]] + Unescape(t[1..], special)
  }

  lemma EscapeAllHead(s: string, special: set<char>)
    requires s != []
    ensures EscapeAll(s, special) != []
    ensures EscapeAll(s, special)[0] == if s[0] in special then '\\' else s[0]
  {
  }

  /** Escaping loses nothing: every special character gets exactly one `\`, so the
      escaped text can always be read back, whatever the special set. */
  lemma {:induction false} UnescapeEscapeAll(s: string, special: set<char>)
    ensures Unescape(EscapeAll(s, special), special) == s
  {
    if s != [] {
      var rest := EscapeAll(s[1..], special);
      UnescapeEscapeAll(s[1..], special);
      if s[0] in special {
        assert EscapeAll(s, special) == ['\\', s[0]] + rest;
        assert (['\\', s[0]] + rest)[2..] == rest;
      } else {
        assert EscapeAll(s, special) == [s[0]] + rest;
        assert ([s[0]] + rest)[1..] == rest;
        if s[0] == '\\' && rest != [] {
          EscapeAllHead(s[1..], special);
        }
      }
    }
  }

  lemma EscapeAllInjective(s: string, s': string, special: set<char>)
    requires EscapeAll(s, special) == EscapeAll(s', special)
    ensures s == s'
  {
    UnescapeEscapeAll(s, special);
    UnescapeEscapeAll(s', special);
  }

  /** One extra character per special character. */
  lemma {:induction false} EscapeAllLength(s: string, special: set<char>)
    ensures |EscapeAll(s, special)| == |s| + Occurrences(s, special)
  {
    if s != [] {
      EscapeAllLength(s[1..], special);
    }
  }

  /** Text without special characters is copied unchanged (any other character,
      including non-ASCII ones, passes through). */
  lemma {:induction false} EscapeAllPlain(s: string, special: set<char>)
    requires NoneOf(s, special)
    ensures EscapeAll(s, special) == s
  {
    if s != [] {
      assert NoneOf(s[1..], special) by {
        forall i | 0 <= i < |s[1..]| ensures s[1..][i] !in special { assert s[1..][i] == s[i + 1]; }
      }
      EscapeAllPlain(s[1..], special);
    }
  }

  /** Escaping leaves a text unchanged exactly when it holds no special character. */
  lemma {:induction false} EscapeAllFixedPoint(s: string, special: set<char>)
    ensures EscapeAll(s, special) == s <==> Occurrences(s, special) == 0
  {
    EscapeAllLength(s, special);
    if s != [] {
      EscapeAllFixedPoint(s[1..], special);
    }
  }

  // Decimal text, as Rust's `Display` for integers writes it.

  predicate IsDigit(c: char) {
    '0' <= c <= '9'
  }

  predicate AllDigits(s: string) {
    forall i :: 0 <= i < |s| ==> IsDigit(s[i])
  }

  function DigitChar(d: nat): (c: char)
    requires d < 10
    ensures IsDigit(c)
    ensures c as int - '0' as int == d
  {
    ('0' as int + d) as char
  }

  /** The shortest decimal text of a natural number. */
  function NatText(n: nat): (s: string)
    ensures |s| >= 1
    ensures AllDigits(s)
    ensures s[0] == '0' ==> n == 0
  {
    if n < 10 then [DigitChar(n)]
    else
      var s := NatText(n / 10) + [DigitChar(n % 10)];
      assert s[0] == NatText(n / 10)[0];
      s
  }

  /** Decimal text of a signed integer: a `-` before the magnitude of a negative. */
  function IntText(v: int): (s: string)
    ensures |s| >= 1
    ensures s[0] == '-' <==> v < 0
    ensures s[0] == '-' || IsDigit(s[0])
  {
    if v < 0 then ['-'] + NatText(-v) else NatText(v)
  }

  /** The value a string of digits denotes. */
  function DigitsValue(s: string): int {
    if s == [] then 0 else DigitsValue(s[..|s| - 1]) * 10 + (s[|s| - 1] as int - '0' as int)
  }

  /** Reads a decimal integer with an optional leading `-`; `None` for anything else. */
  function ParseInt(s: string): Option<int> {
    if |s| >= 2 && s[0] == '-' && AllDigits(s[1..]) then Some(0 - DigitsValue(s[1..]))
    else if |s| >= 1 && AllDigits(s) then Some(DigitsValue(s))
    else None
  }

  /** Decimal text is read back as the number it was made from. */
  lemma {:induction false} NatTextValue(n: nat)
    ensures DigitsValue(NatText(n)) == n
  {
    var s := NatText(n);
    if n < 10 {
      assert s[..0] == [];
    } else {
      assert s[..|s| - 1] == NatText(n / 10);
      NatTextValue(n / 10);
    }
  }

  /** Decimal text is read back as the integer it was made from. */
  lemma IntTextRoundTrip(v: int)
    ensures ParseInt(IntText(v)) == Some(v)
  {
    var s := IntText(v);
    if v < 0 {
      assert s[1..] == NatText(-v);
      NatTextValue(-v);
    } else {
      NatTextValue(v);
    }
  }

  /** Distinct integers have distinct decimal texts. */
  lemma IntTextInjective(v: int, w: int)
    requires IntText(v) == IntText(w)
    ensures v == w
  {
    IntTextRoundTrip(v);
    IntTextRoundTrip(w);
  }
}
