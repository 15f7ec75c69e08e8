/**
  The string helpers of the configuration editor: `itos` and the `atoi` it is
  read back with, `count_newlines`, `escape_HTML` and `unescape_URL`, and
  what `c_str()` keeps of a string.

  The helpers that the C++ code writes as index loops are methods here, each
  proved equal to a recursive specification function; the lemmas state what
  those functions promise (an inverse, a bound, an identity on plain text).
 */
module WebStrings {
  import opened Ints

  /* ---------------- itos and atoi ---------------- */

  function DigitChar(d: int): (c: Char8)
    requires 0 <= d < 10
    ensures '0' <= c <= '9'
  {
    (('0' as int) + d) as char
  }

  predicate IsDigit(c: Char8) { '0' <= c <= '9' }

  function DigitValue(c: Char8): (d: nat)
    requires IsDigit(c)
    ensures d < 10
  {
    (c as int) - ('0' as int)
  }

  /** The decimal digits of n, most significant first, without leading zeros. */
  function NatDecimal(n: nat): (r: Str)
    ensures 1 <= |r|
    ensures forall i :: 0 <= i < |r| ==> IsDigit(r[i])
  {
    if n < 10 then [DigitChar(n)] else NatDecimal(n / 10) + [DigitChar(n % 10)]
  }

  /** `itos`, the `"%d"` rendering of an int: a minus sign for negatives, then the digits. */
  function Itos(i: int): (r: Str)
    ensures 1 <= |r|
    ensures i < 0 <==> r[0] == '-'
  {
    if i < 0 then "-" + NatDecimal(-i) else NatDecimal(i)
  }

  /** The value of a run of decimal digits. */
  function DecimalValue(ds: Str): nat
    requires forall i :: 0 <= i < |ds| ==> IsDigit(ds[i])
  {
    if ds == [] then 0 else 10 * DecimalValue(ds[..|ds| - 1]) + DigitValue(ds[|ds| - 1])
  }

  /** The longest prefix of s made of decimal digits. */
  function DigitRun(s: Str): (r: Str)
    ensures r <= s
    ensures forall i :: 0 <= i < |r| ==> IsDigit(r[i])
    ensures |r| < |s| ==> !IsDigit(s[|r|])
  {
    if s == [] || !IsDigit(s[0]) then [] else [s[0]] + DigitRun(s[1..])
  }

  predicate IsSpace(c: Char8) { c == ' ' || c == '\t' || c == '\n' || c == '\r' || c as int == 11 || c as int == 12 }

  function SkipSpace(s: Str): (r: Str)
    ensures |r| <= |s| && r == s[|s| - |r|..]
    ensures r != [] ==> !IsSpace(r[0])
  {
    if s != [] && IsSpace(s[0]) then SkipSpace(s[1..]) else s
  }

  /**
    `atoi`: leading white space, an optional sign, then the longest run of
    decimal digits; 0 when there are none.  The C function's behaviour on
    overflow is undefined; the model wraps to 32 bits.
   */
  function Atoi(s: Str): int32
  {
    var t := SkipSpace(s);
    if t != [] && t[0] == '-' then Wrap32(-(DecimalValue(DigitRun(t[1..])) as int))
    else if t != [] && t[0] == '+' then Wrap32(DecimalValue(DigitRun(t[1..])))
    else Wrap32(DecimalValue(DigitRun(t)))
  }

  lemma {:induction false} DecimalValueOfNatDecimal(n: nat)
    ensures DecimalValue(NatDecimal(n)) == n
  {
    if n >= 10 {
      var r := NatDecimal(n);
      assert r[..|r| - 1] == NatDecimal(n / 10);
      DecimalValueOfNatDecimal(n / 10);
    }
  }

  lemma {:induction false} DigitRunOfDigits(s: Str)
    requires forall i :: 0 <= i < |s| ==> IsDigit(s[i])
    ensures DigitRun(s) == s
  {
    if s != [] {
      DigitRunOfDigits(s[1..]);
    }
  }

  /** `atoi` of a plain run of digits is their value, wrapped to 32 bits. */
  lemma AtoiDigits(ds: Str)
    requires ds != [] && forall i :: 0 <= i < |ds| ==> IsDigit(ds[i])
    ensures Atoi(ds) == Wrap32(DecimalValue(ds))
  {
    DigitRunOfDigits(ds);
    assert IsDigit(ds[0]);
    assert !IsSpace(ds[0]);
    assert SkipSpace(ds) == ds;
  }

  /** `atoi` of text that starts with a minus sign negates the digits after it. */
  lemma AtoiNegative(t: Str)
    requires t != [] && t[0] == '-'
    ensures Atoi(t) == Wrap32(-(DecimalValue(DigitRun(t[1..])) as int))
  {
    assert !IsSpace(t[0]);
    assert SkipSpace(t) == t;
  }

  lemma {:induction false} AtoiMinusDigits(ds: Str)
    requires ds != [] && forall i :: 0 <= i < |ds| ==> IsDigit(ds[i])
    ensures Atoi("-" + ds) == Wrap32(-(DecimalValue(ds) as int))
  {
    DigitRunOfDigits(ds);
    var m: Str := "-" + ds;
    assert m[0] == '-' && !IsSpace(m[0]);
    assert m[1..] == ds;
    AtoiNegative(m);
  }

  /** Reading `itos(i)` back with `atoi` gives i: the round trip a form submission relies on. */
  lemma AtoiItos(i: int32)
    ensures Atoi(Itos(i)) == i
  {
    var n: nat := if i < 0 then -(i as int) else i;
    DecimalValueOfNatDecimal(n);
    if i < 0 {
      AtoiMinusDigits(NatDecimal(n));
    } else {
      AtoiDigits(NatDecimal(n));
    }
  }

  lemma {:induction false} NatDecimalLength(n: nat, k: nat)
    requires n < Pow10(k) && k >= 1
    ensures |NatDecimal(n)| <= k
  {
    if n >= 10 {
      NatDecimalLength(n / 10, k - 1);
    }
  }

  function Pow10(k: nat): (p: nat)
    ensures p >= 1
  {
    if k == 0 then 1 else 10 * Pow10(k - 1)
  }

  /** A 32-bit int prints in at most 11 characters (`-2147483648`). */
  lemma ItosLength(i: int32)
    ensures |Itos(i)| <= 11
  {
    assert Pow10(10) == 10000000000;
    if i < 0 {
      NatDecimalLength(-(i as int), 10);
    } else {
      NatDecimalLength(i, 10);
    }
  }

  /* ---------------- count_newlines ---------------- */

  /** The number of newline characters in s. */
  function Newlines(s: Str): nat
  {
    if s == [] then 0 else Newlines(s[..|s| - 1]) + (if s[|s| - 1] == '\n' then 1 else 0)
  }

  lemma {:induction false} NewlinesZero(s: Str)
    ensures Newlines(s) == 0 <==> forall i :: 0 <= i < |s| ==> s[i] != '\n'
  {
    if s != [] {
      NewlinesZero(s[..|s| - 1]);
      assert forall i :: 0 <= i < |s| - 1 ==> s[..|s| - 1][i] == s[i];
    }
  }

  lemma {:induction false} NewlinesBound(s: Str)
    ensures Newlines(s) <= |s|
  {
    if s != [] {
      NewlinesBound(s[..|s| - 1]);
    }
  }

  /** `count_newlines`. */
  method CountNewlines(src: Str) returns (r: nat)
    ensures r == Newlines(src)
  {
    r := 0;
    var i := 0;
    while i < |src|
      invariant 0 <= i <= |src|
      invariant r == Newlines(src[..i])
    {
      assert src[..i + 1][..i] == src[..i];
      if src[i] == '\n' {
        r := r + 1;
      }
      i := i + 1;
    }
    assert src[..|src|] == src;
  }

  /* ---------------- escape_HTML ---------------- */

  /** The replacement `escape_HTML` makes for one character. */
  function EscapeChar(c: Char8): Str
  {
    if c == '"' then "&quot;"
    else if c == '<' then "&lt;"
    else if c == '>' then "&gt;"
    else if c == '&' then "&amp;"
    else [c]
  }

  predicate IsHtmlSpecial(c: Char8) { c == '"' || c == '<' || c == '>' || c == '&' }

  /** The text `escape_HTML` returns. */
  function Escaped(s: Str): Str
  {
    if s == [] then [] else Escaped(s[..|s| - 1]) + EscapeChar(s[|s| - 1])
  }

  /** `escape_HTML`. */
  method EscapeHtml(str: Str) returns (ret: Str)
    ensures ret == Escaped(str)
  {
    ret := [];
    var i := 0;
    while i < |str|
      invariant 0 <= i <= |str|
      invariant ret == Escaped(str[..i])
    {
      assert str[..i + 1][..i] == str[..i];
      var c := str[i];
      if c == '"' {
        ret := ret + "&quot;";
      } else if c == '<' {
        ret := ret + "&lt;";
      } else if c == '>' {
        ret := ret + "&gt;";
      } else if c == '&' {
        ret := ret + "&amp;";
      } else {
        ret := ret + [c];
      }
      i := i + 1;
    }
    assert str[..|str|] == str;
  }

  lemma {:induction false} EscapedAppend(a: Str, b: Str)
    ensures Escaped(a + b) == Escaped(a) + Escaped(b)
    decreases |b|
  {
    if b != [] {
      assert (a + b)[..|a + b| - 1] == a + b[..|b| - 1];
      EscapedAppend(a, b[..|b| - 1]);
    } else {
      assert a + b == a;
    }
  }

  lemma EscapedCons(c: Char8, s: Str)
    ensures Escaped([c] + s) == EscapeChar(c) + Escaped(s)
  {
    EscapedAppend([c], s);
    assert [c][..0] == [];
  }

  /** The escaped text never holds a quote or an angle bracket, so it is safe inside an attribute. */
  lemma {:induction false} EscapedHasNoSpecials(s: Str)
    ensures forall i :: 0 <= i < |Escaped(s)| ==> Escaped(s)[i] != '"' && Escaped(s)[i] != '<' && Escaped(s)[i] != '>'
  {
    if s != [] {
      EscapedHasNoSpecials(s[..|s| - 1]);
    }
  }

  /** Text without any of the four special characters is copied unchanged. */
  lemma {:induction false} EscapedPlain(s: Str)
    requires forall i :: 0 <= i < |s| ==> !IsHtmlSpecial(s[i])
    ensures Escaped(s) == s
  {
    if s != [] {
      EscapedPlain(s[..|s| - 1]);
      assert s[..|s| - 1] + [s[|s| - 1]] == s;
    }
  }

  /* ---------------- c_str() ---------------- */

  /**
    A `std::string` seen through `c_str()`, by `%s` or by a `std::string`
    built from the pointer: the characters before the first NUL.
   */
  function CString(s: Str): (r: Str)
    ensures r <= s && '\0' !in r
    ensures |r| < |s| ==> s[|r|] == '\0'
    ensures '\0' !in s ==> r == s
  {
    if s == [] || s[0] == '\0' then [] else [s[0]] + CString(s[1..])
  }

  /** Text without a NUL is kept whole, and cutting stops inside the rest. */
  lemma {:induction false} CStringAppend(a: Str, b: Str)
    requires '\0' !in a
    ensures CString(a + b) == a + CString(b)
  {
    if a != [] {
      assert (a + b)[0] == a[0];
      assert (a + b)[1..] == a[1..] + b;
      CStringAppend(a[1..], b);
      assert [a[0]] + a[1..] == a;
    } else {
      assert a + b == b;
    }
  }

  /** Escaping keeps NULs where they were, so cutting before or after escaping is the same. */
  lemma {:induction false} CStringEscaped(s: Str)
    ensures CString(Escaped(s)) == Escaped(CString(s))
  {
    if s != [] {
      EscapedCons(s[0], s[1..]);
      assert [s[0]] + s[1..] == s;
      if s[0] == '\0' {
        assert Escaped(s) == ['\0'] + Escaped(s[1..]);
      } else {
        CStringAppend(EscapeChar(s[0]), Escaped(s[1..]));
        CStringEscaped(s[1..]);
        EscapedCons(s[0], CString(s[1..]));
      }
    }
  }

  /** What a browser does with the four entities `escape_HTML` produces. */
  function DecodeEntities(s: Str): Str
  {
    if s == [] then []
    else if s[0] != '&' then [s[0]] + DecodeEntities(s[1..])
    else if |s| >= 6 && s[..6] == "&quot;" then ['"'] + DecodeEntities(s[6..])
    else if |s| >= 4 && s[..4] == "&lt;" then ['<'] + DecodeEntities(s[4..])
    else if |s| >= 4 && s[..4] == "&gt;" then ['>'] + DecodeEntities(s[4..])
    else if |s| >= 5 && s[..5] == "&amp;" then ['&'] + DecodeEntities(s[5..])
    else [s[0]] + DecodeEntities(s[1..])
  }

  lemma DecodeEscapeChar(c: Char8, rest: Str)
    ensures DecodeEntities(EscapeChar(c) + rest) == [c] + DecodeEntities(rest)
  {
    var e := EscapeChar(c);
    var t := e + rest;
    assert t[..|e|] == e && t[|e|..] == rest;
    if c == '&' {
      assert t[..5] == "&amp;";
      assert t[1] == 'a' && t[..4] != "&lt;" && t[..4] != "&gt;";
      assert |t| < 6 || t[..6] != "&quot;";
    } else if c == '"' {
      assert t[..6] == "&quot;" && t[6..] == rest;
    } else if c == '<' {
      assert t[..4] == "&lt;" && t[4..] == rest;
      assert t[1] == 'l' && (|t| < 6 || t[..6] != "&quot;");
    } else if c == '>' {
      assert t[..4] == "&gt;" && t[4..] == rest;
      assert t[1] == 'g' && (|t| < 6 || t[..6] != "&quot;") && t[..4] != "&lt;";
    } else {
      assert e == [c];
      assert t[0] == c;
      assert t[1..] == rest;
    }
  }

  /** Escaping loses nothing: the browser's entity decoding gives the original text back. */
  lemma {:induction false} DecodeEscaped(s: Str)
    ensures DecodeEntities(Escaped(s)) == s
  {
    if s != [] {
      assert s == [s[0]] + s[1..];
      EscapedCons(s[0], s[1..]);
      DecodeEscapeChar(s[0], Escaped(s[1..]));
      DecodeEscaped(s[1..]);
    }
  }

  /* ---------------- unescape_URL ---------------- */

  predicate IsHexDigit(c: Char8)
  {
    ('0' <= c <= '9') || ('a' <= c <= 'f') || ('A' <= c <= 'F')
  }

  function HexValue(c: Char8): (v: nat)
    requires IsHexDigit(c)
    ensures v < 16
  {
    if '0' <= c <= '9' then (c as int) - ('0' as int)
    else if 'a' <= c <= 'f' then (c as int) - ('a' as int) + 10
    else (c as int) - ('A' as int) + 10
  }

  /**
    `sscanf(buf, "%x", &v)` on the two characters a, b, with v starting at 0:
    optional white space or sign, then as many hex digits as there are.  The
    `(char)v` cast keeps the low byte.
   */
  function ScanHexPair(a: Char8, b: Char8): (r: byte)
    ensures IsHexDigit(a) && IsHexDigit(b) ==> r == 16 * HexValue(a) + HexValue(b)
  {
    if IsHexDigit(a) then (if IsHexDigit(b) then 16 * HexValue(a) + HexValue(b) else HexValue(a))
    else if (IsSpace(a) || a == '+') && IsHexDigit(b) then HexValue(b)
    else if a == '-' && IsHexDigit(b) then (256 - HexValue(b)) % 256
    else 0
  }

  /** The text `unescape_URL` returns. */
  function Unescaped(s: Str): Str
  {
    if s == [] then []
    else if s[0] == '+' then " " + Unescaped(s[1..])
    else if s[0] == '%' && 2 < |s| then [ByteChar(ScanHexPair(s[1], s[2]))] + Unescaped(s[3..])
    else [s[0]] + Unescaped(s[1..])
  }

  /** `unescape_URL`. */
  method UnescapeUrl(str: Str) returns (ret: Str)
    ensures ret == Unescaped(str)
  {
    ret := [];
    var i := 0;
    while i < |str|
      invariant 0 <= i <= |str|
      invariant ret + Unescaped(str[i..]) == Unescaped(str)
    {
      UnescapedAt(str, i);
      ghost var r0 := ret;
      var c := str[i];
      if c == '+' {
        ret := ret + " ";
      } else if c == '%' && i + 2 < |str| {
        var v := ScanHexPair(str[i + 1], str[i + 2]);
        ret := ret + [ByteChar(v)];
        i := i + 2;
      } else {
        ret := ret + [c];
      }
      i := i + 1;
      Assoc(r0, ret[|r0|..], Unescaped(str[i..]));
    }
  }

  /** One step of the decoding at position i. */
  lemma UnescapedAt(s: Str, i: nat)
    requires i < |s|
    ensures Unescaped(s[i..]) ==
      if s[i] == '+' then " " + Unescaped(s[i + 1..])
      else if s[i] == '%' && i + 2 < |s| then [ByteChar(ScanHexPair(s[i + 1], s[i + 2]))] + Unescaped(s[i + 3..])
      else [s[i]] + Unescaped(s[i + 1..])
  {
    assert s[i..][1..] == s[i + 1..];
    if i + 3 <= |s| {
      assert s[i..][3..] == s[i + 3..];
    }
  }

  /** The decoded text is never longer than what arrived. */
  lemma {:induction false} UnescapedShorter(s: Str)
    ensures |Unescaped(s)| <= |s|
  {
    if s != [] {
      if s[0] == '%' && 2 < |s| {
        UnescapedShorter(s[3..]);
      } else {
        UnescapedShorter(s[1..]);
      }
    }
  }

  /** Text holding no `%` and no `+` decodes to itself. */
  lemma {:induction false} UnescapedPlain(s: Str)
    requires forall i :: 0 <= i < |s| ==> s[i] != '%' && s[i] != '+'
    ensures Unescaped(s) == s
  {
    if s != [] {
      UnescapedPlain(s[1..]);
      assert [s[0]] + s[1..] == s;
    }
  }

  function HexDigitUpper(v: nat): (c: Char8)
    requires v < 16
    ensures IsHexDigit(c) && HexValue(c) == v
  {
    if v < 10 then (('0' as int) + v) as char else (('A' as int) + v - 10) as char
  }

  predicate IsFormSafe(c: Char8)
  {
    ('0' <= c <= '9') || ('a' <= c <= 'z') || ('A' <= c <= 'Z') || c == '*' || c == '-' || c == '.' || c == '_'
  }

  /**
    How a browser encodes a form value into the query string
    (application/x-www-form-urlencoded): safe characters are kept, a space
    becomes `+`, every other byte becomes `%XX`.
   */
  function FormEncode(s: Str): Str
  {
    if s == [] then []
    else if IsFormSafe(s[0]) then [s[0]] + FormEncode(s[1..])
    else if s[0] == ' ' then "+" + FormEncode(s[1..])
    else ['%', HexDigitUpper((s[0] as int) / 16), HexDigitUpper((s[0] as int) % 16)] + FormEncode(s[1..])
  }

  /** `unescape_URL` undoes the browser's form encoding of every byte string. */
  lemma {:induction false} UnescapeFormEncoded(s: Str)
    ensures Unescaped(FormEncode(s)) == s
  {
    if s != [] {
      var e := FormEncode(s);
      UnescapeFormEncoded(s[1..]);
      if IsFormSafe(s[0]) || s[0] == ' ' {
        assert e[1..] == FormEncode(s[1..]);
      } else {
        assert e[3..] == FormEncode(s[1..]);
        assert ByteChar(ScanHexPair(e[1], e[2])) == s[0];
      }
      assert s == [s[0]] + s[1..];
    }
  }
}
