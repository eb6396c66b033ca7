/**
  The PHP string functions the citation pipeline relies on, restricted to the
  behaviour it uses: trim, strtolower, explode/implode, the (int) and (string)
  casts between integers and strings, urlencode/urldecode, and htmlspecialchars
  together with the way libxml2 reads the escaped text back.
  A PHP string is modelled as a sequence of characters; where PHP works on the
  bytes of a character (urlencode), the UTF-8 bytes are spelled out.
*/
module PhpStrings {

  newtype byte = b: int | 0 <= b < 256

  // ---------------------------------------------------------------- trim

  /** The characters `trim()` strips by default: space, \t, \n, \r, \0 and \x0B. */
  predicate IsTrimChar(c: char) {
    c == ' ' || c == '\t' || c == '\n' || c == '\r' || c == '\0' || c == '\U{B}'
  }

  function TrimLeft(s: string): (r: string)
    ensures |r| <= |s| && r == s[|s| - |r|..]
    ensures forall i :: 0 <= i < |s| - |r| ==> IsTrimChar(s[i])
    ensures r == [] || !IsTrimChar(r[0])
  {
    if s != [] && IsTrimChar(s[0]) then TrimLeft(s[1..]) else s
  }

  function TrimRight(s: string): (r: string)
    ensures |r| <= |s| && r == s[..|r|]
    ensures forall i :: |r| <= i < |s| ==> IsTrimChar(s[i])
    ensures r == [] || !IsTrimChar(r[|r| - 1])
  {
    if s != [] && IsTrimChar(s[|s| - 1]) then TrimRight(s[..|s| - 1]) else s
  }

  /** `trim($s)`: the result neither starts nor ends with a trim character. */
  function Trim(s: string): (r: string)
    ensures |r| <= |s|
    ensures r == [] || (!IsTrimChar(r[0]) && !IsTrimChar(r[|r| - 1]))
  {
    TrimRight(TrimLeft(s))
  }

  /** A string with no trim character at either end is left as it is. */
  lemma TrimUnchanged(s: string)
    requires s == [] || (!IsTrimChar(s[0]) && !IsTrimChar(s[|s| - 1]))
    ensures Trim(s) == s
  {
  }

  /** Trimming only reaches past the end of `t` when all of `t` is trimmed away. */
  lemma {:induction false} TrimRightAppend(p: string, t: string)
    requires p != [] && !IsTrimChar(p[|p| - 1])
    ensures TrimRight(p + t) == p + TrimRight(t)
    decreases |t|
  {
    if t != [] && IsTrimChar(t[|t| - 1]) {
      assert (p + t)[..|p + t| - 1] == p + t[..|t| - 1];
      TrimRightAppend(p, t[..|t| - 1]);
    } else if t == [] {
      assert p + t == p;
    }
  }

  /** Trimming `p + t`, where `p` has no trim character at either end, only trims the tail. */
  lemma TrimPrepended(p: string, t: string)
    requires p != [] && !IsTrimChar(p[0]) && !IsTrimChar(p[|p| - 1])
    ensures Trim(p + t) == p + TrimRight(t)
  {
    assert (p + t)[0] == p[0];
    assert TrimLeft(p + t) == p + t;
    TrimRightAppend(p, t);
  }

  // ---------------------------------------------------------------- strtolower

  predicate IsUpper(c: char) {
    'A' <= c <= 'Z'
  }

  function LowerChar(c: char): (l: char)
    ensures !IsUpper(l)
    ensures !IsUpper(c) ==> l == c
  {
    if IsUpper(c) then (c as int + 32) as char else c
  }

  /** `strtolower($s)`: ASCII letters are lowered one by one, nothing else changes (PHP 8.2 and later). */
  function ToLower(s: string): (r: string)
    ensures |r| == |s|
    ensures forall i :: 0 <= i < |s| ==> r[i] == LowerChar(s[i])
  {
    seq(|s|, i requires 0 <= i < |s| => LowerChar(s[i]))
  }

  predicate NoUpper(s: string) {
    forall i :: 0 <= i < |s| ==> !IsUpper(s[i])
  }

  /** The lowered string has no upper-case ASCII left. */
  lemma ToLowerNoUpper(s: string)
    ensures NoUpper(ToLower(s))
  {
    var r := ToLower(s);
    forall i | 0 <= i < |r|
      ensures !IsUpper(r[i])
    {
      assert r[i] == LowerChar(s[i]);
    }
  }

  lemma ToLowerAppend(a: string, b: string)
    ensures ToLower(a + b) == ToLower(a) + ToLower(b)
  {
    assert forall i :: 0 <= i < |a + b| ==> ToLower(a + b)[i] == (ToLower(a) + ToLower(b))[i];
  }

  /** Lowering is idempotent: a string without upper-case ASCII is its own lower-case form. */
  lemma ToLowerUnchanged(s: string)
    requires NoUpper(s)
    ensures ToLower(s) == s
  {
    assert forall i :: 0 <= i < |s| ==> ToLower(s)[i] == s[i];
  }

  // ---------------------------------------------------------------- explode / implode

  /** `explode($d, $s)` for a one-character delimiter: the pieces between delimiters. */
  function Explode(d: char, s: string): (parts: seq<string>)
    ensures |parts| >= 1
    ensures forall i :: 0 <= i < |parts| ==> d !in parts[i]
  {
    if s == [] then [""]
    else if s[0] == d then [""] + Explode(d, s[1..])
    else
      var rest := Explode(d, s[1..]);
      [[s[0]] + rest[0]] + rest[1..]
  }

  /** `implode($glue, $parts)`. */
  function Implode(glue: string, parts: seq<string>): string {
    if |parts| == 0 then ""
    else if |parts| == 1 then parts[0]
    else parts[0] + glue + Implode(glue, parts[1..])
  }

  /** Gluing the pieces back together with the delimiter gives the original string. */
  lemma {:induction false} ImplodeExplode(d: char, s: string)
    ensures Implode([d], Explode(d, s)) == s
  {
    if s == [] {
    } else if s[0] == d {
      ImplodeExplode(d, s[1..]);
      assert s == [d] + s[1..];
    } else {
      var rest := Explode(d, s[1..]);
      ImplodeExplode(d, s[1..]);
      if |rest| == 1 {
        assert s == [s[0]] + rest[0];
      } else {
        assert rest == [rest[0]] + rest[1..];
        assert Implode([d], rest) == rest[0] + [d] + Implode([d], rest[1..]);
        assert s == [s[0]] + s[1..];
      }
    }
  }

  /** Gluing all pieces is gluing all but the last, the glue, and the last. */
  lemma {:induction false} ImplodeSnoc(glue: string, parts: seq<string>)
    requires |parts| >= 2
    ensures Implode(glue, parts) == Implode(glue, parts[..|parts| - 1]) + glue + parts[|parts| - 1]
    decreases |parts|
  {
    var n := |parts|;
    if n == 2 {
      assert parts[1..] == [parts[1]];
      assert parts[..1] == [parts[0]];
    } else {
      ImplodeSnoc(glue, parts[1..]);
      assert parts[1..][..n - 2] == parts[..n - 1][1..];
      assert parts[1..][n - 2] == parts[n - 1];
    }
  }

  /** A string splits into two or more pieces exactly when it contains the delimiter. */
  lemma ExplodeSplits(d: char, s: string)
    ensures |Explode(d, s)| >= 2 <==> d in s
  {
    var parts := Explode(d, s);
    ImplodeExplode(d, s);
    if |parts| == 1 {
      assert s == parts[0];
    } else {
      assert s == parts[0] + [d] + Implode([d], parts[1..]);
      assert s[|parts[0]|] == d;
    }
  }

  /** Splitting at the first delimiter: a delimiter-free head is the first piece. */
  lemma {:induction false} ExplodeAtDelimiter(d: char, a: string, b: string)
    requires d !in a
    ensures Explode(d, a + [d] + b) == [a] + Explode(d, b)
  {
    if a == [] {
      assert a + [d] + b == [d] + b;
    } else {
      ExplodeAtDelimiter(d, a[1..], b);
      assert (a + [d] + b)[0] == a[0] != d;
      assert (a + [d] + b)[1..] == a[1..] + [d] + b;
      assert a == [a[0]] + a[1..];
    }
  }

  /** A delimiter-free string is a single piece. */
  lemma {:induction false} ExplodeWithoutDelimiter(d: char, a: string)
    requires d !in a
    ensures Explode(d, a) == [a]
  {
    if a != [] {
      ExplodeWithoutDelimiter(d, a[1..]);
      assert a == [a[0]] + a[1..];
    }
  }

  // ---------------------------------------------------------------- integers and decimal numerals

  predicate IsDigit(c: char) {
    '0' <= c <= '9'
  }

  predicate AllDigits(s: string) {
    forall i :: 0 <= i < |s| ==> IsDigit(s[i])
  }

  function DigitValue(c: char): nat
    requires IsDigit(c)
  {
    c as int - '0' as int
  }

  function DigitChar(d: nat): (c: char)
    requires d < 10
    ensures IsDigit(c) && DigitValue(c) == d
  {
    ('0' as int + d) as char
  }

  /** The longest prefix of `s` made of ASCII digits. */
  function LeadingDigits(s: string): (r: string)
    ensures r <= s && AllDigits(r)
    ensures |r| < |s| ==> !IsDigit(s[|r|])
  {
    if s != [] && IsDigit(s[0]) then [s[0]] + LeadingDigits(s[1..]) else []
  }

  /** The value of a decimal numeral. */
  function DigitsValue(ds: string): nat
    requires AllDigits(ds)
  {
    if ds == [] then 0 else 10 * DigitsValue(ds[..|ds| - 1]) + DigitValue(ds[|ds| - 1])
  }

  /** The largest and the smallest PHP integer on a 64-bit platform. */
  const IntMax: int := 0x7FFF_FFFF_FFFF_FFFF
  const IntMin: int := -0x8000_0000_0000_0000

  /** A value outside the integer range is brought to its nearer end, as PHP does with an overlong numeral. */
  function Saturate(v: int): (r: int)
    ensures IntMin <= r <= IntMax
    ensures IntMin <= v <= IntMax ==> r == v
    ensures v > IntMax ==> r == IntMax
    ensures v < IntMin ==> r == IntMin
  {
    if v > IntMax then IntMax else if v < IntMin then IntMin else v
  }

  /** The white space a numeric string may start with: space, \t, \n, \r, \v and \f. */
  predicate IsNumericSpace(c: char) {
    c == ' ' || c == '\t' || c == '\n' || c == '\r' || c == '\U{B}' || c == '\U{C}'
  }

  /** `s` without its leading numeric white space. */
  function SkipNumericSpace(s: string): (r: string)
    ensures |r| <= |s| && r == s[|s| - |r|..]
    ensures forall i :: 0 <= i < |s| - |r| ==> IsNumericSpace(s[i])
    ensures r == [] || !IsNumericSpace(r[0])
  {
    if s != [] && IsNumericSpace(s[0]) then SkipNumericSpace(s[1..]) else s
  }

  /**
    `(int)$s` for a string whose leading numeral is an integer: leading white
    space is skipped, then an optional sign and the digits after it are read
    (0 when there are none), and a value beyond the 64-bit range saturates.
  */
  function IntCast(s: string): (n: int)
    ensures IntMin <= n <= IntMax
  {
    var t := SkipNumericSpace(s);
    var signed := t != [] && (t[0] == '-' || t[0] == '+');
    var value: int := DigitsValue(LeadingDigits(if signed then t[1..] else t));
    Saturate(if signed && t[0] == '-' then -value else value)
  }

  function NatDecimal(n: nat): (r: string)
    ensures |r| >= 1 && AllDigits(r)
  {
    if n < 10 then [DigitChar(n)] else NatDecimal(n / 10) + [DigitChar(n % 10)]
  }

  /** `(string)$n` for an integer: its decimal numeral, with a leading '-' when negative. */
  function Decimal(n: int): (r: string)
    ensures |r| >= 1
    ensures n >= 0 ==> AllDigits(r)
    ensures n < 0 ==> r[0] == '-' && AllDigits(r[1..])
  {
    if n < 0 then "-" + NatDecimal(-n) else NatDecimal(n)
  }

  lemma {:induction false} NatDecimalValue(n: nat)
    ensures DigitsValue(NatDecimal(n)) == n
  {
    if n >= 10 {
      NatDecimalValue(n / 10);
      var r := NatDecimal(n);
      assert r[..|r| - 1] == NatDecimal(n / 10);
    }
  }

  /** A numeral followed by the end of the string is read in full. */
  lemma LeadingDigitsOfNumeral(ds: string)
    requires AllDigits(ds)
    ensures LeadingDigits(ds) == ds
  {
    LeadingDigitsStop(ds, []);
    assert ds + [] == ds;
  }

  /** A numeral followed by a non-digit is read up to that non-digit. */
  lemma {:induction false} LeadingDigitsStop(ds: string, t: string)
    requires AllDigits(ds)
    requires t == [] || !IsDigit(t[0])
    ensures LeadingDigits(ds + t) == ds
  {
    if ds != [] {
      LeadingDigitsStop(ds[1..], t);
      assert (ds + t)[1..] == ds[1..] + t;
      assert ds == [ds[0]] + ds[1..];
    } else {
      assert ds + t == t;
    }
  }

  /** `(int)(string)$n == $n` for every PHP integer: the decimal rendering casts back to it. */
  lemma IntCastDecimal(n: int)
    requires IntMin <= n <= IntMax
    ensures IntCast(Decimal(n)) == n
  {
    var r := Decimal(n);
    assert !IsNumericSpace(r[0]);
    assert SkipNumericSpace(r) == r;
    if n < 0 {
      assert r[1..] == NatDecimal(-n);
      LeadingDigitsOfNumeral(NatDecimal(-n));
      NatDecimalValue(-n);
    } else {
      LeadingDigitsOfNumeral(NatDecimal(n));
      NatDecimalValue(n);
    }
  }

  /** Leading white space does not change what `(int)` reads. */
  lemma {:induction false} IntCastSkipsSpace(w: string, s: string)
    requires forall i :: 0 <= i < |w| ==> IsNumericSpace(w[i])
    ensures IntCast(w + s) == IntCast(s)
  {
    if w != [] {
      assert (w + s)[1..] == w[1..] + s;
      IntCastSkipsSpace(w[1..], s);
    } else {
      assert w + s == s;
    }
  }

  /** A numeral beyond the integer range reads as the largest integer. */
  lemma IntCastSaturates(ds: string)
    requires AllDigits(ds) && DigitsValue(ds) > IntMax
    ensures IntCast(ds) == IntMax
  {
    assert ds != [] && !IsNumericSpace(ds[0]) && ds[0] != '-' && ds[0] != '+';
    assert SkipNumericSpace(ds) == ds;
    LeadingDigitsOfNumeral(ds);
  }

  /** A negative numeral beyond the integer range reads as the smallest integer. */
  lemma IntCastSaturatesNegative(ds: string)
    requires AllDigits(ds) && DigitsValue(ds) > IntMax
    ensures IntCast("-" + ds) == IntMin
  {
    var t := "-" + ds;
    assert !IsNumericSpace(t[0]);
    assert SkipNumericSpace(t) == t;
    assert t[1..] == ds;
    LeadingDigitsOfNumeral(ds);
  }

  /** A string that does not start with a numeral, after white space and a sign, reads as 0. */
  lemma IntCastNoDigits(s: string)
    requires s == [] || (!IsNumericSpace(s[0]) && !IsDigit(s[0]) && s[0] != '-' && s[0] != '+')
    ensures IntCast(s) == 0
  {
  }

  // ---------------------------------------------------------------- urlencode

  /** The UTF-8 encoding of one character. */
  function Utf8(c: char): (bytes: seq<byte>)
    ensures 1 <= |bytes| <= 4
  {
    var n := c as int;
    if n < 0x80 then [n as byte]
    else if n < 0x800 then [(0xC0 + n / 64) as byte, (0x80 + n % 64) as byte]
    else if n < 0x1_0000 then
      [(0xE0 + n / 4096) as byte, (0x80 + n / 64 % 64) as byte, (0x80 + n % 64) as byte]
    else
      [(0xF0 + n / 0x4_0000) as byte, (0x80 + n / 4096 % 64) as byte,
       (0x80 + n / 64 % 64) as byte, (0x80 + n % 64) as byte]
  }

  function Utf8Bytes(s: string): seq<byte> {
    if s == [] then [] else Utf8(s[0]) + Utf8Bytes(s[1..])
  }

  predicate IsAsciiAlnum(c: char) {
    IsDigit(c) || 'a' <= c <= 'z' || 'A' <= c <= 'Z'
  }

  /** The bytes `urlencode` leaves as they are: ASCII letters, digits, '-', '_' and '.'. */
  predicate IsUnreserved(c: char) {
    IsAsciiAlnum(c) || c == '-' || c == '_' || c == '.'
  }

  /** The characters `urlencode` can produce. */
  predicate IsUrlEncodedChar(c: char) {
    IsUnreserved(c) || c == '%' || c == '+'
  }

  function HexChar(d: nat): (c: char)
    requires d < 16
    ensures IsAsciiAlnum(c)
  {
    if d < 10 then DigitChar(d) else ('A' as int + d - 10) as char
  }

  predicate IsHexChar(c: char) {
    IsDigit(c) || 'A' <= c <= 'F' || 'a' <= c <= 'f'
  }

  function HexValue(c: char): nat
    requires IsHexChar(c)
  {
    if IsDigit(c) then DigitValue(c)
    else if 'A' <= c <= 'F' then c as int - 'A' as int + 10
    else c as int - 'a' as int + 10
  }

  /** One byte as `urlencode` writes it. */
  function EncodeByte(b: byte): (r: string)
    ensures forall i :: 0 <= i < |r| ==> IsUrlEncodedChar(r[i])
  {
    if IsUnreserved(b as char) then [b as char]
    else if b == 32 then "+"
    else ['%', HexChar(b as nat / 16), HexChar(b as nat % 16)]
  }

  function EncodeBytes(bs: seq<byte>): (r: string)
    ensures forall i :: 0 <= i < |r| ==> IsUrlEncodedChar(r[i])
  {
    if bs == [] then [] else EncodeByte(bs[0]) + EncodeBytes(bs[1..])
  }

  /** `urlencode($s)`: only letters, digits, '-', '_', '.', '%' and '+' appear in the result. */
  function UrlEncode(s: string): (r: string)
    ensures forall i :: 0 <= i < |r| ==> IsUrlEncodedChar(r[i])
  {
    EncodeBytes(Utf8Bytes(s))
  }

  /** `urldecode($t)`: '+' is a space, `%XX` a byte, every other character stands for itself. */
  function UrlDecode(t: string): seq<byte> {
    if t == [] then []
    else if |t| >= 3 && t[0] == '%' && IsHexChar(t[1]) && IsHexChar(t[2]) then
      [(16 * HexValue(t[1]) + HexValue(t[2])) as byte] + UrlDecode(t[3..])
    else if t[0] == '+' then [32 as byte] + UrlDecode(t[1..])
    else if t[0] as int < 256 then [t[0] as int as byte] + UrlDecode(t[1..])
    else UrlDecode(t[1..])
  }

  lemma DecodeEncodedByte(b: byte, rest: string)
    ensures UrlDecode(EncodeByte(b) + rest) == [b] + UrlDecode(rest)
  {
    var e := EncodeByte(b);
    if IsUnreserved(b as char) {
      assert (e + rest)[1..] == rest;
    } else if b == 32 {
      assert (e + rest)[1..] == rest;
    } else {
      var hi, lo := b as nat / 16, b as nat % 16;
      assert HexValue(HexChar(hi)) == hi;
      assert HexValue(HexChar(lo)) == lo;
      assert (e + rest)[3..] == rest;
    }
  }

  lemma {:induction false} DecodeEncodedBytes(bs: seq<byte>)
    ensures UrlDecode(EncodeBytes(bs)) == bs
  {
    if bs != [] {
      DecodeEncodedBytes(bs[1..]);
      DecodeEncodedByte(bs[0], EncodeBytes(bs[1..]));
    }
  }

  /** `urldecode(urlencode($s))` gives back the UTF-8 bytes of `$s`. */
  lemma UrlDecodeEncode(s: string)
    ensures UrlDecode(UrlEncode(s)) == Utf8Bytes(s)
  {
    DecodeEncodedBytes(Utf8Bytes(s));
  }

  // ---------------------------------------------------------------- htmlspecialchars

  function EscapeChar(c: char): string {
    if c == '&' then "&amp;"
    else if c == '"' then "&quot;"
    else if c == '\'' then "&#039;"
    else if c == '<' then "&lt;"
    else if c == '>' then "&gt;"
    else [c]
  }

  /** `htmlspecialchars($s)` with PHP 8.1's default flags (ENT_QUOTES). */
  function HtmlSpecialChars(s: string): (r: string)
    ensures '<' !in r && '>' !in r && '"' !in r && '\'' !in r
  {
    if s == [] then [] else EscapeChar(s[0]) + HtmlSpecialChars(s[1..])
  }

  /**
    The text libxml2 stores for content passed to `DOMDocument::createElement`:
    entity and character references are read as the characters they stand for.
  */
  function XmlContent(t: string): string {
    if t == [] then []
    else if "&amp;" <= t then "&" + XmlContent(t[5..])
    else if "&quot;" <= t then "\"" + XmlContent(t[6..])
    else if "&#039;" <= t then "'" + XmlContent(t[6..])
    else if "&lt;" <= t then "<" + XmlContent(t[4..])
    else if "&gt;" <= t then ">" + XmlContent(t[4..])
    else [t[0]] + XmlContent(t[1..])
  }

  lemma ContentOfEscapedChar(c: char, rest: string)
    ensures XmlContent(EscapeChar(c) + rest) == [c] + XmlContent(rest)
  {
    var e := EscapeChar(c);
    var t := e + rest;
    assert t[|e|..] == rest;
    assert e <= t;
    if c != '&' && c != '"' && c != '\'' && c != '<' && c != '>' {
      assert t[0] == c && t[0] != '&';
      assert !("&amp;" <= t) && !("&quot;" <= t) && !("&#039;" <= t) && !("&lt;" <= t) && !("&gt;" <= t);
    } else if c == '"' {
      assert !("&amp;" <= t) by { assert t[1] == 'q'; }
    } else if c == '\'' {
      assert !("&amp;" <= t) && !("&quot;" <= t) by { assert t[1] == '#'; }
    } else if c == '<' {
      assert !("&amp;" <= t) && !("&quot;" <= t) && !("&#039;" <= t) by { assert t[1] == 'l'; }
    } else if c == '>' {
      assert !("&amp;" <= t) && !("&quot;" <= t) && !("&#039;" <= t) && !("&lt;" <= t) by { assert t[1] == 'g'; }
    }
  }

  /** Escaping with htmlspecialchars and then handing the text to libxml2 stores exactly the original text. */
  lemma {:induction false} ContentOfEscaped(s: string)
    ensures XmlContent(HtmlSpecialChars(s)) == s
  {
    if s != [] {
      ContentOfEscaped(s[1..]);
      ContentOfEscapedChar(s[0], HtmlSpecialChars(s[1..]));
      assert s == [s[0]] + s[1..];
    }
  }
}
