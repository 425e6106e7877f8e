/**
 * `urllib.parse.quote(text)` with its default arguments, as the image
 * directive uses it: the text is encoded to UTF-8 and every byte outside
 * the safe set (ASCII letters, digits, `_.-~` and `/`) becomes `%XX` with
 * upper-case hexadecimal digits.
 *
 * The inverse `Unquote` is a strict decoder: `%XX` (either case) gives a
 * byte, any other ASCII character gives itself, and the bytes must form
 * well-formed UTF-8. Python's lenient `unquote` agrees with it on every
 * string `Quote` produces.
 */
module UrlQuote {
  import opened Wrappers
  import opened Seqs

  type Byte = b: int | 0 <= b < 256

  /** The UTF-8 encoding of one Unicode scalar value. */
  function Utf8Char(c: char): (bs: seq<Byte>)
    ensures 1 <= |bs| <= 4
  {
    var n := c as int;
    if n < 0x80 then [n]
    else if n < 0x800 then [0xC0 + n / 64, 0x80 + n % 64]
    else if n < 0x10000 then [0xE0 + n / 4096, 0x80 + n / 64 % 64, 0x80 + n % 64]
    else [0xF0 + n / 262144, 0x80 + n / 4096 % 64, 0x80 + n / 64 % 64, 0x80 + n % 64]
  }

  /** `str.encode("utf-8")`; a Dafny string holds no surrogates, so this never fails. */
  function EncodeUtf8(s: string): seq<Byte> {
    FlatMap(Utf8Char, s)
  }

  predicate IsContinuation(b: Byte) {
    0x80 <= b < 0xC0
  }

  /** Decodes the first character of `bs` and says how many bytes it took; rejects malformed and overlong forms. */
  function DecodeChar(bs: seq<Byte>): Option<(char, nat)>
    requires bs != []
  {
    var b0 := bs[0];
    if b0 < 0x80 then Some((b0 as char, 1))
    else if 0xC0 <= b0 < 0xE0 then
      if |bs| < 2 || !IsContinuation(bs[1]) then None
      else
        var n := (b0 as int - 0xC0) * 64 + (bs[1] as int - 0x80);
        if n < 0x80 then None else Some((n as char, 2))
    else if 0xE0 <= b0 < 0xF0 then
      if |bs| < 3 || !IsContinuation(bs[1]) || !IsContinuation(bs[2]) then None
      else
        var n := (b0 as int - 0xE0) * 4096 + (bs[1] as int - 0x80) * 64 + (bs[2] as int - 0x80);
        if n < 0x800 || (0xD800 <= n < 0xE000) then None else Some((n as char, 3))
    else if 0xF0 <= b0 < 0xF8 then
      if |bs| < 4 || !IsContinuation(bs[1]) || !IsContinuation(bs[2]) || !IsContinuation(bs[3]) then None
      else
        var n := (b0 as int - 0xF0) * 262144 + (bs[1] as int - 0x80) * 4096 + (bs[2] as int - 0x80) * 64
          + (bs[3] as int - 0x80);
        if n < 0x10000 || n >= 0x110000 then None else Some((n as char, 4))
    else None
  }

  /** `bytes.decode("utf-8")`, with `None` for the inputs Python rejects. */
  function DecodeUtf8(bs: seq<Byte>): Option<string>
    decreases |bs|
  {
    if bs == [] then Some([])
    else match DecodeChar(bs)
      case None => None
      case Some((c, k)) =>
        if k == 0 || k > |bs| then None
        else match DecodeUtf8(bs[k..])
          case None => None
          case Some(rest) => Some([c] + rest)
  }

  /** The bytes `quote` always keeps: ASCII letters, digits and `_.-~`. */
  predicate IsAlwaysSafe(b: Byte) {
    ('A' as int <= b <= 'Z' as int) || ('a' as int <= b <= 'z' as int) || ('0' as int <= b <= '9' as int)
    || b == '_' as int || b == '.' as int || b == '-' as int || b == '~' as int
  }

  /** The default `safe="/"` argument adds the slash. */
  predicate IsSafe(b: Byte) {
    IsAlwaysSafe(b) || b == '/' as int
  }

  const HexDigits: string := "0123456789ABCDEF"

  function QuoteByte(b: Byte): string {
    if IsSafe(b) then [b as char] else ['%', HexDigits[b / 16], HexDigits[b % 16]]
  }

  function QuoteBytes(bs: seq<Byte>): string {
    FlatMap(QuoteByte, bs)
  }

  /** `urllib.parse.quote(s)`. */
  function Quote(s: string): string {
    QuoteBytes(EncodeUtf8(s))
  }

  function HexValue(c: char): Option<nat> {
    if '0' <= c <= '9' then Some(c as int - '0' as int)
    else if 'A' <= c <= 'F' then Some(c as int - 'A' as int + 10)
    else if 'a' <= c <= 'f' then Some(c as int - 'a' as int + 10)
    else None
  }

  /** Turns `%XX` escapes and plain ASCII characters back into bytes. */
  function Unpercent(t: string): Option<seq<Byte>>
    decreases |t|
  {
    if t == [] then Some([])
    else if t[0] == '%' then
      if |t| < 3 then None
      else match (HexValue(t[1]), HexValue(t[2]))
        case (Some(h), Some(l)) =>
          if h < 16 && l < 16 then
            match Unpercent(t[3..])
            case None => None
            case Some(rest) => Some([h * 16 + l] + rest)
          else None
        case _ => None
    else if t[0] as int < 0x80 then
      match Unpercent(t[1..])
      case None => None
      case Some(rest) => Some([t[0] as int] + rest)
    else None
  }

  function Unquote(t: string): Option<string> {
    match Unpercent(t)
    case None => None
    case Some(bs) => DecodeUtf8(bs)
  }

  /** A character that can appear in the output of `quote`. */
  predicate IsQuotedChar(c: char) {
    c == '%' || (c as int < 0x80 && IsSafe(c as int))
  }

  // ---------------------------------------------------------------------------
  // Properties
  // ---------------------------------------------------------------------------

  lemma HexDigitValue(d: nat)
    requires d < 16
    ensures HexValue(HexDigits[d]) == Some(d) && IsAlwaysSafe(HexDigits[d] as int)
  {
  }

  /** Every encoded character is an unreserved ASCII character, `/`, `%` or a hex digit. */
  lemma {:induction false} QuoteBytesAlphabet(bs: seq<Byte>)
    ensures forall i :: 0 <= i < |QuoteBytes(bs)| ==> IsQuotedChar(QuoteBytes(bs)[i])
  {
    if bs != [] {
      var b := bs[0];
      QuoteBytesAlphabet(bs[1..]);
      if !IsSafe(b) {
        HexDigitValue(b / 16);
        HexDigitValue(b % 16);
      }
      var head, tail := QuoteByte(b), QuoteBytes(bs[1..]);
      forall i | 0 <= i < |head + tail| ensures IsQuotedChar((head + tail)[i]) {
        if i >= |head| {
          assert (head + tail)[i] == tail[i - |head|];
        }
      }
    }
  }

  /**
   * The encoded subject of an image URL never contains a space, a bracket,
   * a parenthesis or a newline, so it cannot end the Markdown image or
   * start a new directive.
   */
  lemma QuoteHasNoDelimiters(s: string)
    ensures forall i :: 0 <= i < |Quote(s)| ==> Quote(s)[i] !in " []()\n\r\t"
  {
    QuoteBytesAlphabet(EncodeUtf8(s));
  }

  /** Decoding the percent escapes gives back the bytes. */
  lemma {:induction false} UnpercentQuoteBytes(bs: seq<Byte>)
    ensures Unpercent(QuoteBytes(bs)) == Some(bs)
  {
    if bs != [] {
      UnpercentQuoteBytes(bs[1..]);
      UnpercentQuoteByte(bs[0], QuoteBytes(bs[1..]), bs[1..]);
      assert bs == [bs[0]] + bs[1..];
    }
  }

  /** The encoding of one byte decodes to that byte, in front of whatever the rest decodes to. */
  lemma UnpercentQuoteByte(b: Byte, rest: string, r: seq<Byte>)
    requires Unpercent(rest) == Some(r)
    ensures Unpercent(QuoteByte(b) + rest) == Some([b] + r)
  {
    if IsSafe(b) {
      UnpercentSafeByte(b, rest, r);
    } else {
      UnpercentEscapedByte(b, rest, r);
    }
  }

  /** A safe byte is kept as its ASCII character and read back as itself. */
  lemma UnpercentSafeByte(b: Byte, rest: string, r: seq<Byte>)
    requires IsSafe(b) && Unpercent(rest) == Some(r)
    ensures Unpercent([b as char] + rest) == Some([b] + r)
  {
    var t := [b as char] + rest;
    assert t[0] != '%' && t[0] as int == b && t[1..] == rest;
  }

  /** Any other byte is written as `%XX` and read back from its two digits. */
  lemma UnpercentEscapedByte(b: Byte, rest: string, r: seq<Byte>)
    requires Unpercent(rest) == Some(r)
    ensures Unpercent(['%', HexDigits[b / 16], HexDigits[b % 16]] + rest) == Some([b] + r)
  {
    var hi, lo := b / 16, b % 16;
    ByteDigits(b);
    var t := ['%', HexDigits[hi], HexDigits[lo]] + rest;
    HexDigitValue(hi);
    HexDigitValue(lo);
    assert t[0] == '%' && t[1] == HexDigits[hi] && t[2] == HexDigits[lo] && t[3..] == rest;
  }

  /** A byte is its two hexadecimal digits. */
  lemma ByteDigits(b: Byte)
    ensures b / 16 < 16 && b % 16 < 16 && b / 16 * 16 + b % 16 == b
  {
  }

  /** The UTF-8 encoding of one character decodes back to it, whatever follows. */
  lemma DecodeUtf8Char(c: char, rest: seq<Byte>)
    ensures DecodeChar(Utf8Char(c) + rest) == Some((c, |Utf8Char(c)|))
  {
    var n := c as int;
    if n < 0x80 {
    } else if n < 0x800 {
      DecodeTwoBytes(c, rest);
    } else if n < 0x10000 {
      DecodeThreeBytes(c, rest);
    } else {
      DecodeFourBytes(c, rest);
    }
  }

  lemma DecodeTwoBytes(c: char, rest: seq<Byte>)
    requires 0x80 <= c as int < 0x800
    ensures DecodeChar(Utf8Char(c) + rest) == Some((c, 2))
  {
    var n := c as int;
    var bs := Utf8Char(c) + rest;
    assert bs[0] == 0xC0 + n / 64 && bs[1] == 0x80 + n % 64;
    assert (n / 64) * 64 + n % 64 == n;
  }

  lemma DecodeThreeBytes(c: char, rest: seq<Byte>)
    requires 0x800 <= c as int < 0x10000
    ensures DecodeChar(Utf8Char(c) + rest) == Some((c, 3))
  {
    var n := c as int;
    var bs := Utf8Char(c) + rest;
    assert bs[0] == 0xE0 + n / 4096 && bs[1] == 0x80 + n / 64 % 64 && bs[2] == 0x80 + n % 64;
    assert n / 64 == (n / 4096) * 64 + n / 64 % 64;
    assert (n / 4096) * 4096 + (n / 64 % 64) * 64 + n % 64 == n;
  }

  lemma DecodeFourBytes(c: char, rest: seq<Byte>)
    requires 0x10000 <= c as int
    ensures DecodeChar(Utf8Char(c) + rest) == Some((c, 4))
  {
    var n := c as int;
    var bs := Utf8Char(c) + rest;
    assert bs[0] == 0xF0 + n / 262144 && bs[1] == 0x80 + n / 4096 % 64;
    assert bs[2] == 0x80 + n / 64 % 64 && bs[3] == 0x80 + n % 64;
    assert n / 4096 == (n / 262144) * 64 + n / 4096 % 64;
    assert n / 64 == (n / 4096) * 64 + n / 64 % 64;
    assert (n / 262144) * 262144 + (n / 4096 % 64) * 4096 + (n / 64 % 64) * 64 + n % 64 == n;
  }

  /** Decoding the UTF-8 encoding of a string gives back the string. */
  lemma {:induction false} DecodeEncodeUtf8(s: string)
    ensures DecodeUtf8(EncodeUtf8(s)) == Some(s)
  {
    if s != [] {
      var head, tail := Utf8Char(s[0]), EncodeUtf8(s[1..]);
      DecodeUtf8Char(s[0], tail);
      DecodeEncodeUtf8(s[1..]);
      assert (head + tail)[|head|..] == tail;
      assert [s[0]] + s[1..] == s;
    }
  }

  /** `quote` loses nothing: the encoded subject decodes to the stripped subject it was built from. */
  lemma UnquoteQuote(s: string)
    ensures Unquote(Quote(s)) == Some(s)
  {
    UnpercentQuoteBytes(EncodeUtf8(s));
    DecodeEncodeUtf8(s);
  }

  /** Distinct subjects give distinct image URLs. */
  lemma QuoteInjective(s: string, t: string)
    requires Quote(s) == Quote(t)
    ensures s == t
  {
    UnquoteQuote(s);
    UnquoteQuote(t);
  }

  /** A string made only of safe ASCII characters is left as it is. */
  lemma {:induction false} QuoteKeepsSafeText(s: string)
    requires forall i :: 0 <= i < |s| ==> s[i] as int < 0x80 && IsSafe(s[i] as int)
    ensures Quote(s) == s
  {
    if s != [] {
      QuoteKeepsSafeText(s[1..]);
      assert Utf8Char(s[0]) == [s[0] as int];
      assert EncodeUtf8(s) == [s[0] as int] + EncodeUtf8(s[1..]);
      assert QuoteBytes(EncodeUtf8(s)) == QuoteByte(s[0] as int) + QuoteBytes(EncodeUtf8(s[1..]));
    }
  }

  /** Quoting works character by character: `Quote(s + t) == Quote(s) + Quote(t)`. */
  lemma QuoteAppend(s: string, t: string)
    ensures Quote(s + t) == Quote(s) + Quote(t)
  {
    FlatMapAppend(Utf8Char, s, t);
    FlatMapAppend(QuoteByte, EncodeUtf8(s), EncodeUtf8(t));
  }

  /** A one-character string is quoted as that character's UTF-8 bytes. */
  lemma QuoteOneChar(c: char)
    ensures Quote([c]) == QuoteBytes(Utf8Char(c))
  {
    var s := [c];
    assert s != [] && s[0] == c && s[1..] == [];
    assert EncodeUtf8(s[1..]) == [];
    assert EncodeUtf8(s) == Utf8Char(s[0]) + EncodeUtf8(s[1..]);
    assert EncodeUtf8(s) == Utf8Char(c);
  }

  /** A space between two safe words becomes `%20` and the words are kept. */
  lemma QuoteSpaceBetween(a: string, b: string)
    requires Quote(a) == a && Quote(b) == b
    ensures Quote(a + " " + b) == a + "%20" + b
  {
    calc {
      Quote(a + " " + b);
      { QuoteAppend(a + " ", b); }
      Quote(a + " ") + Quote(b);
      { QuoteAppend(a, " "); }
      Quote(a) + Quote(" ") + Quote(b);
      { QuoteSpace(); }
      a + "%20" + b;
    }
  }

  /** An ASCII character outside the safe set becomes `%` and its two upper-case hex digits. */
  lemma QuoteUnsafeAscii(c: char)
    requires c as int < 0x80 && !IsSafe(c as int)
    ensures Quote([c]) == ['%', HexDigits[c as int / 16], HexDigits[c as int % 16]]
  {
    var b: Byte := c as int;
    QuoteOneChar(c);
    assert Utf8Char(c) == [b];
    assert [b][1..] == [];
    assert QuoteBytes([b]) == QuoteByte(b) + QuoteBytes([]);
  }

  /** The space is not safe: it becomes `%20`. */
  lemma QuoteSpace()
    ensures Quote(" ") == "%20"
  {
    QuoteUnsafeAscii(' ');
  }

  /** A non-ASCII letter becomes the escapes of its UTF-8 bytes: "\U{E8}" (e grave) is "%C3%A8". */
  lemma QuoteUtf8Example()
    ensures Quote("\U{E8}") == "%C3%A8"
  {
    QuoteOneChar('\U{E8}');
    assert Utf8Char('\U{E8}') == [0xC3, 0xA8];
    assert QuoteBytes([0xC3, 0xA8]) == QuoteByte(0xC3) + QuoteBytes([0xA8]);
    assert QuoteBytes([0xA8]) == QuoteByte(0xA8) + QuoteBytes([]);
  }
}
