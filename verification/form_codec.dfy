/**
 * The application/x-www-form-urlencoded byte serialiser and parser for one
 * name or value (section 5 of the WHATWG URL Standard), as `urllib.parse`
 * implements them: `quote_plus(s, safe='')` encodes a string as UTF-8 and
 * escapes every byte outside letters, digits and `_.-~` as `%XX` (a space
 * becomes `+`); the parser turns `+` back into a space and `unquote` decodes
 * `%XX` escapes as UTF-8, putting U+FFFD where the bytes are not UTF-8.
 */
module FormCodec {
  import opened Text

  type Byte = b: int | 0 <= b < 256

  /** The characters `quote` never escapes. */
  predicate IsAlwaysSafe(c: char) {
    IsAsciiLetter(c) || IsDigit(c) || c == '_' || c == '.' || c == '-' || c == '~'
  }

  /** The characters that can appear in the output of `quote_plus`. */
  predicate IsQuotedChar(c: char) {
    IsAlwaysSafe(c) || c == '%' || c == '+'
  }

  predicate IsContinuationByte(b: int) {
    0x80 <= b <= 0xBF
  }

  /** The UTF-8 encoding of one Unicode scalar value (RFC 3629, section 3). */
  function Utf8(c: char): (bs: seq<Byte>)
    ensures 1 <= |bs| <= 4
    ensures |bs| == 1 <==> c as int < 0x80
    ensures |bs| == 1 ==> bs[0] == c as int
    ensures forall k | 1 <= k < |bs| :: IsContinuationByte(bs[k])
  {
    var n := c as int;
    if n < 0x80 then [n]
    else if n < 0x800 then [0xC0 + n / 64, 0x80 + n % 64]
    else if n < 0x10000 then [0xE0 + n / 4096, 0x80 + n / 64 % 64, 0x80 + n % 64]
    else [0xF0 + n / 0x40000, 0x80 + n / 4096 % 64, 0x80 + n / 64 % 64, 0x80 + n % 64]
  }

  predicate IsHex(c: char) {
    IsDigit(c) || 'a' <= c <= 'f' || 'A' <= c <= 'F'
  }

  function HexValue(c: char): (d: int)
    requires IsHex(c)
    ensures 0 <= d < 16
  {
    if IsDigit(c) then c as int - '0' as int
    else if 'a' <= c <= 'f' then c as int - 'a' as int + 10
    else c as int - 'A' as int + 10
  }

  /** The upper-case hexadecimal digit `quote` writes; `HexValue` reads it back. */
  function HexDigit(d: int): (c: char)
    requires 0 <= d < 16
    ensures IsHex(c) && HexValue(c) == d
    ensures IsAlwaysSafe(c)
  {
    if d < 10 then ('0' as int + d) as char else ('A' as int + d - 10) as char
  }

  predicate IsUpperHex(c: char) {
    IsDigit(c) || 'A' <= c <= 'F'
  }

  /** The `%` at `k` starts an escape: two upper-case hexadecimal digits follow it. */
  predicate EscapeAt(r: string, k: nat) {
    k + 2 < |r| && IsUpperHex(r[k + 1]) && IsUpperHex(r[k + 2])
  }

  /** Every `%` of `r` starts a complete `%XX` escape. */
  predicate EscapesComplete(r: string) {
    forall k | 0 <= k < |r| && r[k] == '%' :: EscapeAt(r, k)
  }

  lemma {:induction false} EscapesCompleteConcat(a: string, b: string)
    requires EscapesComplete(a) && EscapesComplete(b)
    ensures EscapesComplete(a + b)
  {
    var ab := a + b;
    forall k | 0 <= k < |ab| && ab[k] == '%' ensures EscapeAt(ab, k) {
      if k < |a| {
        assert a[k] == '%' && EscapeAt(a, k);
        assert ab[k + 1] == a[k + 1] && ab[k + 2] == a[k + 2];
      } else {
        assert b[k - |a|] == '%' && EscapeAt(b, k - |a|);
        assert ab[k + 1] == b[k - |a| + 1] && ab[k + 2] == b[k - |a| + 2];
      }
    }
  }

  /** One byte as `quote` writes it: itself when always safe, `%XX` otherwise. */
  function QuoteByte(b: Byte): (r: string)
    ensures EscapesComplete(r)
  {
    if b < 0x80 && IsAlwaysSafe(b as char) then [b as char]
    else ['%', HexDigit(b / 16), HexDigit(b % 16)]
  }

  function QuoteBytes(bs: seq<Byte>): (r: string)
    ensures |r| >= |bs|
    ensures forall k | 0 <= k < |r| :: IsQuotedChar(r[k]) && r[k] != '+'
    ensures EscapesComplete(r)
  {
    if bs == [] then []
    else
      EscapesCompleteConcat(QuoteByte(bs[0]), QuoteBytes(bs[1..]));
      QuoteByte(bs[0]) + QuoteBytes(bs[1..])
  }

  function QuoteChar(c: char): (r: string)
    ensures EscapesComplete(r)
  {
    if c == ' ' then "+" else QuoteBytes(Utf8(c))
  }

  /**
   * `quote_plus(s, safe='')`. The result uses only letters, digits, `_.-~`,
   * `%` and `+`, so it never holds the `=`, `&` or `#` that delimit pairs and
   * the fragment, and it is empty only when `s` is.
   */
  function QuotePlus(s: string): (r: string)
    ensures |r| >= |s|
    ensures forall k | 0 <= k < |r| :: IsQuotedChar(r[k])
    ensures EscapesComplete(r)
  {
    if s == [] then []
    else
      EscapesCompleteConcat(QuoteChar(s[0]), QuotePlus(s[1..]));
      QuoteChar(s[0]) + QuotePlus(s[1..])
  }

  /** `s.replace('+', ' ')`, which the query parser applies before `unquote`. */
  function ReplacePlus(s: string): (r: string)
    ensures |r| == |s|
    ensures forall k | 0 <= k < |s| :: r[k] == if s[k] == '+' then ' ' else s[k]
  {
    if s == [] then [] else [if s[0] == '+' then ' ' else s[0]] + ReplacePlus(s[1..])
  }

  /** What `unquote` reads in a string: a literal character or a `%XX` escape. */
  datatype Unit = Lit(c: char) | Pct(b: Byte)

  /** A `%` starts an escape only when two hexadecimal digits follow it. */
  function Units(s: string): (us: seq<Unit>)
    ensures |us| <= |s|
    ensures s != [] ==> us != []
  {
    if s == [] then []
    else if |s| >= 3 && s[0] == '%' && IsHex(s[1]) && IsHex(s[2]) then
      [Pct(HexValue(s[1]) * 16 + HexValue(s[2]))] + Units(s[3..])
    else [Lit(s[0])] + Units(s[1..])
  }

  /** The length of the UTF-8 sequence a lead byte starts; 0 for a byte that cannot start one. */
  function SequenceLength(lead: Byte): nat {
    if lead < 0x80 then 1
    else if 0xC2 <= lead <= 0xDF then 2
    else if 0xE0 <= lead <= 0xEF then 3
    else if 0xF0 <= lead <= 0xF4 then 4
    else 0
  }

  predicate IsContinuation(u: Unit) {
    u.Pct? && IsContinuationByte(u.b)
  }

  /** The six payload bits of a continuation byte. */
  function Payload(u: Unit): int {
    if u.Pct? then u.b - 0x80 else 0
  }

  /** The code point a lead byte and its continuation bytes spell. */
  function CodePoint(us: seq<Unit>): int
    requires 2 <= |us| <= 4 && us[0].Pct?
  {
    var lead := us[0].b;
    if |us| == 2 then (lead - 0xC0) * 64 + Payload(us[1])
    else if |us| == 3 then (lead - 0xE0) * 4096 + Payload(us[1]) * 64 + Payload(us[2])
    else (lead - 0xF0) * 0x40000 + Payload(us[1]) * 4096 + Payload(us[2]) * 64 + Payload(us[3])
  }

  /** A code point that is a Unicode scalar value and not written with more bytes than needed. */
  predicate IsShortestScalar(n: int, len: nat) {
    && (len == 2 ==> n >= 0x80)
    && (len == 3 ==> n >= 0x800)
    && (len == 4 ==> n >= 0x10000)
    && 0 <= n < 0x110000
    && !(0xD800 <= n < 0xE000)
  }

  const Replacement: char := '\U{FFFD}'

  /**
   * UTF-8 decoding with errors='replace'. A literal character stands for
   * itself (an ASCII one is its own byte). A byte that does not start a
   * well-formed sequence becomes U+FFFD and decoding resumes at the next byte.
   */
  function Decode(us: seq<Unit>): (s: string)
    ensures |s| <= |us|
    ensures us != [] ==> s != []
  {
    if us == [] then []
    else match us[0]
      case Lit(c) => [c] + Decode(us[1..])
      case Pct(b) =>
        var n := SequenceLength(b);
        if n == 1 then [b as char] + Decode(us[1..])
        else if 2 <= n <= |us| && (forall k | 1 <= k < n :: IsContinuation(us[k]))
                && IsShortestScalar(CodePoint(us[..n]), n)
        then [CodePoint(us[..n]) as char] + Decode(us[n..])
        else [Replacement] + Decode(us[1..])
  }

  /** `unquote(s.replace('+', ' '))`: one name or value as the query parser reads it. */
  function UnquotePlus(s: string): (r: string)
    ensures r == [] <==> s == []
  {
    Decode(Units(ReplacePlus(s)))
  }

  // ---- The parser reads back what the serialiser writes ----

  /** What `Units` reads from the bytes of one encoded character. */
  function ByteUnit(b: Byte): Unit {
    if b < 0x80 && IsAlwaysSafe(b as char) then Lit(b as char) else Pct(b)
  }

  function ByteUnits(bs: seq<Byte>): (us: seq<Unit>)
    ensures |us| == |bs|
    ensures forall k | 0 <= k < |bs| :: us[k] == ByteUnit(bs[k])
  {
    if bs == [] then [] else [ByteUnit(bs[0])] + ByteUnits(bs[1..])
  }

  lemma {:induction false} UnitsOfQuotedBytes(bs: seq<Byte>, rest: string)
    ensures Units(QuoteBytes(bs) + rest) == ByteUnits(bs) + Units(rest)
    decreases |bs|
  {
    if bs != [] {
      var b := bs[0];
      var tail := QuoteBytes(bs[1..]) + rest;
      assert QuoteBytes(bs) + rest == QuoteByte(b) + tail;
      UnitsOfQuotedByte(b, tail);
      UnitsOfQuotedBytes(bs[1..], rest);
      assert ByteUnits(bs) == [ByteUnit(b)] + ByteUnits(bs[1..]);
    } else {
      assert QuoteBytes(bs) + rest == rest;
    }
  }

  lemma {:induction false} UnitsOfQuotedByte(b: Byte, tail: string)
    ensures Units(QuoteByte(b) + tail) == [ByteUnit(b)] + Units(tail)
  {
    var s := QuoteByte(b) + tail;
    if b < 0x80 && IsAlwaysSafe(b as char) {
      assert s[0] == b as char && s[1..] == tail;
    } else {
      assert s[0] == '%' && s[1] == HexDigit(b / 16) && s[2] == HexDigit(b % 16);
      assert s[3..] == tail;
    }
  }

  lemma {:induction false} CodePointOfUtf8(c: char)
    requires c as int >= 0x80
    ensures var us := ByteUnits(Utf8(c));
      && us[0].Pct? && SequenceLength(us[0].b) == |us|
      && (forall k | 1 <= k < |us| :: IsContinuation(us[k]))
      && CodePoint(us) == c as int
  {
    var n := c as int;
    var bs := Utf8(c);
    var us := ByteUnits(bs);
    assert forall k | 0 <= k < |bs| :: us[k] == Pct(bs[k]);
    if n < 0x800 {
      TwoByteArithmetic(n);
    } else if n < 0x10000 {
      ThreeByteArithmetic(n);
    } else {
      FourByteArithmetic(n);
    }
  }

  lemma {:induction false} TwoByteArithmetic(n: int)
    requires 0x80 <= n < 0x800
    ensures 0xC2 <= 0xC0 + n / 64 <= 0xDF
    ensures (n / 64) * 64 + n % 64 == n
  {
  }

  lemma {:induction false} ThreeByteArithmetic(n: int)
    requires 0x800 <= n < 0x10000
    ensures 0xE0 <= 0xE0 + n / 4096 <= 0xEF
    ensures (n / 4096) * 4096 + (n / 64 % 64) * 64 + n % 64 == n
  {
    assert n / 64 == (n / 4096) * 64 + n / 64 % 64;
  }

  lemma {:induction false} FourByteArithmetic(n: int)
    requires 0x10000 <= n < 0x110000
    ensures 0xF0 <= 0xF0 + n / 0x40000 <= 0xF4
    ensures (n / 0x40000) * 0x40000 + (n / 4096 % 64) * 4096 + (n / 64 % 64) * 64 + n % 64 == n
  {
    assert n / 64 == (n / 4096) * 64 + n / 64 % 64;
    assert n / 4096 == (n / 0x40000) * 64 + n / 4096 % 64;
  }

  /** Decoding the units of one encoded character gives that character back. */
  lemma {:induction false} DecodeOfUtf8(c: char, rest: seq<Unit>)
    ensures Decode(ByteUnits(Utf8(c)) + rest) == [c] + Decode(rest)
  {
    var us := ByteUnits(Utf8(c)) + rest;
    var n := |Utf8(c)|;
    if c as int < 0x80 {
      assert us[1..] == rest;
    } else {
      CodePointOfUtf8(c);
      assert us[..n] == ByteUnits(Utf8(c));
      assert us[n..] == rest;
    }
  }

  /** `unquote(quote_plus(s).replace('+', ' '))` is `s`, for every string. */
  lemma {:induction false} UnquotePlusQuotePlus(s: string)
    ensures UnquotePlus(QuotePlus(s)) == s
    decreases |s|
  {
    if s != [] {
      var c := s[0];
      var tail := QuotePlus(s[1..]);
      assert QuotePlus(s) == QuoteChar(c) + tail;
      ReplacePlusAppend(QuoteChar(c), tail);
      DecodeQuotedChar(c, ReplacePlus(tail));
      UnquotePlusQuotePlus(s[1..]);
    }
  }

  lemma {:induction false} ReplacePlusAppend(a: string, b: string)
    ensures ReplacePlus(a + b) == ReplacePlus(a) + ReplacePlus(b)
  {
    var ab := a + b;
    var l, r := ReplacePlus(ab), ReplacePlus(a) + ReplacePlus(b);
    assert |l| == |r|;
    forall k | 0 <= k < |l| ensures l[k] == r[k] {
      if k < |a| {
        assert ab[k] == a[k] && r[k] == ReplacePlus(a)[k];
      } else {
        assert ab[k] == b[k - |a|] && r[k] == ReplacePlus(b)[k - |a|];
      }
    }
  }

  /** Reading back one quoted character gives the character, whatever follows it. */
  lemma {:induction false} DecodeQuotedChar(c: char, r: string)
    ensures Decode(Units(ReplacePlus(QuoteChar(c)) + r)) == [c] + Decode(Units(r))
  {
    if c == ' ' {
      var t := [' '] + r;
      assert ReplacePlus(QuoteChar(c)) == [' '];
      assert t[1..] == r;
      assert Units(t) == [Lit(' ')] + Units(r);
      assert ([Lit(' ')] + Units(r))[1..] == Units(r);
    } else {
      assert ReplacePlus(QuoteChar(c)) == QuoteBytes(Utf8(c));
      UnitsOfQuotedBytes(Utf8(c), r);
      DecodeOfUtf8(c, Units(r));
    }
  }
}
