/**
  Percent-encoding as performed by `urllib.parse.quote(s, safe="")`
  (section 2.1 of RFC 3986): the UTF-8 bytes of the input are scanned one by
  one; the unreserved bytes of section 2.3 of RFC 3986 (ASCII letters,
  digits and `-` `.` `_` `~`) stay literal and every other byte becomes `%`
  followed by two UPPER-case hexadecimal digits.

  `Unquote` is the matching decoder of `urllib.parse.unquote_to_bytes`: a
  `%` followed by two hexadecimal digits (either case) becomes one byte, any
  other byte, a stray `%` included, is kept as it is.
*/
module Percent {
  import opened Wrappers

  const PERCENT: byte := 0x25  // '%'

  /** The bytes `quote` never escapes: A-Z a-z 0-9 - . _ ~ */
  predicate IsUnreserved(b: byte) {
    || (0x41 <= b <= 0x5A)  // A-Z
    || (0x61 <= b <= 0x7A)  // a-z
    || (0x30 <= b <= 0x39)  // 0-9
    || b == 0x2D            // '-'
    || b == 0x2E            // '.'
    || b == 0x5F            // '_'
    || b == 0x7E            // '~'
  }

  /** 0-9 A-F: the digits `quote` writes after a `%`. */
  predicate IsUpperHex(b: byte) {
    (0x30 <= b <= 0x39) || (0x41 <= b <= 0x46)
  }

  /** The byte `quote` writes for a nibble `n` (`'%02X'` formatting). */
  function HexDigit(n: nat): (d: byte)
    requires n < 16
    ensures IsUpperHex(d)
  {
    if n < 10 then (0x30 + n) as byte else (0x41 + n - 10) as byte
  }

  /** The value of a hexadecimal digit of either case, as `unquote` reads it. */
  function HexValue(d: byte): (v: Option<nat>)
    ensures v.Some? ==> v.value < 16
    ensures v.Some? <==> IsUpperHex(d) || (0x61 <= d <= 0x66)
  {
    if 0x30 <= d <= 0x39 then Some(d as int - 0x30)
    else if 0x41 <= d <= 0x46 then Some(d as int - 0x41 + 10)
    else if 0x61 <= d <= 0x66 then Some(d as int - 0x61 + 10)
    else None
  }

  /** The byte an escape `%hl` stands for, if `h` and `l` are hex digits. */
  function HexPair(h: byte, l: byte): Option<byte> {
    match (HexValue(h), HexValue(l))
    case (Some(hi), Some(lo)) => Some((hi * 16 + lo) as byte)
    case _ => None
  }

  /** How `quote` writes a single byte. */
  function Escape(b: byte): seq<byte> {
    if IsUnreserved(b) then [b]
    else [PERCENT, HexDigit(b as int / 16), HexDigit(b as int % 16)]
  }

  /**
    The strings `quote(_, safe="")` can produce: unreserved bytes, and `%`
    escapes with upper-case digits that stand for a byte which is NOT
    unreserved (an unreserved byte is never escaped).
  */
  predicate Canonical(s: seq<byte>)
    decreases |s|
  {
    if s == [] then true
    else if IsUnreserved(s[0]) then Canonical(s[1..])
    else
      && s[0] == PERCENT
      && |s| >= 3
      && IsUpperHex(s[1]) && IsUpperHex(s[2])
      && HexPair(s[1], s[2]).Some?
      && !IsUnreserved(HexPair(s[1], s[2]).value)
      && Canonical(s[3..])
  }

  /** The bytes a canonical encoding is made of. */
  predicate InAlphabet(b: byte) {
    IsUnreserved(b) || b == PERCENT || IsUpperHex(b)
  }

  /** `quote(s, safe="")` on the UTF-8 bytes `s`. */
  function Quote(s: seq<byte>): (r: seq<byte>)
    ensures Canonical(r)
    decreases |s|
  {
    if s == [] then []
    else
      var rest := Quote(s[1..]);
      EscapeCanonical(s[0], rest);
      Escape(s[0]) + rest
  }

  /** `unquote_to_bytes(s)`: decodes valid escapes, keeps everything else. */
  function Unquote(s: seq<byte>): (r: seq<byte>)
    ensures |r| <= |s|
    decreases |s|
  {
    if s == [] then []
    else if s[0] == PERCENT && |s| >= 3 && HexPair(s[1], s[2]).Some? then
      [HexPair(s[1], s[2]).value] + Unquote(s[3..])
    else
      [s[0]] + Unquote(s[1..])
  }

  lemma HexDigitValue(n: nat)
    requires n < 16
    ensures HexValue(HexDigit(n)) == Some(n)
  {
  }

  lemma HexValueDigit(d: byte)
    requires IsUpperHex(d)
    ensures HexValue(d).Some? && HexDigit(HexValue(d).value) == d
  {
  }

  /** The escape of a reserved byte decodes back to that byte. */
  lemma EscapePair(b: byte)
    requires !IsUnreserved(b)
    ensures HexPair(HexDigit(b as int / 16), HexDigit(b as int % 16)) == Some(b)
  {
    HexDigitValue(b as int / 16);
    HexDigitValue(b as int % 16);
  }

  lemma EscapeCanonical(b: byte, t: seq<byte>)
    requires Canonical(t)
    ensures Canonical(Escape(b) + t)
  {
    var e := Escape(b) + t;
    if IsUnreserved(b) {
      assert e[1..] == t;
    } else {
      EscapePair(b);
      assert e[3..] == t;
    }
  }

  lemma UnquoteEscape(b: byte, t: seq<byte>)
    ensures Unquote(Escape(b) + t) == [b] + Unquote(t)
  {
    var e := Escape(b) + t;
    if IsUnreserved(b) {
      assert e[1..] == t;
    } else {
      EscapePair(b);
      assert e[3..] == t;
    }
  }

  /** Round trip: decoding what `quote` wrote gives back the original bytes. */
  lemma {:induction false} UnquoteQuote(s: seq<byte>)
    ensures Unquote(Quote(s)) == s
    decreases |s|
  {
    if s != [] {
      UnquoteEscape(s[0], Quote(s[1..]));
      UnquoteQuote(s[1..]);
    }
  }

  /** `quote` is injective: different byte strings get different encodings. */
  lemma QuoteInjective(a: seq<byte>, b: seq<byte>)
    ensures Quote(a) == Quote(b) <==> a == b
  {
    UnquoteQuote(a);
    UnquoteQuote(b);
  }

  /**
    The other direction of the round trip: every canonical string is the
    encoding of its decoding, so `Quote` is a bijection onto `Canonical`.
  */
  lemma {:induction false} QuoteUnquote(x: seq<byte>)
    requires Canonical(x)
    ensures Quote(Unquote(x)) == x
    decreases |x|
  {
    if x != [] {
      if IsUnreserved(x[0]) {
        QuoteUnquote(x[1..]);
        var y := [x[0]] + Unquote(x[1..]);
        assert y[1..] == Unquote(x[1..]);
      } else {
        var v := HexPair(x[1], x[2]).value;
        HexValueDigit(x[1]);
        HexValueDigit(x[2]);
        assert v as int / 16 == HexValue(x[1]).value;
        assert v as int % 16 == HexValue(x[2]).value;
        QuoteUnquote(x[3..]);
        var y := [v] + Unquote(x[3..]);
        assert y[1..] == Unquote(x[3..]);
        assert x == x[..3] + x[3..];
      }
    }
  }

  /** A canonical string holds only unreserved bytes, `%` and upper-case hex digits. */
  lemma {:induction false} CanonicalAlphabet(s: seq<byte>)
    requires Canonical(s)
    ensures forall i | 0 <= i < |s| :: InAlphabet(s[i])
    decreases |s|
  {
    if s != [] {
      if IsUnreserved(s[0]) {
        CanonicalAlphabet(s[1..]);
        assert forall i | 1 <= i < |s| :: s[i] == s[1..][i - 1];
      } else {
        CanonicalAlphabet(s[3..]);
        assert forall i | 3 <= i < |s| :: s[i] == s[3..][i - 3];
      }
    }
  }

  /** Strings made only of unreserved bytes are left as they are. */
  lemma {:induction false} QuoteUnreserved(s: seq<byte>)
    ensures (forall i | 0 <= i < |s| :: IsUnreserved(s[i])) <==> Quote(s) == s
    decreases |s|
  {
    if s != [] {
      QuoteUnreserved(s[1..]);
      if IsUnreserved(s[0]) {
        assert forall i | 1 <= i < |s| :: s[i] == s[1..][i - 1];
        if Quote(s) == s {
          assert Quote(s[1..]) == Quote(s)[1..];
        }
      } else {
        // An escape is three bytes long, so the encoding is longer than s.
        assert |Quote(s)| == 3 + |Quote(s[1..])|;
        QuoteLonger(s[1..]);
      }
    }
  }

  lemma {:induction false} QuoteLonger(s: seq<byte>)
    ensures |Quote(s)| >= |s|
    decreases |s|
  {
    if s != [] {
      QuoteLonger(s[1..]);
    }
  }
}
