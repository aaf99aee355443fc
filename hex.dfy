/**
 * Hexadecimal text: the `hex` crate's `encode` / `decode`, Rust's
 * `u64::from_str_radix(_, 16)` and `str::trim_start_matches("0x")`.
 */
module Hex {
  import opened Wrappers
  import opened Bytes

  predicate IsLowerHexChar(c: char)
  {
    '0' <= c <= '9' || 'a' <= c <= 'f'
  }

  /** The value of a hex digit of either case; `None` for any other character. */
  function HexDigitValue(c: char): (r: Option<nat>)
    ensures r.Some? ==> r.value < 16
  {
    if '0' <= c <= '9' then Some(c as int - '0' as int)
    else if 'a' <= c <= 'f' then Some(c as int - 'a' as int + 10)
    else if 'A' <= c <= 'F' then Some(c as int - 'A' as int + 10)
    else None
  }

  /** The lower-case digit for a nibble. */
  function HexChar(n: nat): (c: char)
    requires n < 16
    ensures IsLowerHexChar(c)
    ensures HexDigitValue(c) == Some(n)
  {
    if n < 10 then ('0' as int + n) as char else ('a' as int + n - 10) as char
  }

  /** `hex::encode`: two lower-case digits per byte, high nibble first. */
  function HexEncode(bytes: seq<u8>): (s: string)
    ensures |s| == 2 * |bytes|
  {
    if bytes == [] then []
    else
      var b := bytes[|bytes| - 1];
      HexEncode(bytes[..|bytes| - 1]) + [HexChar(b / 16), HexChar(b % 16)]
  }

  /** `hex::decode`: digits of either case in pairs; an odd length or a non-digit is an error. */
  function HexDecode(s: string): (r: Option<seq<u8>>)
    ensures r.Some? ==> 2 * |r.value| == |s|
  {
    if s == [] then Some([])
    else if |s| == 1 then None
    else
      var prefix := HexDecode(s[..|s| - 2]);
      var hi := HexDigitValue(s[|s| - 2]);
      var lo := HexDigitValue(s[|s| - 1]);
      if prefix.Some? && hi.Some? && lo.Some? then Some(prefix.value + [16 * hi.value + lo.value]) else None
  }

  /** The number a string of hex digits denotes, most significant first; `None` if a character is no digit. */
  function HexDigitsValue(s: string): Option<nat>
  {
    if s == [] then Some(0)
    else
      var v := HexDigitsValue(s[..|s| - 1]);
      var d := HexDigitValue(s[|s| - 1]);
      if v.Some? && d.Some? then Some(16 * v.value + d.value) else None
  }

  /**
   * `u64::from_str_radix(s, 16)`: an optional single leading `+`, then at
   * least one hex digit, denoting a value that fits in 64 bits.
   */
  function ParseU64Radix16(s: string): (r: Option<u64>)
    ensures r.Some? ==> |s| > 0 && s != "+"
  {
    var digits := if |s| > 0 && s[0] == '+' then s[1..] else s;
    if digits == [] then None
    else
      match HexDigitsValue(digits)
      case Some(v) => if v < U64_LIMIT then Some(v) else None
      case None => None
  }

  /** `s.trim_start_matches("0x")`: removes every leading repetition of `0x`, and nothing else. */
  function TrimHexPrefix(s: string): (r: string)
    ensures |r| <= |s| && r == s[|s| - |r|..]
    ensures !(|r| >= 2 && r[0] == '0' && r[1] == 'x')
    decreases |s|
  {
    if |s| >= 2 && s[0] == '0' && s[1] == 'x' then TrimHexPrefix(s[2..]) else s
  }

  /** What `trim_start_matches("0x")` removes is `0x` repeated, and nothing else. */
  lemma {:induction false} TrimRemovesPairs(s: string)
    ensures (|s| - |TrimHexPrefix(s)|) % 2 == 0
    ensures forall i :: 0 <= i < |s| - |TrimHexPrefix(s)| ==> s[i] == if i % 2 == 0 then '0' else 'x'
    decreases |s|
  {
    if |s| >= 2 && s[0] == '0' && s[1] == 'x' {
      var t := s[2..];
      TrimRemovesPairs(t);
      var r := TrimHexPrefix(t);
      assert TrimHexPrefix(s) == r;
      var removed := |t| - |r|;
      assert |s| - |r| == removed + 2;
      assert (removed + 2) % 2 == removed % 2;
      forall i | 2 <= i < |s| - |r|
        ensures s[i] == if i % 2 == 0 then '0' else 'x'
      {
        assert s[i] == t[i - 2];
      }
    } else {
      assert TrimHexPrefix(s) == s;
    }
  }

  /** `hex::decode` accepts exactly the texts of even length made of hex digits, of either case. */
  lemma {:induction false} HexDecodeAccepts(s: string)
    ensures HexDecode(s).Some? <==> |s| % 2 == 0 && forall i :: 0 <= i < |s| ==> HexDigitValue(s[i]).Some?
  {
    if |s| >= 2 {
      var p := s[..|s| - 2];
      HexDecodeAccepts(p);
      assert forall i :: 0 <= i < |p| ==> p[i] == s[i];
    }
  }

  /** Upper- and lower-case digits decode alike. */
  lemma HexDecodeEitherCase()
    ensures HexDecode("aB") == Some([0xab])
    ensures HexDecode("Ab") == HexDecode("aB")
    ensures HexDecode("abc") == None && HexDecode("0g") == None
  {
    var lower, upper := "aB", "Ab";
    assert lower[..0] == [] && lower[0] == 'a' && lower[1] == 'B';
    assert upper[..0] == [] && upper[0] == 'A' && upper[1] == 'b';
    var ab: seq<u8> := [] + [16 * 10 + 11];
    assert ab == [0xab];
    assert HexDecode(lower) == Some(ab);
    assert HexDecode(upper) == Some(ab);
    assert "0g"[..0] == [];
  }

  /** Decoding a string that ends in two digits decodes its front and appends one byte. */
  lemma HexDecodeSnoc(p: string, hi: nat, lo: nat)
    requires hi < 16 && lo < 16
    ensures HexDecode(p + [HexChar(hi), HexChar(lo)]) ==
      if HexDecode(p).Some? then Some(HexDecode(p).value + [16 * hi + lo]) else None
  {
    var s := p + [HexChar(hi), HexChar(lo)];
    assert |s| >= 2;
    assert s[..|s| - 2] == p;
    assert HexDigitValue(s[|s| - 2]) == Some(hi);
    assert HexDigitValue(s[|s| - 1]) == Some(lo);
  }

  /** The last byte of a string is encoded by the last two digits. */
  lemma HexEncodeLast(b: seq<u8>)
    requires b != []
    ensures HexEncode(b) == HexEncode(b[..|b| - 1]) + [HexChar(b[|b| - 1] / 16), HexChar(b[|b| - 1] % 16)]
  {
  }

  /** Decoding what `HexEncode` produced gives the bytes back. */
  lemma {:induction false} HexRoundTrip(b: seq<u8>)
    ensures HexDecode(HexEncode(b)) == Some(b)
  {
    if b != [] {
      var init := b[..|b| - 1];
      var x := b[|b| - 1];
      HexEncodeLast(b);
      HexRoundTrip(init);
      HexDecodeSnoc(HexEncode(init), x / 16, x % 16);
      assert 16 * (x / 16) + x % 16 == x;
      assert b == init + [x];
    }
  }

  /** Read as one hex number, the encoding of `b` denotes the big-endian value of `b`. */
  lemma {:induction false} HexDigitsOfEncode(b: seq<u8>)
    ensures HexDigitsValue(HexEncode(b)) == Some(FromBE(b))
  {
    if b != [] {
      var s := HexEncode(b);
      var init := b[..|b| - 1];
      var x := b[|b| - 1];
      assert s[..|s| - 1][..|s| - 2] == HexEncode(init);
      HexDigitsOfEncode(init);
      assert HexDigitsValue(s[..|s| - 1]) == Some(16 * FromBE(init) + x / 16);
    }
  }

  /** Every character of an encoding is a lower-case hex digit. */
  lemma {:induction false} HexEncodeIsLowerHex(b: seq<u8>, i: nat)
    requires i < 2 * |b|
    ensures IsLowerHexChar(HexEncode(b)[i])
  {
    var init := b[..|b| - 1];
    if i < 2 * |init| {
      HexEncodeIsLowerHex(init, i);
    }
  }

  /** A `0x` prefix in front of encoded bytes is exactly what trimming removes. */
  /** Every character of an encoding is a lower-case hex digit. */
  lemma HexEncodeAllLowerHex(b: seq<u8>)
    ensures forall i :: 0 <= i < |HexEncode(b)| ==> IsLowerHexChar(HexEncode(b)[i])
  {
    forall i | 0 <= i < |HexEncode(b)|
      ensures IsLowerHexChar(HexEncode(b)[i])
    {
      HexEncodeIsLowerHex(b, i);
    }
  }

  lemma TrimEncoded(b: seq<u8>)
    ensures TrimHexPrefix("0x" + HexEncode(b)) == HexEncode(b)
  {
    var s := "0x" + HexEncode(b);
    assert s[2..] == HexEncode(b);
    if |b| > 0 {
      HexEncodeIsLowerHex(b, 1);
    }
  }

  /**
   * `from_str_radix` reads the number its digits denote when it is below
   * 2^64, and refuses text with a non-digit or a larger number; one
   * leading `+` is ignored.
   */
  lemma ParseU64Radix16Digits(d: string)
    requires d != [] && d[0] != '+'
    ensures HexDigitsValue(d).None? ==> ParseU64Radix16(d) == None
    ensures HexDigitsValue(d).Some? ==>
      ParseU64Radix16(d) == if HexDigitsValue(d).value < U64_LIMIT then Some(HexDigitsValue(d).value) else None
    ensures ParseU64Radix16("+" + d) == ParseU64Radix16(d)
  {
    assert ("+" + d)[1..] == d;
  }

  /** `from_str_radix` reads back the 16 hex digits of any 64-bit value. */
  lemma ParseU64RoundTrip(n: u64)
    ensures ParseU64Radix16(HexEncode(BE(n, 8))) == Some(n)
  {
    var digits := HexEncode(BE(n, 8));
    assert |digits| == 16;
    Pow256Values();
    BERoundTrip(n, 8);
    HexDigitsOfEncode(BE(n, 8));
    assert HexDigitsValue(digits) == Some(n);
    HexEncodeIsLowerHex(BE(n, 8), 0);
    assert digits[0] != '+';
  }
}
