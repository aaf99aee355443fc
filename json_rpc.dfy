/**
 * What the RPC handlers see of JSON-RPC: parameter values, the error kinds
 * they report, and the block-number parser that the `pir_*` and `ubt_*`
 * handlers share.
 */
module JsonRpc {
  import opened Wrappers
  import opened Bytes
  import opened Hex

  /**
   * A JSON value as the handlers inspect it: `null`, an integral number of
   * any sign and size, a string, or anything else (booleans, fractional
   * numbers, arrays, objects).
   */
  datatype Json = JNull | JInt(n: int) | JString(s: string) | JOther

  /** `RpcErr` by kind; of the messages only the name a `MissingParam` reports is kept. */
  datatype RpcErr = BadParams | MissingParam(name: string) | Internal | MethodNotFound | UnsuportedFork

  /** The `params` member of a request: absent, or a list of values. */
  type Params = Option<seq<Json>>

  /** `Value::as_u64`: integral numbers in `0 .. 2^64`. */
  function AsU64(v: Json): (r: Option<u64>)
    ensures r.Some? <==> v.JInt? && 0 <= v.n < U64_LIMIT
    ensures r.Some? ==> r.value == v.n
  {
    if v.JInt? && 0 <= v.n < U64_LIMIT then Some(v.n) else None
  }

  /**
   * `parse_block_number`: a JSON unsigned integer is taken as is; a string is
   * read as base 16 after every leading `0x` is stripped; everything else,
   * and any string that does not parse, is `BadParams`.
   */
  function ParseBlockNumber(v: Json): (r: Result<u64, RpcErr>)
    ensures r.Err? ==> r.error == BadParams
    ensures AsU64(v).Some? ==> r == Ok(v.n)
    ensures v.JString? ==> (r.Ok? <==> ParseU64Radix16(TrimHexPrefix(v.s)).Some?)
    ensures v.JString? && r.Ok? ==> ParseU64Radix16(TrimHexPrefix(v.s)) == Some(r.value)
    ensures v.JNull? || v.JOther? || (v.JInt? && AsU64(v).None?) ==> r.Err?
  {
    match AsU64(v)
    case Some(n) => Ok(n)
    case None =>
      if v.JString? then
        match ParseU64Radix16(TrimHexPrefix(v.s))
        case Some(n) => Ok(n)
        case None => Err(BadParams)
      else
        Err(BadParams)
  }

  /** Hex text whose number does not fit in 64 bits is refused, however many digits it has. */
  lemma ParseBlockNumberOverflow(b: seq<u8>)
    requires FromBE(b) >= U64_LIMIT
    ensures ParseBlockNumber(JString("0x" + HexEncode(b))) == Err(BadParams)
  {
    assert b != [];
    TrimEncoded(b);
    HexDigitsOfEncode(b);
    HexEncodeIsLowerHex(b, 0);
    ParseU64Radix16Digits(HexEncode(b));
  }

  /** `0x01` followed by sixteen zeros, the number 2^64, is one past the largest block number and is refused. */
  lemma ParseBlockNumberOnePastMax()
    ensures FromBE([1] + Zeros(8)) == U64_MAX + 1
    ensures ParseBlockNumber(JString("0x" + HexEncode([1] + Zeros(8)))) == Err(BadParams)
  {
    FromBEAppend([1], Zeros(8));
    BEOfZero(8);
    Pow256Values();
    BERoundTrip(0, 8);
    assert FromBE([1]) == 1 by { assert [1][..0] == []; }
    ParseBlockNumberOverflow([1] + Zeros(8));
  }

  /** With `0x` in front, encoded bytes parse as whatever their digits parse as. */
  lemma ParsePrefixedHex(b: seq<u8>, n: u64)
    requires ParseU64Radix16(HexEncode(b)) == Some(n)
    ensures ParseBlockNumber(JString("0x" + HexEncode(b))) == Ok(n)
  {
    TrimEncoded(b);
  }

  /** A block number written as `0x` and sixteen hex digits parses back to itself. */
  lemma ParseBlockNumberRoundTrip(n: u64)
    ensures ParseBlockNumber(JString("0x" + HexEncode(BE(n, 8)))) == Ok(n)
    ensures ParseBlockNumber(JInt(n)) == Ok(n)
  {
    ParseU64RoundTrip(n);
    ParsePrefixedHex(BE(n, 8), n);
  }

  /** A hex string, with its prefix repeated or not, is read in base 16. */
  lemma ParseBlockNumberHexExamples()
    ensures ParseBlockNumber(JString("0x10")) == Ok(16)
    ensures ParseBlockNumber(JString("0x0x10")) == Ok(16)
  {
    var ten := "10";
    assert ten[..1] == "1" && ten[1] == '0';
    assert HexDigitsValue(ten[..1]) == Some(1);
    assert HexDigitsValue(ten) == Some(16);
    assert ParseU64Radix16(ten) == Some(16);
    assert ("0x" + ten)[2..] == ten;
    assert TrimHexPrefix("0x" + ten) == ten;
    assert ("0x" + ("0x" + ten))[2..] == "0x" + ten;
    assert TrimHexPrefix("0x" + ("0x" + ten)) == ten;
    assert "0x" + ten == "0x10" && "0x" + ("0x" + ten) == "0x0x10";
  }

  /** A bare prefix and a negative number are refused. */
  lemma ParseBlockNumberRejects()
    ensures ParseBlockNumber(JString("0x")) == Err(BadParams)
    ensures ParseBlockNumber(JInt(-1)) == Err(BadParams)
  {
    assert "0x"[2..] == "";
  }

  /** Only a lower-case `0x` is stripped: `0X1` is not a hex number. */
  lemma ParseBlockNumberUpperCasePrefix()
    ensures ParseBlockNumber(JString("0X1")) == Err(BadParams)
  {
    assert TrimHexPrefix("0X1") == "0X1";
    assert "0X1"[..2] == "0X";
    assert HexDigitsValue("0X") == None;
  }
}
