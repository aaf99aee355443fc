/**
 * The `ubt_getRoot` JSON-RPC endpoint: the root of the Unified Binary Tree,
 * available only for the block the tree is synced to.
 */
module UbtRpc {
  import opened Wrappers
  import opened Bytes
  import opened Hex
  import opened JsonRpc
  import opened UbtStore

  datatype GetRootRequest = GetRootRequest(blockNumber: u64)

  /**
   * `GetRootRequest::parse`: the parameter list must be present and hold a
   * first value, which is read by `parse_block_number`; later values are
   * ignored.
   */
  function ParseGetRoot(params: Params): (r: Result<GetRootRequest, RpcErr>)
    ensures params.None? ==> r == Err(MissingParam("params"))
    ensures params == Some([]) ==> r == Err(MissingParam("block_number"))
    ensures params.Some? && |params.value| > 0 ==>
      match ParseBlockNumber(params.value[0])
      case Ok(n) => r == Ok(GetRootRequest(n))
      case Err(e) => r == Err(e)
  {
    if params.None? then Err(MissingParam("params"))
    else if |params.value| == 0 then Err(MissingParam("block_number"))
    else
      match ParseBlockNumber(params.value[0])
      case Ok(n) => Ok(GetRootRequest(n))
      case Err(e) => Err(e)
  }

  /** `format!("{root:#x}")` for a 32-byte hash: `0x` and 64 lower-case digits. */
  function RootText(root: B256): (s: string)
    ensures |s| == 66 && s[..2] == "0x"
    ensures forall i :: 2 <= i < |s| ==> IsLowerHexChar(s[i])
    ensures HexDecode(TrimHexPrefix(s)) == Some(root)
  {
    TrimEncoded(root);
    HexRoundTrip(root);
    HexEncodeAllLowerHex(root);
    "0x" + HexEncode(root)
  }

  /**
   * `GetRootRequest::handle`. `enabled` is whether the node was built with
   * the `ubt` feature, `locked` whether taking the state's lock succeeded.
   * The state is only read.
   */
  function HandleGetRoot(req: GetRootRequest, enabled: bool, locked: bool, state: UbtState): (r: Result<string, RpcErr>)
    reads state
    ensures !enabled ==> r == Err(UnsuportedFork)
    ensures enabled && !locked ==> r == Err(Internal)
    ensures enabled && locked && state.CurrentHead().None? ==> r == Err(Internal)
    ensures enabled && locked && state.CurrentHead().Some? && state.CurrentHead().value != req.blockNumber
      ==> r == Err(BadParams)
    ensures r.Ok? <==> enabled && locked && state.CurrentHead() == Some(req.blockNumber)
    ensures r.Ok? ==> r.value == RootText(state.Root())
    ensures r.Ok? ==> HexDecode(TrimHexPrefix(r.value)) == Some(state.Root())
  {
    if !enabled then Err(UnsuportedFork)
    else if !locked then Err(Internal)
    else
      match state.CurrentHead()
      case None => Err(Internal)
      case Some(head) =>
        if head != req.blockNumber then Err(BadParams)
        else Ok(RootText(state.Root()))
  }

  /** A block number given as `0x`-prefixed hex text. */
  lemma ParseGetRootHex()
    ensures ParseGetRoot(Some([JString("0x10")])) == Ok(GetRootRequest(16))
  {
    ParseBlockNumberHexExamples();
  }

  /** Parameter examples: a plain block number, one of the wrong kind, and the missing cases. */
  lemma ParseGetRootExamples()
    ensures ParseGetRoot(Some([JInt(7), JNull])) == Ok(GetRootRequest(7))
    ensures ParseGetRoot(Some([JOther])) == Err(BadParams)
    ensures ParseGetRoot(None) == Err(MissingParam("params"))
    ensures ParseGetRoot(Some([])) == Err(MissingParam("block_number"))
  {
  }

  /**
   * After a block is applied, asking for that block's root answers with the
   * root `apply_block_updates` returned, and asking for any other block is
   * refused.
   */
  method GetRootAfterBlock(hasher: RootHasher, blockNumber: u64, other: u64, updates: seq<UbtUpdate>)
    returns (applied: B256, answer: Result<string, RpcErr>, refused: Result<string, RpcErr>)
    requires other != blockNumber
    ensures answer == Ok(RootText(applied))
    ensures refused == Err(BadParams)
  {
    var state := new UbtState.New(hasher);
    applied := state.ApplyBlockUpdates(blockNumber, ZERO_HASH, updates);
    answer := HandleGetRoot(GetRootRequest(blockNumber), true, true, state);
    refused := HandleGetRoot(GetRootRequest(other), true, true, state);
  }

  /** Before any block, the tree has no head and every request is refused as internal. */
  method GetRootBeforeAnyBlock(hasher: RootHasher, blockNumber: u64) returns (answer: Result<string, RpcErr>)
    ensures answer == Err(Internal)
  {
    var state := new UbtState.New(hasher);
    answer := HandleGetRoot(GetRootRequest(blockNumber), true, true, state);
  }
}
