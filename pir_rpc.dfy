/**
 * The `pir_*` JSON-RPC endpoints: `pir_getStateDelta` (validated, then
 * refused as not implemented) and `pir_dumpStorage`, which pages through
 * the non-zero plain-storage slots in `(address, slot)` order with a cursor.
 */
module PirRpc {
  import opened Wrappers
  import opened Bytes
  import opened Hex
  import opened JsonRpc

  /** `MAX_DELTA_BLOCKS`. */
  const MAX_DELTA_BLOCKS: u64 := 100
  /** `MAX_DUMP_ENTRIES`. */
  const MAX_DUMP_ENTRIES: nat := 10000
  /** The page size when the request names none. */
  const DEFAULT_LIMIT: nat := 1000
  /** A cursor is an address (20 bytes) followed by a slot (32 bytes). */
  const CURSOR_LEN: nat := 52

  // ---------------------------------------------------------------------
  // pir_getStateDelta
  // ---------------------------------------------------------------------

  datatype GetStateDeltaRequest = GetStateDeltaRequest(fromBlock: u64, toBlock: u64)

  /**
   * `GetStateDeltaRequest::parse`, with the block count computed in 64-bit
   * arithmetic that wraps, as a release build computes `to - from + 1`.
   */
  function ParseGetStateDeltaWrapping(params: Params): (r: Result<GetStateDeltaRequest, RpcErr>)
    ensures r.Ok? ==> r.value.fromBlock <= r.value.toBlock
  {
    if params.None? then Err(MissingParam("params"))
    else if |params.value| == 0 then Err(MissingParam("from_block"))
    else
      match ParseBlockNumber(params.value[0])
      case Err(e) => Err(e)
      case Ok(from) =>
        if |params.value| < 2 then Err(MissingParam("to_block"))
        else
          match ParseBlockNumber(params.value[1])
          case Err(e) => Err(e)
          case Ok(to) =>
            if to < from then Err(BadParams)
            else
              var blockCount: u64 := (to - from + 1) % U64_LIMIT;
              if blockCount > MAX_DELTA_BLOCKS then Err(BadParams)
              else Ok(GetStateDeltaRequest(from, to))
  }

  /** The range `0 ..= u64::MAX` wraps to a count of zero and is accepted, although it spans 2^64 blocks. */
  lemma WrappingAcceptsFullRange()
    ensures ParseGetStateDeltaWrapping(Some([JInt(0), JInt(U64_MAX)])) == Ok(GetStateDeltaRequest(0, U64_MAX))
    ensures U64_MAX - 0 + 1 > MAX_DELTA_BLOCKS as int
  {
  }

  /**
   * `GetStateDeltaRequest::parse` as intended: absent parameters are
   * `MissingParam`, each block number is parsed as `parse_block_number`
   * does, and the inclusive range must run forward and span at most 100
   * blocks.
   */
  function ParseGetStateDelta(params: Params): (r: Result<GetStateDeltaRequest, RpcErr>)
    ensures params.None? ==> r == Err(MissingParam("params"))
    ensures params == Some([]) ==> r == Err(MissingParam("from_block"))
    ensures params.Some? && |params.value| == 1 ==>
      r == if ParseBlockNumber(params.value[0]).Ok? then Err(MissingParam("to_block")) else Err(BadParams)
    ensures (params.Some? && |params.value| >= 2
      && (ParseBlockNumber(params.value[0]).Err? || ParseBlockNumber(params.value[1]).Err?)) ==> r == Err(BadParams)
    ensures r.Ok? <==>
      params.Some? && |params.value| >= 2
      && ParseBlockNumber(params.value[0]).Ok? && ParseBlockNumber(params.value[1]).Ok?
      && ParseBlockNumber(params.value[0]).value <= ParseBlockNumber(params.value[1]).value
      && ParseBlockNumber(params.value[1]).value - ParseBlockNumber(params.value[0]).value + 1 <= MAX_DELTA_BLOCKS as int
    ensures r.Ok? ==> r.value == GetStateDeltaRequest(ParseBlockNumber(params.value[0]).value, ParseBlockNumber(params.value[1]).value)
    ensures (r.Err? && params.Some? && |params.value| >= 2
      && ParseBlockNumber(params.value[0]).Ok? && ParseBlockNumber(params.value[1]).Ok?) ==> r.error == BadParams
  {
    if params.None? then Err(MissingParam("params"))
    else if |params.value| == 0 then Err(MissingParam("from_block"))
    else
      match ParseBlockNumber(params.value[0])
      case Err(e) => Err(e)
      case Ok(from) =>
        if |params.value| < 2 then Err(MissingParam("to_block"))
        else
          match ParseBlockNumber(params.value[1])
          case Err(e) => Err(e)
          case Ok(to) =>
            if to < from then Err(BadParams)
            else if to - from + 1 > MAX_DELTA_BLOCKS as int then Err(BadParams)
            else Ok(GetStateDeltaRequest(from, to))
  }

  /** The two parsers differ only where the 64-bit count wraps: the full range. */
  lemma ParseGetStateDeltaAgrees(params: Params)
    requires !(params.Some? && |params.value| >= 2
      && ParseBlockNumber(params.value[0]) == Ok(0) && ParseBlockNumber(params.value[1]) == Ok(U64_MAX))
    ensures ParseGetStateDeltaWrapping(params) == ParseGetStateDelta(params)
  {
  }

  /** The full range is refused once the count is computed without wrapping. */
  lemma FullRangeRefused()
    ensures ParseGetStateDelta(Some([JInt(0), JInt(U64_MAX)])) == Err(BadParams)
  {
  }

  /** Examples: a reversed range, a range of 150 blocks, a missing `to_block`. */
  lemma ParseGetStateDeltaExamples()
    ensures ParseGetStateDelta(Some([JInt(10), JInt(5)])) == Err(BadParams)
    ensures ParseGetStateDelta(Some([JInt(0), JInt(149)])) == Err(BadParams)
    ensures ParseGetStateDelta(Some([JInt(0), JInt(99)])) == Ok(GetStateDeltaRequest(0, 99))
    ensures ParseGetStateDelta(Some([JInt(7)])) == Err(MissingParam("to_block"))
  {
  }

  /** `GetStateDeltaRequest::handle`: not implemented, whatever the request. */
  function HandleGetStateDelta(req: GetStateDeltaRequest): (r: Result<seq<Json>, RpcErr>)
    ensures r == Err(MethodNotFound)
  {
    Err(MethodNotFound)
  }

  // ---------------------------------------------------------------------
  // Storage keys and their order
  // ---------------------------------------------------------------------

  /** A plain-storage key. */
  datatype StorageKey = StorageKey(address: Bytes20, slot: Bytes32)

  /** A plain-storage slot as the store yields it. */
  datatype PlainEntry = PlainEntry(address: Bytes20, slot: Bytes32, value: U256) {
    function Key(): StorageKey
    {
      StorageKey(address, slot)
    }
  }

  /** Rust's order on the tuple `(Address, H256)`: by address bytes, then by slot bytes. */
  predicate KeyLess(a: StorageKey, b: StorageKey)
  {
    LexLess(a.address, b.address) || (a.address == b.address && LexLess(a.slot, b.slot))
  }

  lemma KeyLessIrreflexive(a: StorageKey)
    ensures !KeyLess(a, a)
  {
    LexLessIrreflexive(a.address);
    LexLessIrreflexive(a.slot);
  }

  lemma KeyLessTransitive(a: StorageKey, b: StorageKey, c: StorageKey)
    requires KeyLess(a, b) && KeyLess(b, c)
    ensures KeyLess(a, c)
  {
    if LexLess(a.address, b.address) && LexLess(b.address, c.address) {
      LexLessTransitive(a.address, b.address, c.address);
    } else if a.address == b.address && b.address == c.address {
      LexLessTransitive(a.slot, b.slot, c.slot);
    }
  }

  lemma KeyLessTotal(a: StorageKey, b: StorageKey)
    ensures a == b || KeyLess(a, b) || KeyLess(b, a)
  {
    LexLessTotal(a.address, b.address);
    LexLessTotal(a.slot, b.slot);
  }

  lemma KeyLessAsymmetric(a: StorageKey, b: StorageKey)
    requires KeyLess(a, b)
    ensures !KeyLess(b, a)
  {
    if LexLess(a.address, b.address) {
      LexLessAsymmetric(a.address, b.address);
      if b.address == a.address {
        LexLessIrreflexive(a.address);
      }
    } else {
      LexLessIrreflexive(a.address);
      LexLessAsymmetric(a.slot, b.slot);
    }
  }

  /** Entries whose keys strictly increase: the order the store iterates plain storage in. */
  predicate StrictlySorted(items: seq<PlainEntry>)
  {
    forall i, j :: 0 <= i < j < |items| ==> KeyLess(items[i].Key(), items[j].Key())
  }

  // ---------------------------------------------------------------------
  // Cursors
  // ---------------------------------------------------------------------

  /** The cursor text for a key: `0x` and the 104 hex digits of address and slot. */
  function CursorString(k: StorageKey): (s: string)
    ensures |s| == 2 + 2 * CURSOR_LEN
  {
    "0x" + HexEncode(k.address + k.slot)
  }

  /**
   * The cursor parameter of `pir_dumpStorage`: absent, `null` or `""` is no
   * cursor; anything but a string, text that is no hex once every leading
   * `0x` is trimmed, or a length other than 52 bytes is `BadParams`.
   */
  function ParseCursor(params: Params): (r: Result<Option<StorageKey>, RpcErr>)
    ensures r.Err? ==> r.error == BadParams
    ensures r == Ok(None) <==>
      params.None? || |params.value| == 0 || params.value[0] == JNull || params.value[0] == JString("")
    ensures (r.Ok? && r.value.Some?) <==>
      params.Some? && |params.value| > 0 && params.value[0].JString? && params.value[0].s != ""
      && HexDecode(TrimHexPrefix(params.value[0].s)).Some?
      && |HexDecode(TrimHexPrefix(params.value[0].s)).value| == CURSOR_LEN
    ensures r.Ok? && r.value.Some? ==>
      HexDecode(TrimHexPrefix(params.value[0].s)) == Some(r.value.value.address + r.value.value.slot)
  {
    if params.None? || |params.value| == 0 then Ok(None)
    else
      var v := params.value[0];
      if v.JNull? then Ok(None)
      else if !v.JString? then Err(BadParams)
      else if v.s == "" then Ok(None)
      else
        match HexDecode(TrimHexPrefix(v.s))
        case None => Err(BadParams)
        case Some(bytes) =>
          if |bytes| != CURSOR_LEN then Err(BadParams)
          else
            assert bytes == bytes[..20] + bytes[20..52];
            Ok(Some(StorageKey(bytes[..20], bytes[20..52])))
  }

  /** The `limit` parameter: absent or `null` is 1000; any other value must be a `u64`. */
  function ParseLimit(params: Params): (r: Result<nat, RpcErr>)
    ensures r.Err? ==> r.error == BadParams
    ensures params.None? || (params.Some? && (|params.value| < 2 || params.value[1].JNull?)) ==> r == Ok(DEFAULT_LIMIT)
    ensures params.Some? && |params.value| >= 2 && !params.value[1].JNull? ==>
      (r.Ok? <==> AsU64(params.value[1]).Some?) && (r.Ok? ==> r.value == params.value[1].n)
  {
    if params.None? || |params.value| < 2 || params.value[1].JNull? then Ok(DEFAULT_LIMIT)
    else
      match AsU64(params.value[1])
      case None => Err(BadParams)
      case Some(n) => Ok(n)
  }

  datatype DumpStorageRequest = DumpStorageRequest(cursor: Option<StorageKey>, limit: nat)

  /**
   * `DumpStorageRequest::parse`: the cursor is checked first, then the limit,
   * which must lie in `1 ..= 10000`.
   */
  function ParseDumpStorage(params: Params): (r: Result<DumpStorageRequest, RpcErr>)
    ensures r.Err? ==> r.error == BadParams
    ensures r.Ok? ==> 1 <= r.value.limit <= MAX_DUMP_ENTRIES
    ensures r.Ok? <==> ParseCursor(params).Ok? && ParseLimit(params).Ok? && 1 <= ParseLimit(params).value <= MAX_DUMP_ENTRIES
    ensures r.Ok? ==> r.value == DumpStorageRequest(ParseCursor(params).value, ParseLimit(params).value)
  {
    match ParseCursor(params)
    case Err(e) => Err(e)
    case Ok(cursor) =>
      match ParseLimit(params)
      case Err(e) => Err(e)
      case Ok(limit) =>
        if limit > MAX_DUMP_ENTRIES then Err(BadParams)
        else if limit == 0 then Err(BadParams)
        else Ok(DumpStorageRequest(cursor, limit))
  }

  /** The text of a cursor decodes to the 52 bytes of its key. */
  lemma CursorDecodes(k: StorageKey)
    ensures HexDecode(TrimHexPrefix(CursorString(k))) == Some(k.address + k.slot)
  {
    TrimEncoded(k.address + k.slot);
    HexRoundTrip(k.address + k.slot);
  }

  /** The cursor text of a key is read back as that key. */
  lemma ParseCursorOfKey(k: StorageKey, limit: Json)
    ensures ParseCursor(Some([JString(CursorString(k)), limit])) == Ok(Some(k))
  {
    var bytes := k.address + k.slot;
    CursorDecodes(k);
    assert ParseCursor(Some([JString(CursorString(k)), limit])) == Ok(Some(StorageKey(bytes[..20], bytes[20..52])));
    assert CursorString(k) != "";
    assert bytes[..20] == k.address;
    assert bytes[20..52] == k.slot;
  }

  /** A cursor handed out by `pir_dumpStorage` parses back to the key it was made from. */
  lemma CursorRoundTrip(k: StorageKey, limit: nat)
    requires 1 <= limit <= MAX_DUMP_ENTRIES
    ensures ParseDumpStorage(Some([JString(CursorString(k)), JInt(limit)])) == Ok(DumpStorageRequest(Some(k), limit))
  {
    var params: Params := Some([JString(CursorString(k)), JInt(limit)]);
    ParseCursorOfKey(k, JInt(limit));
    assert ParseLimit(params) == Ok(limit);
  }

  /** Defaults, and the examples of invalid limits and a cursor of the wrong length. */
  lemma ParseDumpStorageExamples()
    ensures ParseDumpStorage(None) == Ok(DumpStorageRequest(None, DEFAULT_LIMIT))
    ensures ParseDumpStorage(Some([])) == Ok(DumpStorageRequest(None, DEFAULT_LIMIT))
    ensures ParseDumpStorage(Some([JNull, JNull])) == Ok(DumpStorageRequest(None, DEFAULT_LIMIT))
    ensures ParseDumpStorage(Some([JString("")])) == Ok(DumpStorageRequest(None, DEFAULT_LIMIT))
    ensures ParseDumpStorage(Some([JNull, JInt(0)])) == Err(BadParams)
    ensures ParseDumpStorage(Some([JNull, JInt(10001)])) == Err(BadParams)
    ensures ParseDumpStorage(Some([JNull, JInt(10000)])) == Ok(DumpStorageRequest(None, 10000))
    ensures ParseDumpStorage(Some([JNull, JString("5")])) == Err(BadParams)
    ensures ParseDumpStorage(Some([JInt(5)])) == Err(BadParams)
  {
  }

  /** Any string that decodes to some number of bytes other than 52 is refused. */
  lemma WrongCursorLengthRefused(b: seq<u8>, limit: Json)
    requires |b| != CURSOR_LEN
    ensures ParseDumpStorage(Some([JString("0x" + HexEncode(b)), limit])).Err?
  {
    WrongCursorLength(b, limit);
  }

  lemma WrongCursorLength(b: seq<u8>, limit: Json)
    requires |b| != CURSOR_LEN
    ensures ParseCursor(Some([JString("0x" + HexEncode(b)), limit])) == Err(BadParams)
  {
    var s := "0x" + HexEncode(b);
    TrimEncoded(b);
    HexRoundTrip(b);
    assert HexDecode(TrimHexPrefix(s)) == Some(b);
    assert s != "";
  }

  // ---------------------------------------------------------------------
  // Pages
  // ---------------------------------------------------------------------

  /** What `iter_plain_storage` delivers: its entries in order, and whether it then fails. */
  datatype StorageScan = StorageScan(items: seq<PlainEntry>, failed: bool)

  /** `DumpStorageResponse`. */
  datatype DumpStorageResponse = DumpStorageResponse(entries: seq<PlainEntry>, nextCursor: Option<string>, hasMore: bool)

  /** The filter of the iteration callback: a non-zero value, and a key after the cursor if there is one. */
  predicate Qualifies(e: PlainEntry, cursor: Option<StorageKey>)
  {
    !e.value.IsZero() && (cursor.None? || KeyLess(cursor.value, e.Key()))
  }

  /** The entries that pass the filter, in iteration order. */
  function Qualifying(items: seq<PlainEntry>, cursor: Option<StorageKey>): (r: seq<PlainEntry>)
    ensures |r| <= |items|
  {
    if items == [] then []
    else
      var e := items[|items| - 1];
      Qualifying(items[..|items| - 1], cursor) + (if Qualifies(e, cursor) then [e] else [])
  }

  lemma QualifyingStep(items: seq<PlainEntry>, i: nat, cursor: Option<StorageKey>)
    requires i < |items|
    ensures Qualifying(items[..i + 1], cursor) ==
      Qualifying(items[..i], cursor) + (if Qualifies(items[i], cursor) then [items[i]] else [])
  {
    assert items[..i + 1][..i] == items[..i];
  }

  /** Every entry of the filtered sequence is an entry of the input that passes the filter. */
  lemma {:induction false} QualifyingMembers(items: seq<PlainEntry>, cursor: Option<StorageKey>)
    ensures forall e :: e in Qualifying(items, cursor) ==> e in items && Qualifies(e, cursor)
  {
    if items != [] {
      QualifyingMembers(items[..|items| - 1], cursor);
    }
  }

  /**
   * The page `handle` answers with: the first `limit` qualifying entries;
   * `hasMore` when more than `limit` qualify; then the cursor of the last
   * entry returned.
   */
  function PageOf(items: seq<PlainEntry>, cursor: Option<StorageKey>, limit: nat): DumpStorageResponse
  {
    var q := Qualifying(items, cursor);
    var hasMore := |q| > limit;
    var entries := if hasMore then q[..limit] else q;
    var next := if hasMore && entries != [] then Some(CursorString(entries[|entries| - 1].Key())) else None;
    DumpStorageResponse(entries, next, hasMore)
  }

  /**
   * `DumpStorageRequest::handle`: the callback is run on every entry the
   * store delivers; once more than `limit` entries are collected it sets
   * `done` and ignores the rest. A failing iteration is `Internal`, with no
   * partial page; otherwise the extra entry is popped and the cursor is
   * built from the last one.
   */
  method HandleDumpStorage(req: DumpStorageRequest, scan: StorageScan) returns (r: Result<DumpStorageResponse, RpcErr>)
    ensures scan.failed ==> r == Err(Internal)
    ensures !scan.failed ==> r == Ok(PageOf(scan.items, req.cursor, req.limit))
  {
    var items := scan.items;
    var entries: seq<PlainEntry> := [];
    var done := false;
    for i := 0 to |items|
      invariant done <==> |Qualifying(items[..i], req.cursor)| > req.limit
      invariant entries == if done then Qualifying(items[..i], req.cursor)[..req.limit + 1] else Qualifying(items[..i], req.cursor)
    {
      QualifyingStep(items, i, req.cursor);
      var e := items[i];
      if done {
        continue;
      }
      if e.value.IsZero() {
        continue;
      }
      if req.cursor.Some? && !KeyLess(req.cursor.value, e.Key()) {
        continue;
      }
      entries := entries + [e];
      if |entries| > req.limit {
        done := true;
      }
    }
    assert items[..|items|] == items;
    if scan.failed {
      return Err(Internal);
    }
    ghost var q := Qualifying(items, req.cursor);
    var hasMore := |entries| > req.limit;
    assert hasMore == done;
    if hasMore {
      entries := entries[..|entries| - 1];
      assert entries == q[..req.limit];
    }
    var nextCursor: Option<string> := None;
    if hasMore && entries != [] {
      var last := entries[|entries| - 1];
      var bytes := CursorBytes(last.Key());
      nextCursor := Some("0x" + HexEncode(bytes));
      assert nextCursor == Some(CursorString(last.Key()));
    }
    r := Ok(DumpStorageResponse(entries, nextCursor, hasMore));
  }

  /** The 52-byte cursor buffer: the address copied to bytes 0..20, the slot to 20..52. */
  method CursorBytes(k: StorageKey) returns (bytes: seq<u8>)
    ensures bytes == k.address + k.slot
  {
    var buf := new u8[CURSOR_LEN](_ => 0);
    CopySlice(buf, 0, k.address);
    CopySlice(buf, 20, k.slot);
    bytes := buf[..];
  }

  /**
   * A page never holds more than `limit` entries, each non-zero and after the
   * cursor; a next cursor is given exactly when more entries remain, and it
   * parses back to the key of the last entry of the page.
   */
  lemma PageProperties(items: seq<PlainEntry>, req: DumpStorageRequest)
    requires 1 <= req.limit <= MAX_DUMP_ENTRIES
    ensures var p := PageOf(items, req.cursor, req.limit);
      |p.entries| <= req.limit
      && (forall e :: e in p.entries ==> e in items && Qualifies(e, req.cursor))
      && (p.hasMore <==> |Qualifying(items, req.cursor)| > req.limit)
      && (p.nextCursor.Some? <==> p.hasMore)
      && (p.hasMore ==>
            (|p.entries| == req.limit
             && ParseDumpStorage(Some([JString(p.nextCursor.value), JInt(req.limit)]))
                == Ok(DumpStorageRequest(Some(p.entries[|p.entries| - 1].Key()), req.limit))))
  {
    var q := Qualifying(items, req.cursor);
    var p := PageOf(items, req.cursor, req.limit);
    QualifyingMembers(items, req.cursor);
    assert forall e :: e in p.entries ==> e in q;
    if p.hasMore {
      CursorRoundTrip(p.entries[|p.entries| - 1].Key(), req.limit);
    }
  }

  // ---------------------------------------------------------------------
  // Walking every page
  // ---------------------------------------------------------------------

  /** With every key below `k`, nothing qualifies after cursor `k`. */
  lemma {:induction false} NothingAfterLast(items: seq<PlainEntry>, k: StorageKey)
    requires forall i :: 0 <= i < |items| ==> !KeyLess(k, items[i].Key())
    ensures Qualifying(items, Some(k)) == []
  {
    if items != [] {
      NothingAfterLast(items[..|items| - 1], k);
    }
  }

  /**
   * In sorted input the entries after cursor `c` are a tail of the non-zero
   * entries.
   */
  lemma {:induction false} QualifyingIsTail(items: seq<PlainEntry>, c: Option<StorageKey>)
    requires StrictlySorted(items)
    ensures var all := Qualifying(items, None); var q := Qualifying(items, c);
      |q| <= |all| && q == all[|all| - |q|..]
  {
    if items != [] && c.Some? {
      var init, x := items[..|items| - 1], items[|items| - 1];
      var k := c.value;
      QualifyingIsTail(init, c);
      var all', q' := Qualifying(init, None), Qualifying(init, c);
      if x.value.IsZero() {
      } else if KeyLess(k, x.Key()) {
        assert Qualifying(items, c) == q' + [x];
        assert Qualifying(items, None) == all' + [x];
      } else {
        forall i | 0 <= i < |init|
          ensures !KeyLess(k, init[i].Key())
        {
          assert KeyLess(init[i].Key(), x.Key());
          KeyLessTotal(k, x.Key());
          if KeyLess(k, init[i].Key()) {
            if k == x.Key() {
              KeyLessAsymmetric(k, init[i].Key());
            } else {
              KeyLessTransitive(k, init[i].Key(), x.Key());
              KeyLessAsymmetric(x.Key(), k);
            }
          }
        }
        NothingAfterLast(init, k);
        assert Qualifying(items, c) == [];
      }
    }
  }

  /**
   * In sorted input, the entries after the key of the `m`-th non-zero entry
   * are exactly the non-zero entries that follow it.
   */
  lemma {:induction false} QualifyingAfterEntry(items: seq<PlainEntry>, m: nat)
    requires StrictlySorted(items)
    requires m < |Qualifying(items, None)|
    ensures var all := Qualifying(items, None);
      Qualifying(items, Some(all[m].Key())) == all[m + 1..]
  {
    var init, x := items[..|items| - 1], items[|items| - 1];
    var all, all' := Qualifying(items, None), Qualifying(init, None);
    var k := all[m].Key();
    if x.value.IsZero() {
      assert all == all';
      QualifyingAfterEntry(init, m);
    } else {
      assert all == all' + [x];
      if m < |all'| {
        QualifyingAfterEntry(init, m);
        QualifyingMembers(init, None);
        assert all'[m] in init;
        var j :| 0 <= j < |init| && init[j] == all'[m];
        assert KeyLess(k, x.Key()) by {
          assert items[j] == init[j];
        }
        assert all[m + 1..] == all'[m + 1..] + [x];
      } else {
        assert k == x.Key();
        KeyLessIrreflexive(k);
        forall i | 0 <= i < |init|
          ensures !KeyLess(k, init[i].Key())
        {
          assert KeyLess(init[i].Key(), k) by {
            assert items[i] == init[i];
          }
          KeyLessAsymmetric(init[i].Key(), k);
        }
        NothingAfterLast(init, k);
      }
    }
  }

  /**
   * A page with more to come: the request its cursor parses to has fewer
   * entries left, namely those after the page.
   */
  lemma NextPage(items: seq<PlainEntry>, req: DumpStorageRequest)
    requires StrictlySorted(items)
    requires 1 <= req.limit <= MAX_DUMP_ENTRIES
    requires PageOf(items, req.cursor, req.limit).hasMore
    ensures var p := PageOf(items, req.cursor, req.limit);
      var next := ParseDumpStorage(Some([JString(p.nextCursor.value), JInt(req.limit)]));
      next.Ok? && next.value.limit == req.limit
      && Qualifying(items, next.value.cursor) == Qualifying(items, req.cursor)[req.limit..]
  {
    var p := PageOf(items, req.cursor, req.limit);
    var q := Qualifying(items, req.cursor);
    var last := q[req.limit - 1];
    assert p.entries == q[..req.limit];
    assert p.nextCursor == Some(CursorString(last.Key()));
    CursorRoundTrip(last.Key(), req.limit);
    var all := Qualifying(items, None);
    QualifyingIsTail(items, req.cursor);
    var start := |all| - |q|;
    assert last == all[start + req.limit - 1];
    QualifyingAfterEntry(items, start + req.limit - 1);
    assert all[start + req.limit..] == q[req.limit..];
  }

  /**
   * The request a client sends after a page with more to come: the cursor
   * it received, parsed as the endpoint parses it, and the same limit.
   */
  function NextRequest(items: seq<PlainEntry>, req: DumpStorageRequest): (next: DumpStorageRequest)
    requires StrictlySorted(items)
    requires 1 <= req.limit <= MAX_DUMP_ENTRIES
    requires PageOf(items, req.cursor, req.limit).hasMore
    ensures next.limit == req.limit
    ensures Qualifying(items, next.cursor) == Qualifying(items, req.cursor)[req.limit..]
  {
    NextPage(items, req);
    var p := PageOf(items, req.cursor, req.limit);
    ParseDumpStorage(Some([JString(p.nextCursor.value), JInt(req.limit)])).value
  }

  /**
   * A client that starts from `req` and keeps sending back the cursor it
   * receives, with the same limit, until `has_more` is false: the
   * concatenation of the pages it sees.
   */
  function Walk(items: seq<PlainEntry>, req: DumpStorageRequest): seq<PlainEntry>
    requires StrictlySorted(items)
    requires 1 <= req.limit <= MAX_DUMP_ENTRIES
    decreases |Qualifying(items, req.cursor)|
  {
    var p := PageOf(items, req.cursor, req.limit);
    if !p.hasMore then p.entries
    else p.entries + Walk(items, NextRequest(items, req))
  }

  /** The entries of a page with more to come are the first `limit` that qualify. */
  lemma FullPage(items: seq<PlainEntry>, req: DumpStorageRequest)
    requires PageOf(items, req.cursor, req.limit).hasMore
    ensures PageOf(items, req.cursor, req.limit).entries == Qualifying(items, req.cursor)[..req.limit]
  {
  }

  /** Walking from any request yields every entry that qualifies for it, each once, in order. */
  lemma {:induction false} WalkFrom(items: seq<PlainEntry>, req: DumpStorageRequest)
    requires StrictlySorted(items)
    requires 1 <= req.limit <= MAX_DUMP_ENTRIES
    ensures Walk(items, req) == Qualifying(items, req.cursor)
    decreases |Qualifying(items, req.cursor)|
  {
    var q := Qualifying(items, req.cursor);
    var p := PageOf(items, req.cursor, req.limit);
    if p.hasMore {
      var next := NextRequest(items, req);
      WalkFrom(items, next);
      FullPage(items, req);
      assert Walk(items, req) == p.entries + Walk(items, next);
      assert q == q[..req.limit] + q[req.limit..];
    }
  }

  /**
   * Completeness: from no cursor, with any limit the endpoint accepts, the
   * pages together are exactly the non-zero slots, in key order, none
   * repeated and none left out.
   */
  lemma WalkComplete(items: seq<PlainEntry>, limit: nat)
    requires StrictlySorted(items)
    requires 1 <= limit <= MAX_DUMP_ENTRIES
    ensures Walk(items, DumpStorageRequest(None, limit)) == Qualifying(items, None)
    ensures forall e :: e in Walk(items, DumpStorageRequest(None, limit)) <==> e in items && !e.value.IsZero()
  {
    WalkFrom(items, DumpStorageRequest(None, limit));
    QualifyingMembers(items, None);
    forall e | e in items && !e.value.IsZero()
      ensures e in Qualifying(items, None)
    {
      NonZeroKept(items, e);
    }
  }

  /** Every non-zero entry of the input passes the filter without a cursor. */
  lemma {:induction false} NonZeroKept(items: seq<PlainEntry>, e: PlainEntry)
    requires e in items && !e.value.IsZero()
    ensures e in Qualifying(items, None)
  {
    var init := items[..|items| - 1];
    if e != items[|items| - 1] {
      assert e in init;
      NonZeroKept(init, e);
    }
  }
}
