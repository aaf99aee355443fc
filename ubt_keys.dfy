/**
 * `account_updates_to_ubt`: how the account changes of a block become tree
 * writes under the key schema of EIP-7864 (basic-data leaf, code-hash leaf,
 * code chunks, storage slots).
 */
module UbtKeys {
  import opened Wrappers
  import opened Bytes
  import opened UbtStore

  type Address = Bytes20

  /** `AccountInfo`: nonce, balance and code hash. */
  datatype AccountInfo = AccountInfo(nonce: u64, balance: U256, codeHash: Bytes32)

  /**
   * `AccountUpdate` as the conversion reads it. `addedStorage` is the slot
   * map in whatever order the hash map yields it.
   */
  datatype AccountUpdate = AccountUpdate(
    address: Address,
    removed: bool,
    info: Option<AccountInfo>,
    code: Option<seq<u8>>,
    addedStorage: seq<(Bytes32, U256)>)

  /**
   * The parts of the `ubt` crate the conversion calls: the four key
   * derivations, `chunkify_code` followed by each chunk's `encode`, and
   * `BasicDataLeaf::new(..).encode()`.
   */
  datatype KeySchema = KeySchema(
    basicDataKey: Address -> TreeKey,
    codeHashKey: Address -> TreeKey,
    codeChunkKey: (Address, u64) -> TreeKey,
    storageSlotKey: (Address, Bytes32) -> TreeKey,
    chunkify: seq<u8> -> seq<B256>,
    encodeBasicData: (u64, u128, u32) -> B256)

  // ---------------------------------------------------------------------
  // Leaf values
  // ---------------------------------------------------------------------

  /** The balance as stored in the basic-data leaf: `u128::MAX` when it does not fit, else its low 128 bits. */
  function SaturatedBalance(balance: U256): (r: u128)
    ensures r == if balance.Value() > U128_MAX then U128_MAX else balance.Value()
  {
    if balance.Value() > U128_MAX then U128_MAX else balance.LowU128()
  }

  /** `bytecode.len() as u32`, or 0 without code: the length wraps at 2^32. */
  function CodeSize(code: Option<seq<u8>>): (r: u32)
    ensures code.None? ==> r == 0
    ensures code.Some? && |code.value| < U32_LIMIT ==> r == |code.value|
  {
    if code.Some? then |code.value| % U32_LIMIT else 0
  }

  /** The leaf value of a storage slot: zero for zero, else the 32 big-endian bytes of the value. */
  function StorageValue(v: U256): (r: B256)
  {
    if v.IsZero() then ZERO_HASH else v.ToBigEndian()
  }

  /** The stored leaf denotes the slot's value, and zero is stored as 32 zero bytes. */
  lemma StorageValueMeaning(v: U256)
    ensures FromBE(StorageValue(v)) == v.Value()
    ensures StorageValue(v) == v.ToBigEndian()
    ensures v.Value() == 0 <==> StorageValue(v) == ZERO_HASH
  {
    BigEndianValue(v);
    IsZeroIffValueZero(v);
    if v.IsZero() {
      ZeroBigEndian(v);
    } else {
      assert FromBE(ZERO_HASH) == 0 by { BEOfZero(32); BERoundTrip(0, 32); }
    }
  }

  /** The big-endian bytes of the low `n` limbs, most significant limb first. */
  function LimbsBigEndian(limbs: Limbs, n: nat): (r: seq<u8>)
    requires n <= 4
    ensures |r| == 8 * n
  {
    if n == 0 then [] else BE(limbs[n - 1], 8) + LimbsBigEndian(limbs, n - 1)
  }

  /** All four limbs laid out this way are the 32-byte big-endian form. */
  lemma LimbsBigEndianAll(v: U256)
    ensures LimbsBigEndian(v.limbs, 4) == v.ToBigEndian()
  {
    var l := v.limbs;
    assert LimbsBigEndian(l, 1) == BE(l[0], 8);
    assert LimbsBigEndian(l, 2) == BE(l[1], 8) + BE(l[0], 8);
    assert LimbsBigEndian(l, 3) == BE(l[2], 8) + (BE(l[1], 8) + BE(l[0], 8));
  }

  /**
   * The 32-byte value built as the source builds it: a zeroed buffer, then
   * limb `i` copied as its eight big-endian bytes to `24 - 8 i .. 32 - 8 i`.
   */
  method StorageValueBytes(v: U256) returns (bytes: B256)
    ensures bytes == v.ToBigEndian()
  {
    var buf := new u8[32](_ => 0);
    for i := 0 to 4
      invariant buf[32 - 8 * i..] == LimbsBigEndian(v.limbs, i)
    {
      var limb := BE(v.limbs[i], 8);
      var at := 24 - 8 * i;
      ghost var before := buf[..];
      CopySlice(buf, at, limb);
      assert buf[..] == before[..at] + limb + before[at + 8..];
      assert buf[at..] == buf[..][at..];
      assert buf[at..] == limb + before[at + 8..];
      assert before[at + 8..] == LimbsBigEndian(v.limbs, i);
    }
    LimbsBigEndianAll(v);
    bytes := buf[..];
    assert bytes == buf[32 - 8 * 4..];
  }

  // ---------------------------------------------------------------------
  // The writes an account change produces
  // ---------------------------------------------------------------------

  /** A write that carries a value. */
  function Put(key: TreeKey, value: B256): UbtUpdate
  {
    UbtUpdate(key, Some(value))
  }

  /** The basic-data and code-hash writes of an account that has `info`. */
  function InfoWrites(s: KeySchema, u: AccountUpdate): (r: seq<UbtUpdate>)
    ensures |r| == if u.info.Some? then 2 else 0
  {
    match u.info
    case None => []
    case Some(info) =>
      [Put(s.basicDataKey(u.address), s.encodeBasicData(info.nonce, SaturatedBalance(info.balance), CodeSize(u.code))),
       Put(s.codeHashKey(u.address), info.codeHash)]
  }

  /** `i as u64` for a chunk index: the identity below 2^64, wrapping above. */
  function ChunkIndex(i: nat): (r: u64)
    ensures i < U64_LIMIT ==> r == i
  {
    i % U64_LIMIT
  }

  /** One write per code chunk, the `i`-th under the chunk key for index `i`. */
  function ChunkWrites(s: KeySchema, a: Address, chunks: seq<B256>): (r: seq<UbtUpdate>)
    ensures |r| == |chunks|
    ensures forall i :: 0 <= i < |chunks| ==> r[i] == Put(s.codeChunkKey(a, ChunkIndex(i)), chunks[i])
  {
    seq(|chunks|, i requires 0 <= i < |chunks| => Put(s.codeChunkKey(a, ChunkIndex(i)), chunks[i]))
  }

  /** One write per added storage slot, in the order the slots are given. */
  function StorageWrites(s: KeySchema, a: Address, storage: seq<(Bytes32, U256)>): (r: seq<UbtUpdate>)
    ensures |r| == |storage|
    ensures forall i :: 0 <= i < |storage| ==>
      r[i] == Put(s.storageSlotKey(a, storage[i].0), StorageValue(storage[i].1))
  {
    seq(|storage|, i requires 0 <= i < |storage| => Put(s.storageSlotKey(a, storage[i].0), StorageValue(storage[i].1)))
  }

  /** The chunks of the account's code, none without code. */
  function Chunks(s: KeySchema, u: AccountUpdate): seq<B256>
  {
    if u.code.Some? then s.chunkify(u.code.value) else []
  }

  /**
   * The writes of one account: a removed account zeroes its basic-data and
   * code-hash leaves and nothing else; any other account gets its info
   * leaves, then its code chunks, then its storage slots.
   */
  function AccountWrites(s: KeySchema, u: AccountUpdate): seq<UbtUpdate>
  {
    if u.removed then
      [Put(s.basicDataKey(u.address), ZERO_HASH), Put(s.codeHashKey(u.address), ZERO_HASH)]
    else
      InfoWrites(s, u) + ChunkWrites(s, u.address, Chunks(s, u)) + StorageWrites(s, u.address, u.addedStorage)
  }

  /** The writes of a list of account changes, account after account. */
  function AllWrites(s: KeySchema, updates: seq<AccountUpdate>): seq<UbtUpdate>
  {
    FlatMap(u => AccountWrites(s, u), updates)
  }

  /** The number of writes an account produces. */
  function WriteCount(s: KeySchema, u: AccountUpdate): nat
  {
    if u.removed then 2
    else (if u.info.Some? then 2 else 0) + |Chunks(s, u)| + |u.addedStorage|
  }

  /** The total number of writes a list of account changes produces. */
  function TotalWriteCount(s: KeySchema, updates: seq<AccountUpdate>): nat
  {
    if updates == [] then 0
    else TotalWriteCount(s, updates[..|updates| - 1]) + WriteCount(s, updates[|updates| - 1])
  }

  /** The chunk loop: one push per chunk, in order. */
  method PushChunkWrites(s: KeySchema, a: Address, chunks: seq<B256>, out: seq<UbtUpdate>) returns (out': seq<UbtUpdate>)
    ensures out' == out + ChunkWrites(s, a, chunks)
  {
    out' := out;
    for i := 0 to |chunks|
      invariant out' == out + ChunkWrites(s, a, chunks[..i])
    {
      var w := Put(s.codeChunkKey(a, ChunkIndex(i)), chunks[i]);
      assert ChunkWrites(s, a, chunks[..i + 1]) == ChunkWrites(s, a, chunks[..i]) + [w];
      out' := out' + [w];
    }
    assert chunks[..|chunks|] == chunks;
  }

  /** The storage loop: one push per slot, holding the limb-built big-endian value or zero. */
  method PushStorageWrites(s: KeySchema, a: Address, storage: seq<(Bytes32, U256)>, out: seq<UbtUpdate>) returns (out': seq<UbtUpdate>)
    ensures out' == out + StorageWrites(s, a, storage)
  {
    out' := out;
    for i := 0 to |storage|
      invariant out' == out + StorageWrites(s, a, storage[..i])
    {
      var (slot, value) := storage[i];
      var leaf: B256;
      if value.IsZero() {
        leaf := ZERO_HASH;
      } else {
        leaf := StorageValueBytes(value);
      }
      var w := Put(s.storageSlotKey(a, slot), leaf);
      assert StorageWrites(s, a, storage[..i + 1]) == StorageWrites(s, a, storage[..i]) + [w];
      out' := out' + [w];
    }
    assert storage[..|storage|] == storage;
  }

  /** The `info` branch: the basic-data leaf from the nonce, the saturated balance and the code size, then the code hash. */
  method PushInfoWrites(s: KeySchema, u: AccountUpdate, out: seq<UbtUpdate>) returns (out': seq<UbtUpdate>)
    ensures out' == out + InfoWrites(s, u)
  {
    out' := out;
    if u.info.Some? {
      var info := u.info.value;
      out' := out' + [Put(s.basicDataKey(u.address), s.encodeBasicData(info.nonce, SaturatedBalance(info.balance), CodeSize(u.code)))];
      out' := out' + [Put(s.codeHashKey(u.address), info.codeHash)];
    }
  }

  /** The writes of the first `j + 1` accounts are those of the first `j` and then those of account `j`. */
  lemma AllWritesStep(s: KeySchema, updates: seq<AccountUpdate>, j: nat)
    requires j < |updates|
    ensures AllWrites(s, updates[..j + 1]) == AllWrites(s, updates[..j]) + AccountWrites(s, updates[j])
  {
    assert updates[..j + 1] == updates[..j] + [updates[j]];
    FlatMapSnoc(u => AccountWrites(s, u), updates[..j], updates[j]);
  }

  /**
   * `account_updates_to_ubt`: accounts in order; a removed account pushes
   * its two zero writes and `continue`s; otherwise the info writes, the
   * chunk loop and the storage loop.
   */
  method AccountUpdatesToUbt(s: KeySchema, updates: seq<AccountUpdate>) returns (out: seq<UbtUpdate>)
    ensures out == AllWrites(s, updates)
  {
    out := [];
    for j := 0 to |updates|
      invariant out == AllWrites(s, updates[..j])
    {
      AllWritesStep(s, updates, j);
      var u := updates[j];
      var a := u.address;
      ghost var before := out;
      if u.removed {
        out := out + [Put(s.basicDataKey(a), ZERO_HASH)];
        out := out + [Put(s.codeHashKey(a), ZERO_HASH)];
        AppendAssoc(before, [Put(s.basicDataKey(a), ZERO_HASH)], [Put(s.codeHashKey(a), ZERO_HASH)]);
        continue;
      }
      out := PushInfoWrites(s, u, out);
      if u.code.Some? {
        out := PushChunkWrites(s, a, s.chunkify(u.code.value), out);
      } else {
        assert ChunkWrites(s, a, Chunks(s, u)) == [];
        assert out == out + ChunkWrites(s, a, Chunks(s, u));
      }
      ghost var iw, cw := InfoWrites(s, u), ChunkWrites(s, a, Chunks(s, u));
      out := PushStorageWrites(s, a, u.addedStorage, out);
      ghost var sw := StorageWrites(s, a, u.addedStorage);
      AppendAssoc(before, iw, cw);
      AppendAssoc(before, iw + cw, sw);
    }
    assert updates[..|updates|] == updates;
  }

  // ---------------------------------------------------------------------
  // What the conversion promises
  // ---------------------------------------------------------------------

  /** The writes of a concatenation are the writes of its parts, one after the other. */
  lemma AllWritesAppend(s: KeySchema, a: seq<AccountUpdate>, b: seq<AccountUpdate>)
    ensures AllWrites(s, a + b) == AllWrites(s, a) + AllWrites(s, b)
  {
    FlatMapAppend(u => AccountWrites(s, u), a, b);
  }

  /** The conversion emits exactly the total write count: 2 per removed account, else 2 per info, one per chunk and one per slot. */
  lemma {:induction false} AllWritesCount(s: KeySchema, updates: seq<AccountUpdate>)
    ensures |AllWrites(s, updates)| == TotalWriteCount(s, updates)
  {
    if updates != [] {
      AllWritesCount(s, updates[..|updates| - 1]);
    }
  }

  /** Every write the conversion emits carries a value: the conversion never asks for a deletion. */
  lemma {:induction false} AllWritesCarryValues(s: KeySchema, updates: seq<AccountUpdate>)
    ensures forall w :: w in AllWrites(s, updates) ==> w.value.Some?
  {
    if updates != [] {
      AllWritesCarryValues(s, updates[..|updates| - 1]);
      var u := updates[|updates| - 1];
      if !u.removed {
        var iw, cw, sw := InfoWrites(s, u), ChunkWrites(s, u.address, Chunks(s, u)), StorageWrites(s, u.address, u.addedStorage);
        assert forall x :: x in iw ==> x.value.Some?;
        assert forall x :: x in cw ==> x.value.Some?;
        assert forall x :: x in sw ==> x.value.Some?;
      }
    }
  }

  /** A single account's writes. */
  lemma AllWritesSingle(s: KeySchema, u: AccountUpdate)
    ensures AllWrites(s, [u]) == AccountWrites(s, u)
  {
    assert [] + [u] == [u];
    FlatMapSnoc(u => AccountWrites(s, u), [], u);
  }

  /** A removed account yields exactly two zero writes, whatever its info, code and storage. */
  lemma RemovedAccountWrites(s: KeySchema, u: AccountUpdate)
    requires u.removed
    ensures AllWrites(s, [u]) == [Put(s.basicDataKey(u.address), ZERO_HASH), Put(s.codeHashKey(u.address), ZERO_HASH)]
  {
    AllWritesSingle(s, u);
  }

  /**
   * The basic-data leaf of a kept account encodes its nonce, its saturated
   * balance and its code length; the code-hash leaf holds its code hash.
   */
  lemma InfoLeaves(s: KeySchema, u: AccountUpdate)
    requires !u.removed && u.info.Some?
    ensures var w := AccountWrites(s, u); var info := u.info.value;
      |w| >= 2
      && w[0] == Put(s.basicDataKey(u.address), s.encodeBasicData(info.nonce, SaturatedBalance(info.balance), CodeSize(u.code)))
      && w[1] == Put(s.codeHashKey(u.address), info.codeHash)
  {
  }

  /** After the info leaves come the chunks, chunk `i` under the key for index `i`. */
  lemma ChunkLeaves(s: KeySchema, u: AccountUpdate, i: nat)
    requires !u.removed && i < |Chunks(s, u)| <= U64_LIMIT
    ensures var w := AccountWrites(s, u); var off := if u.info.Some? then 2 else 0;
      off + i < |w| && w[off + i] == Put(s.codeChunkKey(u.address, i), Chunks(s, u)[i])
  {
    var iw, cw := InfoWrites(s, u), ChunkWrites(s, u.address, Chunks(s, u));
    var w := AccountWrites(s, u);
    assert w == iw + cw + StorageWrites(s, u.address, u.addedStorage);
    assert w[|iw| + i] == cw[i];
  }

  /** After the chunks come the slots, each under its slot key and holding the big-endian bytes of its value. */
  lemma SlotLeaves(s: KeySchema, u: AccountUpdate, i: nat)
    requires !u.removed && i < |u.addedStorage|
    ensures var w := AccountWrites(s, u); var off := (if u.info.Some? then 2 else 0) + |Chunks(s, u)|;
      off + i < |w|
      && w[off + i].key == s.storageSlotKey(u.address, u.addedStorage[i].0)
      && FromBE(w[off + i].value.value) == u.addedStorage[i].1.Value()
  {
    StorageWriteAt(s, u, i);
    StorageValueMeaning(u.addedStorage[i].1);
  }

  /** The write of added slot `i` follows the info and code-chunk writes. */
  lemma StorageWriteAt(s: KeySchema, u: AccountUpdate, i: nat)
    requires !u.removed && i < |u.addedStorage|
    ensures var w := AccountWrites(s, u); var off := (if u.info.Some? then 2 else 0) + |Chunks(s, u)|;
      off + i < |w| && w[off + i] == Put(s.storageSlotKey(u.address, u.addedStorage[i].0), StorageValue(u.addedStorage[i].1))
  {
    var iw, cw, sw := InfoWrites(s, u), ChunkWrites(s, u.address, Chunks(s, u)), StorageWrites(s, u.address, u.addedStorage);
    assert AccountWrites(s, u) == iw + cw + sw;
    assert (iw + cw + sw)[|iw| + |cw| + i] == sw[i];
  }

  /** An account with info and no code or storage yields two writes. */
  lemma InfoOnlyCount(s: KeySchema, a: Address, info: AccountInfo)
    ensures |AllWrites(s, [AccountUpdate(a, false, Some(info), None, [])])| == 2
  {
    AllWritesSingle(s, AccountUpdate(a, false, Some(info), None, []));
  }

  /** An account with info and two storage slots yields four writes. */
  lemma InfoAndTwoSlotsCount(s: KeySchema, a: Address, info: AccountInfo, slot1: Bytes32, v1: U256, slot2: Bytes32, v2: U256)
    ensures |AllWrites(s, [AccountUpdate(a, false, Some(info), None, [(slot1, v1), (slot2, v2)])])| == 4
  {
    AllWritesSingle(s, AccountUpdate(a, false, Some(info), None, [(slot1, v1), (slot2, v2)]));
  }
}
