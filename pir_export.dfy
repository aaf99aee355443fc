/**
 * The PIR2 state file: a 64-byte little-endian header followed by 84-byte
 * plain storage records sorted by `keccak256(address || slot)`, and the
 * header-less legacy file of 96-byte records under hashed keys.
 */
module PirExport {
  import opened Wrappers
  import opened Bytes
  import opened PirRpc

  /** `STATE_MAGIC`: the ASCII bytes `PIR2`. */
  const STATE_MAGIC: Bytes4 := [0x50, 0x49, 0x52, 0x32]
  const STATE_VERSION: u16 := 1
  const STATE_HEADER_SIZE: nat := 64
  const STATE_ENTRY_SIZE_PLAIN: u16 := 84
  const STATE_ENTRY_SIZE_HASHED: nat := 96

  /** The root of the empty Merkle-Patricia trie, `keccak256(rlp(""))`. */
  const EMPTY_TRIE_HASH: Bytes32 := [
    0x56, 0xe8, 0x1f, 0x17, 0x1b, 0xcc, 0x55, 0xa6, 0xff, 0x83, 0x45, 0xe6, 0x92, 0xc0, 0xf8, 0x6e,
    0x5b, 0x48, 0xe0, 0x1b, 0x99, 0x6c, 0xad, 0xc0, 0x01, 0x62, 0x2f, 0xb5, 0xe3, 0x63, 0xb4, 0x21]

  type Bytes84 = s: seq<u8> | |s| == 84 witness Zeros(84)

  // ---------------------------------------------------------------------
  // The writer
  // ---------------------------------------------------------------------

  /**
   * A `std::io::Write` destination. `write_all` takes all of its bytes or
   * none of them, and it fails once the bytes would pass `capacity`.
   */
  class Writer {
    var written: seq<u8>
    const capacity: nat

    /** No more bytes were taken than the destination accepts. */
    predicate Valid()
      reads this
    {
      |written| <= capacity
    }

    constructor (capacity: nat)
      ensures Valid()
      ensures written == [] && this.capacity == capacity
    {
      written := [];
      this.capacity := capacity;
    }

    method WriteAll(data: seq<u8>) returns (ok: bool)
      requires Valid()
      modifies this
      ensures Valid()
      ensures ok <==> |old(written)| + |data| <= capacity
      ensures written == if ok then old(written) + data else old(written)
    {
      ok := |written| + |data| <= capacity;
      if ok {
        written := written + data;
      }
    }
  }

  /** Why an export stops: the store failed, or the writer did. */
  datatype ExportErr = StoreError | WriteError

  // ---------------------------------------------------------------------
  // The header
  // ---------------------------------------------------------------------

  datatype StateHeader = StateHeader(
    magic: Bytes4, version: u16, entrySize: u16,
    entryCount: u64, blockNumber: u64, chainId: u64, blockHash: Bytes32)

  /** `StateHeader::new`: the magic and version are fixed, every other field is taken as given. */
  function NewHeader(entrySize: u16, entryCount: u64, blockNumber: u64, chainId: u64, blockHash: Bytes32): (h: StateHeader)
    ensures h.magic == STATE_MAGIC && h.version == STATE_VERSION
    ensures h.entrySize == entrySize && h.entryCount == entryCount
    ensures h.blockNumber == blockNumber && h.chainId == chainId && h.blockHash == blockHash
  {
    StateHeader(STATE_MAGIC, STATE_VERSION, entrySize, entryCount, blockNumber, chainId, blockHash)
  }

  /** The 64 header bytes: the magic, then each number little-endian in its width, then the block hash. */
  function HeaderBytes(h: StateHeader): (b: seq<u8>)
    ensures |b| == STATE_HEADER_SIZE
  {
    h.magic + LE(h.version, 2) + LE(h.entrySize, 2) + LE(h.entryCount, 8)
      + LE(h.blockNumber, 8) + LE(h.chainId, 8) + h.blockHash
  }

  lemma {:induction false} FromLEBound(s: seq<u8>)
    ensures FromLE(s) < Pow256(|s|)
  {
    if s != [] {
      FromLEBound(s[1..]);
    }
  }

  /** Reads a header back from its 64 bytes at the offsets `as_bytes` writes them to. */
  function DecodeHeader(b: seq<u8>): (r: Option<StateHeader>)
    ensures r.Some? <==> |b| == STATE_HEADER_SIZE
  {
    if |b| != STATE_HEADER_SIZE then None
    else
      Pow256Values();
      FromLEBound(b[4..6]);
      FromLEBound(b[6..8]);
      FromLEBound(b[8..16]);
      FromLEBound(b[16..24]);
      FromLEBound(b[24..32]);
      Some(StateHeader(b[0..4], FromLE(b[4..6]), FromLE(b[6..8]), FromLE(b[8..16]),
        FromLE(b[16..24]), FromLE(b[24..32]), b[32..64]))
  }

  /** Every header field is recovered from its bytes. */
  lemma HeaderRoundTrip(h: StateHeader)
    ensures DecodeHeader(HeaderBytes(h)) == Some(h)
  {
    var b := HeaderBytes(h);
    var front := h.magic + LE(h.version, 2) + LE(h.entrySize, 2) + LE(h.entryCount, 8)
      + LE(h.blockNumber, 8) + LE(h.chainId, 8);
    assert b == front + h.blockHash;
    assert b[32..64] == h.blockHash;
    assert b[..32] == front;
    assert b[0..4] == h.magic;
    assert b[4..6] == LE(h.version, 2);
    assert b[6..8] == LE(h.entrySize, 2);
    assert b[8..16] == LE(h.entryCount, 8);
    assert b[16..24] == LE(h.blockNumber, 8);
    assert b[24..32] == LE(h.chainId, 8);
    Pow256Values();
    LERoundTrip(h.version, 2);
    LERoundTrip(h.entrySize, 2);
    LERoundTrip(h.entryCount, 8);
    LERoundTrip(h.blockNumber, 8);
    LERoundTrip(h.chainId, 8);
  }

  /** After copying `src` at `at`, the buffer starts with what it started with up to `at`, then `src`. */
  lemma CopiedPrefix(before: seq<u8>, after: seq<u8>, at: nat, src: seq<u8>, prefix: seq<u8>)
    requires at + |src| <= |before|
    requires after == before[..at] + src + before[at + |src|..]
    requires before[..at] == prefix
    ensures |after| == |before|
    ensures after[..at + |src|] == prefix + src
  {
  }

  /** `StateHeader::as_bytes`: a zeroed 64-byte buffer filled field by field. */
  method AsBytes(h: StateHeader) returns (bytes: seq<u8>)
    ensures bytes == HeaderBytes(h)
  {
    var buf := new u8[STATE_HEADER_SIZE](_ => 0);
    ghost var b0 := buf[..];
    CopySlice(buf, 0, h.magic);
    CopiedPrefix(b0, buf[..], 0, h.magic, []);
    ghost var b1 := buf[..];
    CopySlice(buf, 4, LE(h.version, 2));
    CopiedPrefix(b1, buf[..], 4, LE(h.version, 2), h.magic);
    ghost var b2 := buf[..];
    CopySlice(buf, 6, LE(h.entrySize, 2));
    CopiedPrefix(b2, buf[..], 6, LE(h.entrySize, 2), b2[..6]);
    ghost var b3 := buf[..];
    CopySlice(buf, 8, LE(h.entryCount, 8));
    CopiedPrefix(b3, buf[..], 8, LE(h.entryCount, 8), b3[..8]);
    ghost var b4 := buf[..];
    CopySlice(buf, 16, LE(h.blockNumber, 8));
    CopiedPrefix(b4, buf[..], 16, LE(h.blockNumber, 8), b4[..16]);
    ghost var b5 := buf[..];
    CopySlice(buf, 24, LE(h.chainId, 8));
    CopiedPrefix(b5, buf[..], 24, LE(h.chainId, 8), b5[..24]);
    ghost var b6 := buf[..];
    CopySlice(buf, 32, h.blockHash);
    CopiedPrefix(b6, buf[..], 32, h.blockHash, b6[..32]);
    bytes := buf[..];
    assert bytes == bytes[..64];
  }

  // ---------------------------------------------------------------------
  // Records
  // ---------------------------------------------------------------------

  /** A plain record: address, slot, and the value as 32 big-endian bytes. */
  function PlainRecord(e: PlainEntry): (r: Bytes84)
  {
    e.address + e.slot + e.value.ToBigEndian()
  }

  /** A hashed record: hashed address, hashed slot, and the value as 32 big-endian bytes. */
  function HashedRecord(hashedAddress: Bytes32, hashedSlot: Bytes32, value: U256): (r: seq<u8>)
    ensures |r| == STATE_ENTRY_SIZE_HASHED
  {
    hashedAddress + hashedSlot + value.ToBigEndian()
  }

  /** A plain record gives back the address, the slot and the value it was made from. */
  lemma PlainRecordFields(e: PlainEntry)
    ensures PlainRecord(e)[..20] == e.address
    ensures PlainRecord(e)[20..52] == e.slot
    ensures FromBE(PlainRecord(e)[52..84]) == e.value.Value()
  {
    var r := PlainRecord(e);
    assert r[52..84] == e.value.ToBigEndian();
    BigEndianValue(e.value);
  }

  /** A hashed record gives back its hashed address, hashed slot and value. */
  lemma HashedRecordFields(hashedAddress: Bytes32, hashedSlot: Bytes32, value: U256)
    ensures HashedRecord(hashedAddress, hashedSlot, value)[..32] == hashedAddress
    ensures HashedRecord(hashedAddress, hashedSlot, value)[32..64] == hashedSlot
    ensures FromBE(HashedRecord(hashedAddress, hashedSlot, value)[64..96]) == value.Value()
  {
    var r := HashedRecord(hashedAddress, hashedSlot, value);
    assert r[64..96] == value.ToBigEndian();
    BigEndianValue(value);
  }

  /** Three copies into a buffer of their total length leave exactly their concatenation. */
  method FillRecord(buf: array<u8>, a: seq<u8>, b: seq<u8>, c: seq<u8>)
    requires buf.Length == |a| + |b| + |c|
    modifies buf
    ensures buf[..] == a + b + c
  {
    ghost var b0 := buf[..];
    CopySlice(buf, 0, a);
    CopiedPrefix(b0, buf[..], 0, a, []);
    ghost var b1 := buf[..];
    CopySlice(buf, |a|, b);
    CopiedPrefix(b1, buf[..], |a|, b, a);
    ghost var b2 := buf[..];
    CopySlice(buf, |a| + |b|, c);
    CopiedPrefix(b2, buf[..], |a| + |b|, c, a + b);
    assert buf[..] == buf[..|a| + |b| + |c|];
  }

  /** The 84-byte `data` buffer of a plain entry: address, slot, then the value big-endian. */
  method PlainRecordBytes(e: PlainEntry) returns (data: Bytes84)
    ensures data == PlainRecord(e)
  {
    var buf := new u8[84](_ => 0);
    FillRecord(buf, e.address, e.slot, e.value.ToBigEndian());
    data := buf[..];
  }

  /** The 52-byte `address || slot` buffer the sort key is hashed from. */
  method SortKeyPreimage(e: PlainEntry) returns (concat: seq<u8>)
    ensures concat == e.address + e.slot
  {
    var buf := new u8[52](_ => 0);
    FillRecord(buf, e.address, e.slot, []);
    concat := buf[..];
  }

  // ---------------------------------------------------------------------
  // Sorting by keccak key
  // ---------------------------------------------------------------------

  datatype SortableEntry = SortableEntry(sortKey: Bytes32, data: Bytes84)

  /** `a.sort_key <= b.sort_key` in the byte order of `[u8; 32]`. */
  predicate KeyLe(a: SortableEntry, b: SortableEntry)
  {
    !LexLess(b.sortKey, a.sortKey)
  }

  lemma KeyLeTransitive(a: SortableEntry, b: SortableEntry, c: SortableEntry)
    requires KeyLe(a, b) && KeyLe(b, c)
    ensures KeyLe(a, c)
  {
    LexLessTotal(a.sortKey, b.sortKey);
    LexLessTotal(b.sortKey, c.sortKey);
    if LexLess(c.sortKey, a.sortKey) {
      if a.sortKey == b.sortKey {
      } else if b.sortKey == c.sortKey {
      } else {
        LexLessTransitive(a.sortKey, b.sortKey, c.sortKey);
        LexLessAsymmetric(a.sortKey, c.sortKey);
      }
    }
  }

  /** Non-decreasing sort keys. */
  predicate SortedByKey(s: seq<SortableEntry>)
  {
    forall i, j :: 0 <= i < j < |s| ==> KeyLe(s[i], s[j])
  }

  /** Every neighbour in order. */
  predicate NeighboursSorted(s: seq<SortableEntry>)
  {
    forall i :: 0 < i < |s| ==> KeyLe(s[i - 1], s[i])
  }

  /** Neighbours in order put the whole sequence in order. */
  lemma {:induction false} NeighboursSortedIsSorted(s: seq<SortableEntry>)
    requires NeighboursSorted(s)
    ensures SortedByKey(s)
  {
    if |s| > 1 {
      var init := s[..|s| - 1];
      assert NeighboursSorted(init) by {
        forall i | 0 < i < |init|
          ensures KeyLe(init[i - 1], init[i])
        {
          assert init[i - 1] == s[i - 1] && init[i] == s[i];
        }
      }
      NeighboursSortedIsSorted(init);
      forall i, j | 0 <= i < j < |s|
        ensures KeyLe(s[i], s[j])
      {
        if j < |s| - 1 {
          assert init[i] == s[i] && init[j] == s[j];
        } else if i < j - 1 {
          assert init[i] == s[i] && init[j - 1] == s[j - 1];
          KeyLeTransitive(s[i], s[j - 1], s[j]);
        }
      }
    }
  }

  /**
   * While entry `i` moves down to position `j`: every neighbour pair up to
   * `i` is in order except the one ending at `j`, and the entries on either
   * side of `j` are in order with each other.
   */
  predicate Inserting(s: seq<SortableEntry>, i: nat, j: nat)
  {
    j <= i < |s|
    && (forall k :: 0 < k <= i && k != j ==> KeyLe(s[k - 1], s[k]))
    && (0 < j < i ==> KeyLe(s[j - 1], s[j + 1]))
  }

  /** Swapping entry `j` with a larger left neighbour moves the gap one place down. */
  lemma SwapDown(s: seq<SortableEntry>, i: nat, j: nat)
    requires Inserting(s, i, j) && 0 < j && LexLess(s[j].sortKey, s[j - 1].sortKey)
    ensures Inserting(s[j - 1 := s[j]][j := s[j - 1]], i, j - 1)
    ensures multiset(s[j - 1 := s[j]][j := s[j - 1]]) == multiset(s)
  {
    LexLessAsymmetric(s[j].sortKey, s[j - 1].sortKey);
    var t := s[j - 1 := s[j]][j := s[j - 1]];
    forall k | 0 < k <= i && k != j - 1
      ensures KeyLe(t[k - 1], t[k])
    {
      if k == j + 1 {
      } else if k == j {
      } else {
        assert t[k - 1] == s[k - 1] && t[k] == s[k];
      }
    }
  }

  /** Once entry `i` stops moving, every neighbour pair up to `i` is in order. */
  lemma Inserted(s: seq<SortableEntry>, i: nat, j: nat)
    requires Inserting(s, i, j)
    requires j == 0 || !LexLess(s[j].sortKey, s[j - 1].sortKey)
    ensures NeighboursSorted(s[..i + 1])
  {
  }

  /** Moves entry `i` down past every larger key; the entries before it are already in order. */
  method InsertEntry(a: array<SortableEntry>, i: nat)
    requires i < a.Length && NeighboursSorted(a[..i])
    modifies a
    ensures NeighboursSorted(a[..i + 1])
    ensures multiset(a[..]) == multiset(old(a[..]))
  {
    var j: nat := i;
    assert Inserting(a[..], i, j) by {
      forall k | 0 < k < i
        ensures KeyLe(a[k - 1], a[k])
      {
        assert a[..i][k - 1] == a[k - 1] && a[..i][k] == a[k];
      }
    }
    while j > 0 && LexLess(a[j].sortKey, a[j - 1].sortKey)
      invariant Inserting(a[..], i, j)
      invariant multiset(a[..]) == multiset(old(a[..]))
    {
      SwapDown(a[..], i, j);
      ghost var swapped := a[..][j - 1 := a[j]][j := a[j - 1]];
      a[j - 1], a[j] := a[j], a[j - 1];
      assert a[..] == swapped;
      j := j - 1;
    }
    Inserted(a[..], i, j);
  }

  /**
   * `entries.sort_unstable_by(|a, b| a.sort_key.cmp(&b.sort_key))`, as an
   * insertion sort.
   */
  method SortByKey(a: array<SortableEntry>)
    modifies a
    ensures SortedByKey(a[..])
    ensures multiset(a[..]) == multiset(old(a[..]))
  {
    for i := 0 to a.Length
      invariant NeighboursSorted(a[..i])
      invariant multiset(a[..]) == multiset(old(a[..]))
    {
      InsertEntry(a, i);
    }
    assert a[..] == a[..a.Length];
    NeighboursSortedIsSorted(a[..]);
  }

  // ---------------------------------------------------------------------
  // export_plain
  // ---------------------------------------------------------------------

  /** The entries `export_plain` collects: one per non-zero slot, in iteration order. */
  function Collected(items: seq<PlainEntry>, keccak: seq<u8> -> Bytes32): (r: seq<SortableEntry>)
    ensures |r| <= |items|
  {
    if items == [] then []
    else
      var e := items[|items| - 1];
      Collected(items[..|items| - 1], keccak)
        + (if e.value.IsZero() then [] else [SortableEntry(keccak(e.address + e.slot), PlainRecord(e))])
  }

  /** A collected entry is the record of a non-zero slot, keyed by the hash of its address and slot. */
  lemma {:induction false} CollectedMembers(items: seq<PlainEntry>, keccak: seq<u8> -> Bytes32)
    ensures forall c :: c in Collected(items, keccak) ==>
      exists e :: e in items && !e.value.IsZero() && c == SortableEntry(keccak(e.address + e.slot), PlainRecord(e))
  {
    if items != [] {
      var init := items[..|items| - 1];
      CollectedMembers(init, keccak);
      forall c | c in Collected(items, keccak)
        ensures exists e :: e in items && !e.value.IsZero() && c == SortableEntry(keccak(e.address + e.slot), PlainRecord(e))
      {
        if c in Collected(init, keccak) {
          var e :| e in init && !e.value.IsZero() && c == SortableEntry(keccak(e.address + e.slot), PlainRecord(e));
          assert e in items;
        } else {
          assert items[|items| - 1] in items;
        }
      }
    }
  }

  /**
   * Every non-zero slot is collected, and there are exactly as many
   * collected entries as non-zero slots.
   */
  lemma {:induction false} CollectedComplete(items: seq<PlainEntry>, keccak: seq<u8> -> Bytes32)
    ensures forall e :: e in items && !e.value.IsZero() ==>
      SortableEntry(keccak(e.address + e.slot), PlainRecord(e)) in Collected(items, keccak)
    ensures |Collected(items, keccak)| == |Qualifying(items, None)|
  {
    if items != [] {
      var init := items[..|items| - 1];
      CollectedComplete(init, keccak);
      assert items == init + [items[|items| - 1]];
    }
  }

  lemma CollectedStep(items: seq<PlainEntry>, i: nat, keccak: seq<u8> -> Bytes32)
    requires i < |items|
    ensures Collected(items[..i + 1], keccak) == Collected(items[..i], keccak)
      + (if items[i].value.IsZero() then [] else [SortableEntry(keccak(items[i].address + items[i].slot), PlainRecord(items[i]))])
  {
    assert items[..i + 1][..i] == items[..i];
  }

  /** The record bytes of entries, in order. */
  function Records(entries: seq<SortableEntry>): seq<u8>
  {
    FlatMap((e: SortableEntry) => e.data, entries)
  }

  lemma {:induction false} RecordsLength(entries: seq<SortableEntry>)
    ensures |Records(entries)| == 84 * |entries|
  {
    if entries != [] {
      RecordsLength(entries[..|entries| - 1]);
    }
  }

  /** The PIR2 file for entries in the order they are written. */
  function PlainFile(entries: seq<SortableEntry>, blockNumber: u64, chainId: u64, blockHash: Bytes32): seq<u8>
    requires |entries| < U64_LIMIT
  {
    HeaderBytes(NewHeader(STATE_ENTRY_SIZE_PLAIN, |entries|, blockNumber, chainId, blockHash)) + Records(entries)
  }

  /** A PIR2 file is 64 + 84 n bytes long, and its header announces 84-byte entries and n of them. */
  lemma PlainFileLayout(entries: seq<SortableEntry>, blockNumber: u64, chainId: u64, blockHash: Bytes32)
    requires |entries| < U64_LIMIT
    ensures |PlainFile(entries, blockNumber, chainId, blockHash)| == STATE_HEADER_SIZE + 84 * |entries|
    ensures DecodeHeader(PlainFile(entries, blockNumber, chainId, blockHash)[..STATE_HEADER_SIZE])
      == Some(NewHeader(STATE_ENTRY_SIZE_PLAIN, |entries|, blockNumber, chainId, blockHash))
    ensures PlainFile(entries, blockNumber, chainId, blockHash)[STATE_HEADER_SIZE..] == Records(entries)
  {
    var h := NewHeader(STATE_ENTRY_SIZE_PLAIN, |entries|, blockNumber, chainId, blockHash);
    RecordsLength(entries);
    HeaderRoundTrip(h);
    var f := PlainFile(entries, blockNumber, chainId, blockHash);
    assert f[..STATE_HEADER_SIZE] == HeaderBytes(h);
  }

  /** Record `i` of the records lies at bytes `84 i .. 84 (i + 1)`. */
  lemma {:induction false} RecordAt(entries: seq<SortableEntry>, i: nat)
    requires i < |entries|
    ensures |Records(entries)| == 84 * |entries|
    ensures Records(entries)[84 * i..84 * (i + 1)] == entries[i].data
  {
    RecordsLength(entries);
    var init := entries[..|entries| - 1];
    RecordsLength(init);
    if i < |init| {
      RecordAt(init, i);
      assert Records(entries)[84 * i..84 * (i + 1)] == Records(init)[84 * i..84 * (i + 1)];
    }
  }

  lemma RecordsStep(entries: seq<SortableEntry>, i: nat)
    requires i < |entries|
    ensures Records(entries[..i + 1]) == Records(entries[..i]) + entries[i].data
  {
    assert entries[..i + 1][..i] == entries[..i];
  }

  /** A write that fails after `done` leaves the destination on a prefix of the full output that is longer than the capacity. */
  lemma FailedWritePrefix(done: seq<u8>, next: seq<u8>, rest: seq<u8>, capacity: nat)
    requires |done| + |next| > capacity
    ensures done <= done + next + rest
    ensures |done + next + rest| > capacity
  {
  }

  /** The collecting callback of `export_plain`, run on every slot the store yields. */
  method CollectPlain(items: seq<PlainEntry>, keccak: seq<u8> -> Bytes32) returns (entries: seq<SortableEntry>)
    ensures entries == Collected(items, keccak)
  {
    entries := [];
    for i := 0 to |items|
      invariant entries == Collected(items[..i], keccak)
    {
      var e := items[i];
      CollectedStep(items, i, keccak);
      if !e.value.IsZero() {
        var concat := SortKeyPreimage(e);
        var sortKey := keccak(concat);
        var data := PlainRecordBytes(e);
        entries := entries + [SortableEntry(sortKey, data)];
      }
    }
    assert items[..|items|] == items;
  }

  /**
   * The length of `from` bytes followed by as many whole `unit`-byte
   * records as fit in `capacity`.
   */
  function FitLength(from: nat, unit: nat, capacity: nat): (r: nat)
    requires 0 < unit && from <= capacity
    ensures from <= r <= capacity < r + unit
  {
    from + unit * ((capacity - from) / unit)
  }

  /**
   * A writer that took `start`, then whole `unit`-byte records of `full`,
   * and stopped when the next record no longer fit, holds exactly the
   * longest such prefix of `full` that fits in `capacity`.
   */
  lemma FittingPrefix(start: seq<u8>, written: seq<u8>, full: seq<u8>, unit: nat, capacity: nat)
    requires unit == STATE_ENTRY_SIZE_PLAIN || unit == STATE_ENTRY_SIZE_HASHED
    requires start <= written <= full
    requires |written| <= capacity < |written| + unit
    requires (|written| - |start|) % unit == 0
    ensures FitLength(|start|, unit, capacity) == |written|
    ensures written == full[..FitLength(|start|, unit, capacity)]
  {
    FitLengthOfAligned(|start|, |written|, unit, capacity);
  }

  /** Only the length that ends a whole record and leaves less than a record free is the fitting one. */
  lemma FitLengthOfAligned(from: nat, len: nat, unit: nat, capacity: nat)
    requires unit == STATE_ENTRY_SIZE_PLAIN || unit == STATE_ENTRY_SIZE_HASHED
    requires from <= len <= capacity < len + unit
    requires (len - from) % unit == 0
    ensures FitLength(from, unit, capacity) == len
  {
    var m := (len - from) / unit;
    var rest := capacity - len;
    if unit == STATE_ENTRY_SIZE_PLAIN {
      assert capacity - from == 84 * m + rest;
      assert (capacity - from) / 84 == m;
    } else {
      assert capacity - from == 96 * m + rest;
      assert (capacity - from) / 96 == m;
    }
  }

  /** The records written before entry `i` and that entry's own record form a prefix of all the records. */
  lemma RecordsPrefix(start: seq<u8>, entries: seq<SortableEntry>, i: nat)
    requires i < |entries|
    ensures start + Records(entries) == (start + Records(entries[..i]) + entries[i].data) + Records(entries[i + 1..])
  {
    RecordsStep(entries, i);
    assert entries == entries[..i + 1] + entries[i + 1..];
    FlatMapAppend((e: SortableEntry) => e.data, entries[..i + 1], entries[i + 1..]);
    var front, own, rest := Records(entries[..i]), entries[i].data, Records(entries[i + 1..]);
    assert Records(entries) == (front + own) + rest;
    AppendAssoc(start, front + own, rest);
    AppendAssoc(start, front, own);
  }

  /** The record loop of `export_plain`: stops at the first failed write. */
  method WriteRecords(entries: array<SortableEntry>, w: Writer) returns (ok: bool)
    requires w.Valid()
    modifies w
    ensures w.Valid()
    ensures ok <==> |old(w.written) + Records(entries[..])| <= w.capacity
    ensures ok ==> w.written == old(w.written) + Records(entries[..])
    ensures !ok ==> w.written <= old(w.written) + Records(entries[..])
    ensures !ok ==> w.written == (old(w.written) + Records(entries[..]))[..FitLength(|old(w.written)|, 84, w.capacity)]
  {
    ghost var start := w.written;
    ghost var all := entries[..];
    ok := true;
    for i := 0 to entries.Length
      invariant w.written == start + Records(all[..i])
      invariant w.Valid()
    {
      RecordsStep(all, i);
      ok := w.WriteAll(entries[i].data);
      if !ok {
        RecordsPrefix(start, all, i);
        FailedWritePrefix(w.written, all[i].data, Records(all[i + 1..]), w.capacity);
        RecordsLength(all[..i]);
        FittingPrefix(start, w.written, start + Records(all), 84, w.capacity);
        return;
      }
    }
    assert all[..entries.Length] == all;
  }

  /**
   * `export_plain`: collects the non-zero slots with their keccak sort key
   * and record, sorts them by that key, then writes the header and the
   * records. `order` is the order the sort chose; equal keys may come in any
   * order.
   */
  method ExportPlain(scan: StorageScan, blockNumber: u64, chainId: u64, blockHash: Bytes32,
                     keccak: seq<u8> -> Bytes32, w: Writer)
    returns (r: Result<u64, ExportErr>, ghost order: seq<SortableEntry>)
    requires |scan.items| < U64_LIMIT
    requires w.Valid()
    modifies w
    ensures w.Valid()
    ensures scan.failed ==> r == Err(StoreError) && w.written == old(w.written)
    ensures !scan.failed ==> SortedByKey(order) && multiset(order) == multiset(Collected(scan.items, keccak))
    ensures |order| <= |scan.items|
    ensures !scan.failed ==>
      var full := old(w.written) + PlainFile(order, blockNumber, chainId, blockHash);
      (r.Ok? <==> |full| <= w.capacity)
      && (r.Ok? ==> w.written == full && r.value == |order|)
      && (r.Err? ==> r.error == WriteError && w.written <= full)
      && (r.Err? ==>
            w.written == (if |old(w.written)| + STATE_HEADER_SIZE > w.capacity then old(w.written)
            else full[..FitLength(|old(w.written)| + STATE_HEADER_SIZE, 84, w.capacity)]))
  {
    order := [];
    var entries := CollectPlain(scan.items, keccak);
    if scan.failed {
      return Err(StoreError), order;
    }
    var count: u64 := |entries|;
    var sorted := new SortableEntry[|entries|](k requires 0 <= k < |entries| => entries[k]);
    assert sorted[..] == entries;
    SortByKey(sorted);
    order := sorted[..];
    assert |order| == |multiset(order)| == |entries|;
    var header := AsBytes(NewHeader(STATE_ENTRY_SIZE_PLAIN, count, blockNumber, chainId, blockHash));
    AppendAssoc(old(w.written), header, Records(order));
    var ok := w.WriteAll(header);
    if !ok {
      FailedWritePrefix(old(w.written), header, Records(order), w.capacity);
      return Err(WriteError), order;
    }
    ok := WriteRecords(sorted, w);
    if !ok {
      return Err(WriteError), order;
    }
    r := Ok(count);
  }

  /** The records of an export, in order, are those of the non-zero slots, each once. */
  lemma ExportPlainContents(scan: StorageScan, keccak: seq<u8> -> Bytes32, order: seq<SortableEntry>, i: nat)
    requires multiset(order) == multiset(Collected(scan.items, keccak))
    requires i < |order|
    ensures exists e :: (e in scan.items && !e.value.IsZero()
      && order[i] == SortableEntry(keccak(e.address + e.slot), PlainRecord(e)))
  {
    assert order[i] in multiset(order);
    assert order[i] in Collected(scan.items, keccak);
    CollectedMembers(scan.items, keccak);
  }

  /**
   * Conversely, every non-zero slot has its record among the exported ones,
   * and the count `export_plain` returns is the number of non-zero slots.
   */
  lemma ExportPlainComplete(scan: StorageScan, keccak: seq<u8> -> Bytes32, order: seq<SortableEntry>, e: PlainEntry)
    requires multiset(order) == multiset(Collected(scan.items, keccak))
    requires e in scan.items && !e.value.IsZero()
    ensures SortableEntry(keccak(e.address + e.slot), PlainRecord(e)) in order
    ensures |order| == |Qualifying(scan.items, None)|
  {
    CollectedComplete(scan.items, keccak);
    var c := SortableEntry(keccak(e.address + e.slot), PlainRecord(e));
    assert c in multiset(Collected(scan.items, keccak));
    assert c in multiset(order);
    assert |order| == |multiset(order)| == |multiset(Collected(scan.items, keccak))|;
  }

  // ---------------------------------------------------------------------
  // export_hashed
  // ---------------------------------------------------------------------

  /** What `iter_storage` gives for an account: an error, no storage, or its slots in order. */
  datatype SlotStorage = StorageFailed | NoStorage | Slots(slots: seq<(Bytes32, U256)>)

  /** An account as `iter_accounts` yields it, with the storage `iter_storage` would give for it. */
  datatype HashedAccount = HashedAccount(hashedAddress: Bytes32, storageRoot: Bytes32, storage: SlotStorage)

  /** The record of one slot; a zero value writes nothing. */
  function SlotBytes(hashedAddress: Bytes32, slot: (Bytes32, U256)): seq<u8>
  {
    if slot.1.IsZero() then [] else HashedRecord(hashedAddress, slot.0, slot.1)
  }

  function SlotsBytes(hashedAddress: Bytes32, slots: seq<(Bytes32, U256)>): seq<u8>
  {
    FlatMap((s: (Bytes32, U256)) => SlotBytes(hashedAddress, s), slots)
  }

  /** An account whose storage root is the empty-trie hash is skipped before its storage is read. */
  function AccountBytes(a: HashedAccount): seq<u8>
  {
    if a.storageRoot == EMPTY_TRIE_HASH then []
    else if a.storage.Slots? then SlotsBytes(a.hashedAddress, a.storage.slots)
    else []
  }

  function HashedBytes(accounts: seq<HashedAccount>): seq<u8>
  {
    FlatMap(AccountBytes, accounts)
  }

  /** Reading this account's storage fails. */
  predicate StorageFails(a: HashedAccount)
  {
    a.storageRoot != EMPTY_TRIE_HASH && a.storage.StorageFailed?
  }

  /** The position of the first account whose storage cannot be read, or the number of accounts. */
  function FirstFailure(accounts: seq<HashedAccount>): (k: nat)
    ensures k <= |accounts|
    ensures k < |accounts| ==> StorageFails(accounts[k])
    ensures forall j :: 0 <= j < k ==> !StorageFails(accounts[j])
  {
    if accounts == [] then 0
    else if StorageFails(accounts[0]) then 0
    else 1 + FirstFailure(accounts[1..])
  }

  /** The bytes of zero-valued slots are empty and every other slot writes 96; so the output is a whole number of records. */
  lemma {:induction false} SlotsBytesRecords(hashedAddress: Bytes32, slots: seq<(Bytes32, U256)>)
    ensures |SlotsBytes(hashedAddress, slots)| % STATE_ENTRY_SIZE_HASHED == 0
  {
    if slots != [] {
      SlotsBytesRecords(hashedAddress, slots[..|slots| - 1]);
    }
  }

  lemma {:induction false} HashedBytesRecords(accounts: seq<HashedAccount>)
    ensures |HashedBytes(accounts)| % STATE_ENTRY_SIZE_HASHED == 0
  {
    if accounts != [] {
      var a := accounts[|accounts| - 1];
      HashedBytesRecords(accounts[..|accounts| - 1]);
      if a.storageRoot != EMPTY_TRIE_HASH && a.storage.Slots? {
        SlotsBytesRecords(a.hashedAddress, a.storage.slots);
      }
    }
  }

  /** The `record` buffer, reused for every slot and overwritten whole each time. */
  method FillHashedRecord(record: array<u8>, hashedAddress: Bytes32, hashedSlot: Bytes32, value: U256)
    requires record.Length == STATE_ENTRY_SIZE_HASHED
    modifies record
    ensures record[..] == HashedRecord(hashedAddress, hashedSlot, value)
  {
    FillRecord(record, hashedAddress, hashedSlot, value.ToBigEndian());
  }

  /** A wrapping 64-bit counter that tracks `n` still tracks `n + 1` after an increment. */
  lemma WrappingIncrement(c: u64, n: nat)
    requires c == n % U64_LIMIT
    ensures (c + 1) % U64_LIMIT == (n + 1) % U64_LIMIT
  {
  }

  /**
   * One step of the inner loop: a zero value is skipped; otherwise the reused
   * record buffer is filled and written, and the counter goes up.
   */
  method ExportSlot(hashedAddress: Bytes32, slot: (Bytes32, U256), record: array<u8>, w: Writer,
                    count: u64, ghost n: nat)
    returns (ok: bool, count': u64, ghost n': nat)
    requires record.Length == STATE_ENTRY_SIZE_HASHED
    requires count == n % U64_LIMIT
    requires w.Valid()
    modifies record, w
    ensures w.Valid()
    ensures count' == n' % U64_LIMIT
    ensures ok <==> |old(w.written)| + |SlotBytes(hashedAddress, slot)| <= w.capacity
    ensures w.written == if ok then old(w.written) + SlotBytes(hashedAddress, slot) else old(w.written)
    ensures ok ==> 96 * n' == 96 * n + |SlotBytes(hashedAddress, slot)|
    ensures !ok ==> |w.written| + 96 > w.capacity
  {
    count', n' := count, n;
    var (hashedSlot, value) := slot;
    if value.IsZero() {
      return true, count', n';
    }
    FillHashedRecord(record, hashedAddress, hashedSlot, value);
    ok := w.WriteAll(record[..]);
    if ok {
      WrappingIncrement(count', n');
      count' := (count' + 1) % U64_LIMIT;
      n' := n' + 1;
    }
  }

  lemma SlotsBytesStep(hashedAddress: Bytes32, slots: seq<(Bytes32, U256)>, j: nat)
    requires j < |slots|
    ensures SlotsBytes(hashedAddress, slots[..j + 1]) == SlotsBytes(hashedAddress, slots[..j]) + SlotBytes(hashedAddress, slots[j])
  {
    assert slots[..j + 1] == slots[..j] + [slots[j]];
    FlatMapSnoc((s: (Bytes32, U256)) => SlotBytes(hashedAddress, s), slots[..j], slots[j]);
  }

  /** The bytes written before slot `j` and that slot's own bytes form a prefix of those of all the slots. */
  lemma SlotsPrefix(start: seq<u8>, hashedAddress: Bytes32, slots: seq<(Bytes32, U256)>, j: nat)
    requires j < |slots|
    ensures start + SlotsBytes(hashedAddress, slots)
      == (start + SlotsBytes(hashedAddress, slots[..j]) + SlotBytes(hashedAddress, slots[j])) + SlotsBytes(hashedAddress, slots[j + 1..])
  {
    var f := (s: (Bytes32, U256)) => SlotBytes(hashedAddress, s);
    assert slots[..j + 1] == slots[..j] + [slots[j]];
    FlatMapSnoc(f, slots[..j], slots[j]);
    assert slots == slots[..j + 1] + slots[j + 1..];
    FlatMapAppend(f, slots[..j + 1], slots[j + 1..]);
  }

  /** A write that fails at slot `j` leaves a whole-record prefix of the account's output. */
  lemma SlotsWriteStop(start: seq<u8>, hashedAddress: Bytes32, slots: seq<(Bytes32, U256)>, j: nat, capacity: nat)
    requires j < |slots|
    requires |start + SlotsBytes(hashedAddress, slots[..j])| + |SlotBytes(hashedAddress, slots[j])| > capacity
    ensures start + SlotsBytes(hashedAddress, slots[..j]) <= start + SlotsBytes(hashedAddress, slots)
    ensures |start + SlotsBytes(hashedAddress, slots)| > capacity
    ensures |SlotsBytes(hashedAddress, slots[..j])| % 96 == 0
  {
    var done := start + SlotsBytes(hashedAddress, slots[..j]);
    SlotsPrefix(start, hashedAddress, slots, j);
    FailedWritePrefix(done, SlotBytes(hashedAddress, slots[j]), SlotsBytes(hashedAddress, slots[j + 1..]), capacity);
    SlotsBytesRecords(hashedAddress, slots[..j]);
  }

  /**
   * The inner loop of `export_hashed` for one account: a record per non-zero
   * slot, counting each with a 64-bit counter that wraps (a release build).
   */
  method ExportSlots(hashedAddress: Bytes32, slots: seq<(Bytes32, U256)>, record: array<u8>, w: Writer,
                     count: u64, ghost n: nat)
    returns (ok: bool, count': u64, ghost n': nat)
    requires record.Length == STATE_ENTRY_SIZE_HASHED
    requires count == n % U64_LIMIT
    requires w.Valid()
    modifies record, w
    ensures w.Valid()
    ensures count' == n' % U64_LIMIT
    ensures ok ==> w.written == old(w.written) + SlotsBytes(hashedAddress, slots)
    ensures ok ==> 96 * n' == 96 * n + |SlotsBytes(hashedAddress, slots)|
    ensures !ok ==> |old(w.written) + SlotsBytes(hashedAddress, slots)| > w.capacity
    ensures !ok ==> w.written <= old(w.written) + SlotsBytes(hashedAddress, slots)
    ensures !ok ==> old(w.written) <= w.written && (|w.written| - |old(w.written)|) % 96 == 0
    ensures !ok ==> |w.written| + 96 > w.capacity
  {
    ghost var start := w.written;
    count', n' := count, n;
    for j := 0 to |slots|
      invariant count' == n' % U64_LIMIT
      invariant w.written == start + SlotsBytes(hashedAddress, slots[..j])
      invariant w.Valid()
      invariant 96 * n' == 96 * n + |SlotsBytes(hashedAddress, slots[..j])|
    {
      SlotsBytesStep(hashedAddress, slots, j);
      ok, count', n' := ExportSlot(hashedAddress, slots[j], record, w, count', n');
      if !ok {
        SlotsWriteStop(start, hashedAddress, slots, j, w.capacity);
        return;
      }
    }
    assert slots[..|slots|] == slots;
    ok := true;
  }

  lemma HashedBytesStep(accounts: seq<HashedAccount>, i: nat)
    requires i < |accounts|
    ensures HashedBytes(accounts[..i + 1]) == HashedBytes(accounts[..i]) + AccountBytes(accounts[i])
  {
    assert accounts[..i + 1] == accounts[..i] + [accounts[i]];
    FlatMapSnoc(AccountBytes, accounts[..i], accounts[i]);
  }

  /** Up to the first failing account, an account fails exactly when it is that one. */
  lemma FirstFailureAt(accounts: seq<HashedAccount>, i: nat)
    requires i <= FirstFailure(accounts) && i < |accounts|
    ensures StorageFails(accounts[i]) <==> i == FirstFailure(accounts)
  {
  }

  lemma PrefixExtend(a: seq<u8>, b: seq<u8>, c: seq<u8>)
    requires a <= b
    ensures a <= b + c && |b + c| >= |b|
  {
  }

  /**
   * The outer loop body of `export_hashed` for one account: skipped when its
   * storage root is the empty-trie hash or it has no storage; otherwise its
   * slots are exported. The result says whether, and why, the export stops.
   */
  method ExportAccount(a: HashedAccount, record: array<u8>, w: Writer, count: u64, ghost n: nat)
    returns (failed: Option<ExportErr>, count': u64, ghost n': nat)
    requires record.Length == STATE_ENTRY_SIZE_HASHED
    requires count == n % U64_LIMIT
    requires w.Valid()
    modifies record, w
    ensures w.Valid()
    ensures count' == n' % U64_LIMIT
    ensures failed == Some(StoreError) <==> StorageFails(a)
    ensures failed == Some(StoreError) ==> w.written == old(w.written)
    ensures failed.None? ==> w.written == old(w.written) + AccountBytes(a)
    ensures failed.None? ==> 96 * n' == 96 * n + |AccountBytes(a)|
    ensures failed == Some(WriteError) ==> |old(w.written) + AccountBytes(a)| > w.capacity
    ensures failed == Some(WriteError) ==> w.written <= old(w.written) + AccountBytes(a)
    ensures failed == Some(WriteError) ==>
      old(w.written) <= w.written && (|w.written| - |old(w.written)|) % 96 == 0 && |w.written| + 96 > w.capacity
  {
    failed, count', n' := None, count, n;
    if a.storageRoot != EMPTY_TRIE_HASH {
      match a.storage
      case StorageFailed =>
        failed := Some(StoreError);
      case NoStorage =>
      case Slots(slots) =>
        var ok;
        ok, count', n' := ExportSlots(a.hashedAddress, slots, record, w, count, n);
        if !ok {
          failed := Some(WriteError);
        }
    }
  }

  /**
   * The outer loop body of `export_hashed` at account `i`, stated against
   * the output up to the first failing account `k`.
   */
  method ExportNextAccount(accounts: seq<HashedAccount>, i: nat, record: array<u8>, w: Writer,
                           count: u64, ghost n: nat, ghost start: seq<u8>)
    returns (failed: Option<ExportErr>, count': u64, ghost n': nat)
    requires i < |accounts| && i <= FirstFailure(accounts)
    requires record.Length == STATE_ENTRY_SIZE_HASHED
    requires count == n % U64_LIMIT
    requires w.Valid()
    requires w.written == start + HashedBytes(accounts[..i])
    requires 96 * n == |HashedBytes(accounts[..i])|
    modifies record, w
    ensures w.Valid()
    ensures count' == n' % U64_LIMIT
    ensures failed.None? ==>
      i < FirstFailure(accounts) && w.written == start + HashedBytes(accounts[..i + 1])
      && 96 * n' == |HashedBytes(accounts[..i + 1])|
    ensures failed == Some(StoreError) ==>
      i == FirstFailure(accounts) && w.written == start + HashedBytes(accounts[..i])
    ensures failed == Some(WriteError) ==>
      var full := start + HashedBytes(accounts[..FirstFailure(accounts)]);
      |full| > w.capacity && w.written <= full
      && w.written == full[..FitLength(|start|, 96, w.capacity)]
  {
    ghost var done := w.written;
    FirstFailureAt(accounts, i);
    failed, count', n' := ExportAccount(accounts[i], record, w, count, n);
    match failed
    case None =>
      HashedBytesStep(accounts, i);
      AppendAssoc(start, HashedBytes(accounts[..i]), AccountBytes(accounts[i]));
    case Some(StoreError) =>
    case Some(WriteError) =>
      HashedWriteStop(start, done, accounts, i, FirstFailure(accounts), w.written, w.capacity);
  }

  /**
   * `export_hashed`: no header; for each account whose storage root is not
   * the empty-trie hash and whose storage can be read, a record per
   * non-zero slot. Returns the number of records, counted in a wrapping
   * 64-bit counter.
   */
  method ExportHashed(state: Option<seq<HashedAccount>>, w: Writer) returns (r: Result<u64, ExportErr>)
    requires w.Valid()
    modifies w
    ensures w.Valid()
    ensures state.None? ==> r == Err(StoreError) && w.written == old(w.written)
    ensures state.Some? ==>
      var k := FirstFailure(state.value);
      var full := old(w.written) + HashedBytes(state.value[..k]);
      (r.Ok? <==> k == |state.value| && |full| <= w.capacity)
      && (r.Ok? ==> w.written == full && r.value == (|HashedBytes(state.value)| / 96) % U64_LIMIT)
      && (r == Err(StoreError) ==> k < |state.value| && w.written == full)
      && (r == Err(WriteError) ==> |full| > w.capacity && w.written <= full)
      && (r == Err(WriteError) ==> w.written == full[..FitLength(|old(w.written)|, 96, w.capacity)])
  {
    if state.None? {
      return Err(StoreError);
    }
    var accounts := state.value;
    ghost var k := FirstFailure(accounts);
    var count: u64 := 0;
    ghost var n: nat := 0;
    var record := new u8[STATE_ENTRY_SIZE_HASHED](_ => 0);
    for i := 0 to |accounts|
      invariant i <= k
      invariant count == n % U64_LIMIT
      invariant w.written == old(w.written) + HashedBytes(accounts[..i])
      invariant w.Valid()
      invariant 96 * n == |HashedBytes(accounts[..i])|
    {
      var failed;
      failed, count, n := ExportNextAccount(accounts, i, record, w, count, n, old(w.written));
      match failed
      case None =>
      case Some(StoreError) =>
        assert i == k < |accounts|;
        return Err(StoreError);
      case Some(WriteError) =>
        return Err(WriteError);
    }
    assert accounts[..|accounts|] == accounts;
    assert |HashedBytes(accounts)| / 96 == n;
    r := Ok(count);
  }

  /**
   * A write that fails inside account `i` leaves the longest whole-record
   * prefix of the output up to the first failing account `k` that fits.
   */
  lemma HashedWriteStop(start: seq<u8>, done: seq<u8>, accounts: seq<HashedAccount>, i: nat, k: nat, written: seq<u8>, capacity: nat)
    requires i < k <= |accounts|
    requires done == start + HashedBytes(accounts[..i])
    requires done <= written <= done + AccountBytes(accounts[i])
    requires (|written| - |done|) % 96 == 0
    requires |written| <= capacity < |written| + 96
    ensures |start + HashedBytes(accounts[..k])| >= |done + AccountBytes(accounts[i])|
    ensures written <= start + HashedBytes(accounts[..k])
    ensures FitLength(|start|, 96, capacity) == |written|
    ensures written == (start + HashedBytes(accounts[..k]))[..FitLength(|start|, 96, capacity)]
  {
    ExportFailurePrefix(accounts, i, k, start);
    PrefixExtend(written, done + AccountBytes(accounts[i]), HashedBytes(accounts[i + 1..k]));
    HashedBytesRecords(accounts[..i]);
    assert start <= written by { assert start <= done; }
    FittingPrefix(start, written, start + HashedBytes(accounts[..k]), 96, capacity);
  }

  /**
   * The output up to account `i` and that account's own bytes form a prefix
   * of the output up to the first failing account `k`.
   */
  lemma ExportFailurePrefix(accounts: seq<HashedAccount>, i: nat, k: nat, start: seq<u8>)
    requires i < k <= |accounts|
    ensures start + HashedBytes(accounts[..k])
      == (start + HashedBytes(accounts[..i]) + AccountBytes(accounts[i])) + HashedBytes(accounts[i + 1..k])
  {
    HashedBytesStep(accounts, i);
    assert accounts[..k] == accounts[..i + 1] + accounts[i + 1..k];
    FlatMapAppend(AccountBytes, accounts[..i + 1], accounts[i + 1..k]);
    var front, own, rest := HashedBytes(accounts[..i]), AccountBytes(accounts[i]), HashedBytes(accounts[i + 1..k]);
    assert HashedBytes(accounts[..k]) == (front + own) + rest;
    AppendAssoc(start, front + own, rest);
    AppendAssoc(start, front, own);
  }
}
