/**
 * The in-memory Unified Binary Tree (EIP-7864) that is kept beside the
 * Merkle-Patricia state: its key/value contents, the block it is synced to,
 * and whether it is being rebuilt after a reorg.
 */
module UbtStore {
  import opened Wrappers
  import opened Bytes

  /** A tree key: a 31-byte stem and a one-byte sub-index. */
  type TreeKey = Bytes32
  type B256 = Bytes32

  /** `B256::ZERO` and `H256::zero()`. */
  const ZERO_HASH: B256 := Zeros(32)

  /** The number of bytes of a key that form its stem. */
  const STEM_LEN: nat := 31

  /** One key/value write of a block; `None` carries no value. */
  datatype UbtUpdate = UbtUpdate(key: TreeKey, value: Option<B256>)

  /** What the tree stores: a value per key. */
  type Tree = map<TreeKey, B256>

  /**
   * The tree's root hash as a function of its contents. The hashing itself
   * belongs to the `ubt` crate; the one fact relied on is that the empty
   * tree has the all-zero root.
   */
  type RootHasher = f: Tree -> B256 | f(map[]) == ZERO_HASH witness EmptyRoot

  function EmptyRoot(t: Tree): B256
  {
    ZERO_HASH
  }

  // ---------------------------------------------------------------------
  // What a block does to the tree
  // ---------------------------------------------------------------------

  /** The key/value pairs of the updates that carry a value, in order (the `filter_map`). */
  function Entries(updates: seq<UbtUpdate>): (r: seq<(TreeKey, B256)>)
    ensures |r| <= |updates|
  {
    if updates == [] then []
    else
      var u := updates[|updates| - 1];
      Entries(updates[..|updates| - 1]) + (if u.value.Some? then [(u.key, u.value.value)] else [])
  }

  /** `insert_batch`: the pairs are written one after the other, so a later write to a key wins. */
  function InsertBatch(t: Tree, entries: seq<(TreeKey, B256)>): Tree
  {
    if entries == [] then t
    else
      var e := entries[|entries| - 1];
      InsertBatch(t, entries[..|entries| - 1])[e.0 := e.1]
  }

  /** The keys some update writes a value to. */
  function WrittenKeys(updates: seq<UbtUpdate>): set<TreeKey>
  {
    if updates == [] then {}
    else
      var u := updates[|updates| - 1];
      WrittenKeys(updates[..|updates| - 1]) + (if u.value.Some? then {u.key} else {})
  }

  /** The value the last update to `k` that carries one writes, if any update does. */
  function LastWrite(updates: seq<UbtUpdate>, k: TreeKey): (r: Option<B256>)
    ensures r.Some? <==> k in WrittenKeys(updates)
  {
    if updates == [] then None
    else
      var u := updates[|updates| - 1];
      if u.key == k && u.value.Some? then u.value else LastWrite(updates[..|updates| - 1], k)
  }

  /**
   * The tree after a block, stated without any order of insertion: every
   * written key holds the value of its last write, every other key keeps
   * its value, and no key disappears.
   */
  function Overwritten(t: Tree, updates: seq<UbtUpdate>): (r: Tree)
    ensures r.Keys == t.Keys + WrittenKeys(updates)
    ensures forall k :: k in r && k !in WrittenKeys(updates) ==> r[k] == t[k]
  {
    map k | k in t.Keys + WrittenKeys(updates) ::
      if LastWrite(updates, k).Some? then LastWrite(updates, k).value else t[k]
  }

  /** A key is written by a concatenation when the front or the back writes it. */
  lemma {:induction false} WrittenKeysAppend(a: seq<UbtUpdate>, b: seq<UbtUpdate>)
    ensures WrittenKeys(a + b) == WrittenKeys(a) + WrittenKeys(b)
  {
    if b == [] {
      assert a + b == a;
    } else {
      var ab := a + b;
      assert ab[..|ab| - 1] == a + b[..|b| - 1];
      assert ab[|ab| - 1] == b[|b| - 1];
      WrittenKeysAppend(a, b[..|b| - 1]);
    }
  }

  /** The last write among a concatenation is the last write of the back, or else of the front. */
  lemma {:induction false} LastWriteAppend(a: seq<UbtUpdate>, b: seq<UbtUpdate>, k: TreeKey)
    ensures LastWrite(a + b, k) == if LastWrite(b, k).Some? then LastWrite(b, k) else LastWrite(a, k)
  {
    if b == [] {
      assert a + b == a;
    } else {
      var ab := a + b;
      assert ab[..|ab| - 1] == a + b[..|b| - 1];
      assert ab[|ab| - 1] == b[|b| - 1];
      LastWriteAppend(a, b[..|b| - 1], k);
    }
  }

  /** Overwriting with one more update is one more map update, or none when it has no value. */
  lemma OverwrittenSnoc(t: Tree, updates: seq<UbtUpdate>)
    requires updates != []
    ensures var u := updates[|updates| - 1];
      Overwritten(t, updates) ==
        if u.value.Some? then Overwritten(t, updates[..|updates| - 1])[u.key := u.value.value]
        else Overwritten(t, updates[..|updates| - 1])
  {
  }

  /** Inserting the entries of the updates one by one gives exactly the overwritten tree. */
  lemma {:induction false} InsertBatchOverwrites(t: Tree, updates: seq<UbtUpdate>)
    ensures InsertBatch(t, Entries(updates)) == Overwritten(t, updates)
  {
    if updates != [] {
      var front := updates[..|updates| - 1];
      var u := updates[|updates| - 1];
      InsertBatchOverwrites(t, front);
      OverwrittenSnoc(t, updates);
      var e := Entries(updates);
      if u.value.Some? {
        assert e == Entries(front) + [(u.key, u.value.value)];
        assert e[..|e| - 1] == Entries(front);
      } else {
        assert e == Entries(front) + [];
        assert e == Entries(front);
        assert Overwritten(t, updates) == Overwritten(t, front);
      }
    }
  }

  /** Two blocks applied one after the other write what their concatenation writes. */
  lemma OverwrittenCompose(t: Tree, a: seq<UbtUpdate>, b: seq<UbtUpdate>)
    ensures Overwritten(Overwritten(t, a), b) == Overwritten(t, a + b)
  {
    WrittenKeysAppend(a, b);
    forall k | k in Overwritten(t, a + b)
      ensures Overwritten(Overwritten(t, a), b)[k] == Overwritten(t, a + b)[k]
    {
      LastWriteAppend(a, b, k);
    }
  }

  /** Applying the same block twice changes nothing more than applying it once. */
  lemma OverwrittenIdempotent(t: Tree, updates: seq<UbtUpdate>)
    ensures Overwritten(Overwritten(t, updates), updates) == Overwritten(t, updates)
  {
  }

  // ---------------------------------------------------------------------
  // Stems
  // ---------------------------------------------------------------------

  /** The distinct 31-byte stems of a set of keys. */
  function Stems(keys: set<TreeKey>): set<seq<u8>>
  {
    set k | k in keys :: k[..STEM_LEN]
  }

  /** There are never more stems than keys. */
  lemma {:induction false} StemsBound(keys: set<TreeKey>)
    ensures |Stems(keys)| <= |keys|
    decreases |keys|
  {
    if keys != {} {
      var k :| k in keys;
      var rest := keys - {k};
      StemsBound(rest);
      assert Stems(keys) == Stems(rest) + {k[..STEM_LEN]};
    }
  }

  // ---------------------------------------------------------------------
  // UbtState
  // ---------------------------------------------------------------------

  /** `UbtState`: the tree, the block it is synced to, and the rebuilding flag. */
  class UbtState {
    var tree: Tree
    var currentHead: Option<u64>
    var rebuilding: bool
    const hasher: RootHasher

    /** `UbtState::new`: an empty tree, no head, not rebuilding. */
    constructor New(hasher: RootHasher)
      ensures this.hasher == hasher
      ensures tree == map[] && Root() == ZERO_HASH && StemCount() == 0
      ensures CurrentHead() == None && !IsRebuilding()
    {
      this.hasher := hasher;
      tree := map[];
      currentHead := None;
      rebuilding := false;
    }

    /** `UbtState::with_capacity`: the capacity only pre-allocates, so the state is that of `New`. */
    constructor WithCapacity(hasher: RootHasher, stemCapacity: nat)
      ensures this.hasher == hasher
      ensures tree == map[] && Root() == ZERO_HASH && StemCount() == 0
      ensures CurrentHead() == None && !IsRebuilding()
    {
      this.hasher := hasher;
      tree := map[];
      currentHead := None;
      rebuilding := false;
    }

    /** `root`: the hash of the current contents; zero while the tree is empty. */
    function Root(): (r: B256)
      reads this
      ensures tree == map[] ==> r == ZERO_HASH
    {
      hasher(tree)
    }

    function CurrentHead(): Option<u64>
      reads this
    {
      currentHead
    }

    function IsRebuilding(): bool
      reads this
    {
      rebuilding
    }

    /** `stem_count`: the number of distinct stems, never more than the number of keys. */
    function StemCount(): (n: nat)
      reads this
      ensures n <= |tree|
      ensures tree == map[] ==> n == 0
    {
      StemsBound(tree.Keys);
      |Stems(tree.Keys)|
    }

    /** `set_rebuilding`: only the flag changes. */
    method SetRebuilding(rebuilding: bool)
      modifies this`rebuilding
      ensures IsRebuilding() == rebuilding
      ensures tree == old(tree) && CurrentHead() == old(CurrentHead())
    {
      this.rebuilding := rebuilding;
    }

    /**
     * `apply_block_updates`: the updates that carry a value overwrite the
     * tree, the head becomes the block whatever the updates were, the flag
     * and the block hash play no part, and the result is the new root.
     */
    method ApplyBlockUpdates(blockNumber: u64, blockHash: B256, updates: seq<UbtUpdate>) returns (root: B256)
      modifies this`tree, this`currentHead
      ensures tree == Overwritten(old(tree), updates)
      ensures CurrentHead() == Some(blockNumber)
      ensures IsRebuilding() == old(IsRebuilding())
      ensures root == Root()
    {
      var entries: seq<(TreeKey, B256)> := [];
      for i := 0 to |updates|
        invariant entries == Entries(updates[..i])
      {
        assert updates[..i + 1][..i] == updates[..i];
        var u := updates[i];
        if u.value.Some? {
          entries := entries + [(u.key, u.value.value)];
        }
      }
      assert updates[..|updates|] == updates;
      InsertBatchOverwrites(tree, updates);
      if entries != [] {
        tree := InsertBatch(tree, entries);
      }
      currentHead := Some(blockNumber);
      root := Root();
    }

    /** `reset`: an empty tree with the zero root, no head, and the rebuilding flag set. */
    method Reset()
      modifies this`tree, this`currentHead, this`rebuilding
      ensures tree == map[] && Root() == ZERO_HASH
      ensures CurrentHead() == None && IsRebuilding()
    {
      tree := map[];
      currentHead := None;
      rebuilding := true;
    }
  }

  /**
   * A fresh state that applies a block and is then reset ends with the zero
   * root, no head and the rebuilding flag set, whatever the block held.
   */
  method ResetAfterBlock(hasher: RootHasher, blockNumber: u64, updates: seq<UbtUpdate>)
    returns (root: B256, head: Option<u64>, rebuilding: bool)
    ensures root == ZERO_HASH && head == None && rebuilding
  {
    var state := new UbtState.New(hasher);
    var _ := state.ApplyBlockUpdates(blockNumber, ZERO_HASH, updates);
    state.Reset();
    root := state.Root();
    head := state.CurrentHead();
    rebuilding := state.IsRebuilding();
  }

  /** The head a block leaves behind is that block, even when no update carries a value. */
  method HeadAfterBlock(hasher: RootHasher, blockNumber: u64, updates: seq<UbtUpdate>)
    returns (head: Option<u64>, rebuilding: bool, stillEmpty: bool)
    ensures head == Some(blockNumber) && !rebuilding
    ensures WrittenKeys(updates) == {} ==> stillEmpty
  {
    var state := new UbtState.New(hasher);
    var root := state.ApplyBlockUpdates(blockNumber, ZERO_HASH, updates);
    head := state.CurrentHead();
    rebuilding := state.IsRebuilding();
    stillEmpty := root == ZERO_HASH && state.tree == map[];
  }
}
