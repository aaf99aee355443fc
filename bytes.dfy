/**
 * Fixed-width integers, byte strings and their encodings: the little- and
 * big-endian integer encodings Rust's `to_le_bytes` / `to_be_bytes` produce,
 * the four-limb 256-bit integer of the `ethereum_types` crate, and the
 * lexicographic order Rust derives for byte arrays.
 */
module Bytes {

  type u8 = x: int | 0 <= x < 0x100
  type u16 = x: int | 0 <= x < 0x1_0000
  type u32 = x: int | 0 <= x < 0x1_0000_0000
  type u64 = x: int | 0 <= x < 0x1_0000_0000_0000_0000
  type u128 = x: int | 0 <= x < 0x1_0000_0000_0000_0000_0000_0000_0000_0000

  const U32_LIMIT: int := 0x1_0000_0000
  const U64_LIMIT: int := 0x1_0000_0000_0000_0000
  const U64_MAX: u64 := 0xffff_ffff_ffff_ffff
  const U128_MAX: u128 := 0xffff_ffff_ffff_ffff_ffff_ffff_ffff_ffff

  /** `n` zero bytes (`[0u8; n]`). */
  function Zeros(n: nat): (z: seq<u8>)
    ensures |z| == n
    ensures forall i :: 0 <= i < n ==> z[i] == 0
  {
    seq(n, _ => 0)
  }

  type Bytes4 = s: seq<u8> | |s| == 4 witness [0, 0, 0, 0]
  type Bytes20 = s: seq<u8> | |s| == 20 witness Zeros(20)
  type Bytes32 = s: seq<u8> | |s| == 32 witness Zeros(32)

  function Pow256(n: nat): (p: nat)
    ensures p >= 1
  {
    if n == 0 then 1 else 256 * Pow256(n - 1)
  }

  lemma Pow256Values()
    ensures Pow256(2) == 0x1_0000
    ensures Pow256(8) == U64_LIMIT
  {
    assert Pow256(1) == 0x100;
    assert Pow256(2) == 0x1_0000;
    assert Pow256(3) == 0x100_0000;
    assert Pow256(4) == 0x1_0000_0000;
    assert Pow256(5) == 0x100_0000_0000;
    assert Pow256(6) == 0x1_0000_0000_0000;
    assert Pow256(7) == 0x100_0000_0000_0000;
  }

  // ---------------------------------------------------------------------
  // Little-endian encoding (`to_le_bytes`)
  // ---------------------------------------------------------------------

  /** The `n` low bytes of `v`, least significant first. */
  function LE(v: nat, n: nat): (r: seq<u8>)
    ensures |r| == n
  {
    if n == 0 then [] else [v % 256] + LE(v / 256, n - 1)
  }

  /** The number a little-endian byte string denotes. */
  function FromLE(s: seq<u8>): nat
  {
    if s == [] then 0 else s[0] + 256 * FromLE(s[1..])
  }

  lemma DivBound(v: nat, p: nat)
    requires v < 256 * p
    ensures v / 256 < p
  {
  }

  lemma {:induction false} LERoundTrip(v: nat, n: nat)
    requires v < Pow256(n)
    ensures FromLE(LE(v, n)) == v
  {
    if n > 0 {
      var q, m := v / 256, v % 256;
      assert v == 256 * q + m;
      DivBound(v, Pow256(n - 1));
      var r := LE(v, n);
      assert r[0] == m;
      assert r[1..] == LE(q, n - 1);
      LERoundTrip(q, n - 1);
    }
  }

  // ---------------------------------------------------------------------
  // Big-endian encoding (`to_be_bytes`, `to_big_endian`)
  // ---------------------------------------------------------------------

  /** The `n` low bytes of `v`, most significant first. */
  function BE(v: nat, n: nat): (r: seq<u8>)
    ensures |r| == n
  {
    if n == 0 then [] else BE(v / 256, n - 1) + [v % 256]
  }

  /** The number a big-endian byte string denotes. */
  function FromBE(s: seq<u8>): nat
  {
    if s == [] then 0 else 256 * FromBE(s[..|s| - 1]) + s[|s| - 1]
  }

  lemma {:induction false} BERoundTrip(v: nat, n: nat)
    requires v < Pow256(n)
    ensures FromBE(BE(v, n)) == v
  {
    if n > 0 {
      var q, m := v / 256, v % 256;
      assert v == 256 * q + m;
      DivBound(v, Pow256(n - 1));
      var r := BE(v, n);
      assert r[n - 1] == m;
      assert r[..n - 1] == BE(q, n - 1);
      BERoundTrip(q, n - 1);
    }
  }

  lemma ShiftByte(a: nat, p: nat, b: nat, c: nat)
    ensures 256 * (a * p + b) + c == a * (256 * p) + (256 * b + c)
  {
  }

  /** The value of a concatenation: the front shifted by the length of the back. */
  lemma {:induction false} FromBEAppend(a: seq<u8>, b: seq<u8>)
    ensures FromBE(a + b) == FromBE(a) * Pow256(|b|) + FromBE(b)
  {
    if b == [] {
      assert a + b == a;
    } else {
      var b' := b[..|b| - 1];
      var last := b[|b| - 1];
      var ab := a + b;
      assert ab[..|ab| - 1] == a + b';
      assert ab[|ab| - 1] == last;
      assert FromBE(ab) == 256 * FromBE(a + b') + last;
      FromBEAppend(a, b');
      ShiftByte(FromBE(a), Pow256(|b'|), FromBE(b'), last);
      assert FromBE(b) == 256 * FromBE(b') + last;
      assert Pow256(|b|) == 256 * Pow256(|b'|);
    }
  }

  lemma {:induction false} BEOfZero(n: nat)
    ensures BE(0, n) == Zeros(n)
  {
    if n > 0 {
      BEOfZero(n - 1);
    }
  }

  // ---------------------------------------------------------------------
  // 256-bit integers as four 64-bit limbs (`ethereum_types::U256`)
  // ---------------------------------------------------------------------

  type Limbs = s: seq<u64> | |s| == 4 witness [0, 0, 0, 0]

  /** A 256-bit unsigned integer stored as four 64-bit limbs, least significant limb first. */
  datatype U256 = U256(limbs: Limbs) {

    /** The integer the limbs denote. */
    function Value(): nat
    {
      limbs[0] as int
      + 0x1_0000_0000_0000_0000 * (limbs[1] as int)
      + 0x1_0000_0000_0000_0000_0000_0000_0000_0000 * (limbs[2] as int)
      + 0x1_0000_0000_0000_0000_0000_0000_0000_0000_0000_0000_0000_0000 * (limbs[3] as int)
    }

    /** `U256::is_zero`: every limb is zero. */
    predicate IsZero()
    {
      limbs[0] == 0 && limbs[1] == 0 && limbs[2] == 0 && limbs[3] == 0
    }

    /** `U256::low_u128`: the two low limbs. */
    function LowU128(): u128
    {
      limbs[0] as int + 0x1_0000_0000_0000_0000 * (limbs[1] as int)
    }

    /**
     * The 32-byte big-endian form: limb `i` goes, as its own eight big-endian
     * bytes, to bytes `24 - 8 i .. 32 - 8 i`.
     */
    function ToBigEndian(): Bytes32
    {
      BE(limbs[3], 8) + BE(limbs[2], 8) + BE(limbs[1], 8) + BE(limbs[0], 8)
    }
  }

  lemma IsZeroIffValueZero(v: U256)
    ensures v.IsZero() <==> v.Value() == 0
  {
  }

  /** The big-endian bytes denote exactly the value of the limbs. */
  lemma BigEndianValue(v: U256)
    ensures FromBE(v.ToBigEndian()) == v.Value()
  {
    Pow256Values();
    var l := v.limbs;
    var b3, b2, b1, b0 := BE(l[3], 8), BE(l[2], 8), BE(l[1], 8), BE(l[0], 8);
    BERoundTrip(l[3], 8);
    BERoundTrip(l[2], 8);
    BERoundTrip(l[1], 8);
    BERoundTrip(l[0], 8);
    FromBEAppend(b3, b2);
    FromBEAppend(b3 + b2, b1);
    FromBEAppend(b3 + b2 + b1, b0);
    assert |b0| == 8 && |b1| == 8 && |b2| == 8;
  }

  /** The big-endian form of zero is 32 zero bytes. */
  lemma ZeroBigEndian(v: U256)
    requires v.IsZero()
    ensures v.ToBigEndian() == Zeros(32)
  {
    BEOfZero(8);
  }

  // ---------------------------------------------------------------------
  // Lexicographic order of byte strings (Rust's derived `Ord` on `[u8; N]`)
  // ---------------------------------------------------------------------

  /** `a < b` for byte strings of equal length, compared from the first byte. */
  predicate LexLess(a: seq<u8>, b: seq<u8>)
  {
    |a| > 0 && |b| > 0 && (a[0] < b[0] || (a[0] == b[0] && LexLess(a[1..], b[1..])))
  }

  lemma {:induction false} LexLessIrreflexive(a: seq<u8>)
    ensures !LexLess(a, a)
  {
    if |a| > 0 {
      LexLessIrreflexive(a[1..]);
    }
  }

  lemma {:induction false} LexLessAsymmetric(a: seq<u8>, b: seq<u8>)
    requires LexLess(a, b)
    ensures !LexLess(b, a)
  {
    if a[0] == b[0] {
      LexLessAsymmetric(a[1..], b[1..]);
    }
  }

  lemma {:induction false} LexLessTransitive(a: seq<u8>, b: seq<u8>, c: seq<u8>)
    requires LexLess(a, b) && LexLess(b, c)
    ensures LexLess(a, c)
  {
    if a[0] == b[0] && b[0] == c[0] {
      LexLessTransitive(a[1..], b[1..], c[1..]);
    }
  }

  lemma {:induction false} LexLessTotal(a: seq<u8>, b: seq<u8>)
    requires |a| == |b|
    ensures a == b || LexLess(a, b) || LexLess(b, a)
  {
    if |a| > 0 && a[0] == b[0] {
      LexLessTotal(a[1..], b[1..]);
      if a[1..] == b[1..] {
        assert a == [a[0]] + a[1..] && b == [b[0]] + b[1..];
      }
    }
  }

  // ---------------------------------------------------------------------
  // Buffers
  // ---------------------------------------------------------------------

  /** `buf[at..at + src.len()].copy_from_slice(src)`. */
  method CopySlice(buf: array<u8>, at: nat, src: seq<u8>)
    requires at + |src| <= buf.Length
    modifies buf
    ensures buf[..] == old(buf[..])[..at] + src + old(buf[..])[at + |src|..]
  {
    for k := 0 to |src|
      invariant forall j :: 0 <= j < buf.Length ==>
        buf[j] == (if at <= j < at + k then src[j - at] else old(buf[j]))
    {
      buf[at + k] := src[k];
    }
  }

  /** Dropping the last element of a concatenation with a non-empty back drops it from the back. */
  lemma AppendFront<T>(a: seq<T>, b: seq<T>)
    requires b != []
    ensures (a + b)[..|a + b| - 1] == a + b[..|b| - 1]
    ensures (a + b)[|a + b| - 1] == b[|b| - 1]
  {
  }

  lemma AppendAssoc<T>(x: seq<T>, y: seq<T>, z: seq<T>)
    ensures (x + y) + z == x + (y + z)
  {
  }

  /** The results of `f` on each element, concatenated in order. */
  function FlatMap<A, B>(f: A -> seq<B>, xs: seq<A>): seq<B>
  {
    if xs == [] then [] else FlatMap(f, xs[..|xs| - 1]) + f(xs[|xs| - 1])
  }

  lemma FlatMapSnoc<A, B>(f: A -> seq<B>, xs: seq<A>, x: A)
    ensures FlatMap(f, xs + [x]) == FlatMap(f, xs) + f(x)
  {
    AppendFront(xs, [x]);
  }

  lemma {:induction false} FlatMapAppend<A, B>(f: A -> seq<B>, xs: seq<A>, ys: seq<A>)
    ensures FlatMap(f, xs + ys) == FlatMap(f, xs) + FlatMap(f, ys)
  {
    if ys == [] {
      assert xs + ys == xs;
    } else {
      AppendFront(xs, ys);
      FlatMapAppend(f, xs, ys[..|ys| - 1]);
    }
  }
}
