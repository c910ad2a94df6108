/**
 * Shared vocabulary of the model: optional values, fixed-width unsigned
 * integers, shift-and-mask extraction, little-endian byte order, and the
 * "keep the entries that pass a test, in order, converted" loop shape that
 * both the partition-layout copy and the volume scan in main.cpp use.
 */
module Common {

  datatype Option<+T> = None | Some(value: T)

  /** An unsigned 8-bit value (C `uint8_t` / `BYTE`, a Python `bytes` element). */
  type Byte = x: int | 0 <= x < 0x100

  /** An unsigned 32-bit value (C `uint32_t` / `DWORD`). */
  type U32 = x: int | 0 <= x < 0x1_0000_0000

  function Pow2(n: nat): (r: nat)
    ensures r >= 1
  {
    if n == 0 then 1 else 2 * Pow2(n - 1)
  }

  /** `(v >> lo) & (2^width - 1)` on an unsigned value. */
  function Bits(v: nat, lo: nat, width: nat): (r: nat)
    ensures r < Pow2(width)
  {
    (v / Pow2(lo)) % Pow2(width)
  }

  /** The value of `bs` read least significant byte first. */
  function LittleEndian(bs: seq<Byte>): nat
  {
    if bs == [] then 0 else bs[0] + 0x100 * LittleEndian(bs[1..])
  }

  /** The low `n` bytes of `v`, least significant first: byte `k` is `(v >> 8k) & 0xFF`. */
  function LittleEndianBytes(v: nat, n: nat): (bs: seq<Byte>)
    ensures |bs| == n
  {
    seq(n, k requires 0 <= k < n => Bits(v, 8 * k, 8) as Byte)
  }

  /** Euclidean division is unique. */
  lemma DivModUnique(a: int, d: int, q: int, r: int)
    requires d > 0 && 0 <= r < d && a == q * d + r
    ensures a / d == q && a % d == r
  {
    var k := q - a / d;
    assert k * d == a % d - r;
    MulAwayFromZero(k, d);
  }

  lemma MulAwayFromZero(k: int, d: int)
    requires d > 0
    ensures k >= 1 ==> k * d >= d
    ensures k <= -1 ==> k * d <= -d
  {
  }

  lemma DivDiv(a: nat, b: nat, c: nat)
    requires b > 0 && c > 0
    ensures a / b / c == a / (b * c)
  {
    DivModNested(a, b, c);
    DivModUnique(a, b * c, a / b / c, b * ((a / b) % c) + a % b);
  }

  /**
   * Dividing by `b` and then by `c`: `a == (a/b/c) (b c) + (b ((a/b) % c) + a % b)`,
   * the second term lying in `[0, b c)`.
   */
  lemma DivModNested(a: nat, b: nat, c: nat)
    requires b > 0 && c > 0
    ensures 0 <= b * ((a / b) % c) + a % b < b * c
    ensures a == (a / b / c) * (b * c) + (b * ((a / b) % c) + a % b)
  {
    var q := a / b;
    var r := a % b;
    var hi := q / c;
    var lo := q % c;
    assert a == q * b + r;
    assert q == hi * c + lo;
    assert q * b == hi * (b * c) + b * lo by {
      MulDistrib(hi * c, lo, b);
      MulComm3(hi, c, b);
    }
    assert b * lo <= b * (c - 1) by {
      MulMono(b, lo, c - 1);
    }
    assert b * (c - 1) == b * c - b;
  }

  lemma MulDistrib(x: int, y: int, z: int)
    ensures (x + y) * z == x * z + y * z
  {
  }

  lemma MulComm3(x: int, y: int, z: int)
    ensures x * y * z == x * (z * y)
  {
  }

  lemma MulMono(b: nat, x: nat, y: nat)
    requires x <= y
    ensures b * x <= b * y
  {
  }

  lemma Pow2Add(m: nat, n: nat)
    ensures Pow2(m + n) == Pow2(m) * Pow2(n)
    decreases m
  {
    if m > 0 {
      Pow2Add(m - 1, n);
    }
  }

  /** The byte-lane powers of two. */
  lemma Pow2Lanes()
    ensures Pow2(8) == 0x100 && Pow2(16) == 0x1_0000 && Pow2(24) == 0x100_0000 && Pow2(32) == 0x1_0000_0000
  {
    assert Pow2(8) == 0x100;
    Pow2Add(8, 8);
    Pow2Add(16, 8);
    Pow2Add(24, 8);
  }

  /** Shifting by `8` more bits is dividing once more by 256. */
  lemma BitsShift8(v: nat, lo: nat)
    ensures Bits(v, lo + 8, 8) == Bits(v / 0x100, lo, 8)
  {
    Pow2Add(lo, 8);
    assert Pow2(8) == 0x100;
    DivDiv(v, 0x100, Pow2(lo));
    assert 0x100 * Pow2(lo) == Pow2(lo) * 0x100;
  }

  /**
   * Reading back the bytes `(v >> 8k) & 0xFF`, k < n, least significant
   * first gives `v` modulo `2^(8n)`.
   */
  lemma {:induction false} LittleEndianRoundTrip(v: nat, n: nat)
    ensures LittleEndian(LittleEndianBytes(v, n)) == v % Pow2(8 * n)
  {
    var bs := LittleEndianBytes(v, n);
    if n > 0 {
      assert Pow2(8) == 0x100;
      assert bs[0] == v % 0x100;
      assert bs[1..] == LittleEndianBytes(v / 0x100, n - 1) by {
        forall k | 0 <= k < n - 1
          ensures bs[1..][k] == LittleEndianBytes(v / 0x100, n - 1)[k]
        {
          BitsShift8(v, 8 * k);
          assert 8 * (k + 1) == 8 * k + 8;
        }
      }
      LittleEndianRoundTrip(v / 0x100, n - 1);
      Pow2Add(8, 8 * (n - 1));
      assert 8 * n == 8 + 8 * (n - 1);
      var p := Pow2(8 * (n - 1));
      // v = 256 (v / 256) + v % 256, and (v / 256) % p carries the rest.
      DivModSplit(v, 0x100, p);
    }
  }

  /** `n` little-endian bytes hold a value below `2^(8n)`. */
  lemma {:induction false} LittleEndianBound(bs: seq<Byte>)
    ensures LittleEndian(bs) < Pow2(8 * |bs|)
  {
    if bs != [] {
      LittleEndianBound(bs[1..]);
      Pow2Add(8, 8 * (|bs| - 1));
      assert Pow2(8) == 0x100;
      assert 8 * |bs| == 8 + 8 * (|bs| - 1);
    }
  }

  /** Two byte strings of one length with the same little-endian value are equal. */
  lemma {:induction false} LittleEndianInjective(a: seq<Byte>, b: seq<Byte>)
    requires |a| == |b| && LittleEndian(a) == LittleEndian(b)
    ensures a == b
  {
    if a != [] {
      DivModUnique(LittleEndian(a), 0x100, LittleEndian(a[1..]), a[0]);
      DivModUnique(LittleEndian(b), 0x100, LittleEndian(b[1..]), b[0]);
      LittleEndianInjective(a[1..], b[1..]);
      assert a == [a[0]] + a[1..] && b == [b[0]] + b[1..];
    }
  }

  /** `a % (b c) == a % b + b ((a / b) % c)`. */
  lemma DivModSplit(a: nat, b: nat, c: nat)
    requires b > 0 && c > 0
    ensures a % (b * c) == a % b + b * ((a / b) % c)
  {
    DivModNested(a, b, c);
    DivModUnique(a, b * c, a / b / c, b * ((a / b) % c) + a % b);
  }

  lemma EmptyPrefix<T>(s: seq<T>)
    ensures [] + s == s
  {
  }

  /** The concatenation of a sequence of sequences, in order. */
  function Flatten<T>(ss: seq<seq<T>>): seq<T>
  {
    if ss == [] then [] else Flatten(ss[..|ss| - 1]) + ss[|ss| - 1]
  }

  /**
   * The loop shape `for x in xs: if keep(x): out.push_back(f(x))`, as the
   * value it leaves in `out`.
   */
  function FilterMap<A, B>(xs: seq<A>, keep: A -> bool, f: A -> B): seq<B>
  {
    if xs == [] then []
    else FilterMap(xs[..|xs| - 1], keep, f) + (if keep(xs[|xs| - 1]) then [f(xs[|xs| - 1])] else [])
  }

  /** The positions of `xs` whose element passes `keep`, in increasing order. */
  function KeptPositions<A>(xs: seq<A>, keep: A -> bool): seq<nat>
  {
    if xs == [] then []
    else KeptPositions(xs[..|xs| - 1], keep) + (if keep(xs[|xs| - 1]) then [|xs| - 1] else [])
  }

  /**
   * FilterMap keeps exactly the elements that pass `keep`, in their
   * original order, each converted by `f`: its j-th entry is `f` of the
   * j-th passing element, positions strictly increase, and a position is
   * listed iff its element passes.
   */
  lemma FilterMapSelects<A, B>(xs: seq<A>, keep: A -> bool, f: A -> B)
    ensures |KeptPositions(xs, keep)| == |FilterMap(xs, keep, f)|
    ensures forall j :: 0 <= j < |KeptPositions(xs, keep)| ==>
              KeptPositions(xs, keep)[j] < |xs| &&
              FilterMap(xs, keep, f)[j] == f(xs[KeptPositions(xs, keep)[j]])
    ensures forall j, k :: 0 <= j < k < |KeptPositions(xs, keep)| ==>
              KeptPositions(xs, keep)[j] < KeptPositions(xs, keep)[k]
    ensures forall i :: 0 <= i < |xs| ==> (keep(xs[i]) <==> i in KeptPositions(xs, keep))
  {
    KeptPositionsOrdered(xs, keep);
    FilterMapAt(xs, keep, f);
  }

  /** The kept positions are valid, strictly increasing, and exactly those whose element passes. */
  lemma {:induction false} KeptPositionsOrdered<A>(xs: seq<A>, keep: A -> bool)
    ensures forall j :: 0 <= j < |KeptPositions(xs, keep)| ==> KeptPositions(xs, keep)[j] < |xs|
    ensures forall j, k :: 0 <= j < k < |KeptPositions(xs, keep)| ==>
              KeptPositions(xs, keep)[j] < KeptPositions(xs, keep)[k]
    ensures forall i :: 0 <= i < |xs| ==> (keep(xs[i]) <==> i in KeptPositions(xs, keep))
  {
    if xs != [] {
      var init := xs[..|xs| - 1];
      KeptPositionsOrdered(init, keep);
      assert forall i :: 0 <= i < |init| ==> xs[i] == init[i];
    }
  }

  /** Entry `j` of FilterMap is `f` of the element at the j-th kept position. */
  lemma {:induction false} FilterMapAt<A, B>(xs: seq<A>, keep: A -> bool, f: A -> B)
    ensures |KeptPositions(xs, keep)| == |FilterMap(xs, keep, f)|
    ensures forall j :: 0 <= j < |KeptPositions(xs, keep)| ==>
              KeptPositions(xs, keep)[j] < |xs| &&
              FilterMap(xs, keep, f)[j] == f(xs[KeptPositions(xs, keep)[j]])
  {
    if xs != [] {
      var init := xs[..|xs| - 1];
      FilterMapAt(init, keep, f);
      assert forall i :: 0 <= i < |init| ==> xs[i] == init[i];
    }
  }
}
