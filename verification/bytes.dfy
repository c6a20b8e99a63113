/** Bytes, little-endian lengths, and the big-endian block number. */
module Bytes {

  type byte = bv8

  const MOD64: nat := 0x1_0000_0000_0000_0000

  type uint64 = n: nat | n < MOD64

  /** The byte with value n, one binary digit at a time. */
  function AsByte(n: nat): (b: byte)
    requires n < 256
    ensures b as int == n
  {
    if n == 0 then 0
    else
      DoubleAndAdd(AsByte(n / 2), n % 2 == 1);
      (AsByte(n / 2) << 1) | (if n % 2 == 1 then 1 else 0)
  }

  lemma DoubleAndAdd(b: byte, odd: bool)
    requires b < 128
    ensures ((b << 1) | (if odd then 1 else 0)) as int == 2 * (b as int) + (if odd then 1 else 0)
  {
  }

  /** The numeric value of each byte. */
  function Digits(p: seq<byte>): (ds: seq<nat>)
    ensures |ds| == |p|
  {
    seq(|p|, i requires 0 <= i < |p| => p[i] as int)
  }

  /** Base 256, most significant digit first. */
  function BeValue(ds: seq<nat>): nat {
    if ds == [] then 0 else BeValue(ds[..|ds| - 1]) * 256 + ds[|ds| - 1]
  }

  /** Base 256, least significant digit first. */
  function LeValue(ds: seq<nat>): nat {
    if ds == [] then 0 else ds[0] + 256 * LeValue(ds[1..])
  }

  function Pow256(k: nat): nat {
    if k == 0 then 1 else 256 * Pow256(k - 1)
  }

  lemma Pow256Values()
    ensures Pow256(2) == 0x1_0000 && Pow256(8) == MOD64
  {
    assert Pow256(4) == 0x1_0000_0000;
  }

  /* ---------- the big-endian block number ---------- */

  /** The shift/or chain of `extractUint64FromPayload`. */
  function ExtractUint64(payload: seq<byte>): bv64
    requires |payload| >= 8
  {
    ((payload[0] as bv64) << 56) | ((payload[1] as bv64) << 48) |
    ((payload[2] as bv64) << 40) | ((payload[3] as bv64) << 32) |
    ((payload[4] as bv64) << 24) | ((payload[5] as bv64) << 16) |
    ((payload[6] as bv64) << 8) | (payload[7] as bv64)
  }

  function BigEndian(n: bv64): seq<byte> {
    [((n >> 56) & 0xff) as byte, ((n >> 48) & 0xff) as byte, ((n >> 40) & 0xff) as byte,
     ((n >> 32) & 0xff) as byte, ((n >> 24) & 0xff) as byte, ((n >> 16) & 0xff) as byte,
     ((n >> 8) & 0xff) as byte, (n & 0xff) as byte]
  }

  /** The chain is a bijection from eight bytes, inverse to big-endian encoding. */
  lemma ExtractInverse(n: bv64, p: seq<byte>)
    requires |p| == 8
    ensures ExtractUint64(BigEndian(n)) == n && BigEndian(ExtractUint64(p)) == p
  {
  }

  /** The bits of the chain are the digits of the number. */
  lemma ShiftsAreDigits(a: byte, b: byte, c: byte, d: byte, e: byte, f: byte, g: byte, h: byte)
    ensures
      (((a as bv64) << 56) | ((b as bv64) << 48) | ((c as bv64) << 40) | ((d as bv64) << 32) |
       ((e as bv64) << 24) | ((f as bv64) << 16) | ((g as bv64) << 8) | (h as bv64)) as int ==
      a as int * 0x100_0000_0000_0000 + b as int * 0x1_0000_0000_0000 + c as int * 0x100_0000_0000 +
      d as int * 0x1_0000_0000 + e as int * 0x100_0000 + f as int * 0x1_0000 + g as int * 0x100 + h as int
  {
  }

  lemma BeValueLast(ds: seq<nat>, i: nat)
    requires i < |ds|
    ensures BeValue(ds[..i + 1]) == BeValue(ds[..i]) * 256 + ds[i]
  {
    assert ds[..i + 1][..i] == ds[..i];
  }

  lemma BeValueOfEight(ds: seq<nat>)
    requires |ds| == 8
    ensures BeValue(ds) ==
      ds[0] * 0x100_0000_0000_0000 + ds[1] * 0x1_0000_0000_0000 + ds[2] * 0x100_0000_0000 +
      ds[3] * 0x1_0000_0000 + ds[4] * 0x100_0000 + ds[5] * 0x1_0000 + ds[6] * 0x100 + ds[7]
  {
    BeValueOfFour(ds[..4]);
    BeValueLast(ds, 4); BeValueLast(ds, 5); BeValueLast(ds, 6); BeValueLast(ds, 7);
    assert ds[..8] == ds;
  }

  lemma BeValueOfFour(ds: seq<nat>)
    requires |ds| == 4
    ensures BeValue(ds) == ds[0] * 0x100_0000 + ds[1] * 0x1_0000 + ds[2] * 0x100 + ds[3]
  {
    BeValueLast(ds, 0); BeValueLast(ds, 1); BeValueLast(ds, 2); BeValueLast(ds, 3);
    assert ds[..4] == ds;
  }

  /** The chain computes the base-256 value of the first eight bytes. */
  lemma ExtractIsValue(p: seq<byte>)
    requires |p| >= 8
    ensures ExtractUint64(p) as int == BeValue(Digits(p[..8]))
  {
    ExtractIsSum(p);
    BeValueIsSum(p);
  }

  lemma ExtractIsSum(p: seq<byte>)
    requires |p| >= 8
    ensures ExtractUint64(p) as int ==
      p[0] as int * 0x100_0000_0000_0000 + p[1] as int * 0x1_0000_0000_0000 + p[2] as int * 0x100_0000_0000 +
      p[3] as int * 0x1_0000_0000 + p[4] as int * 0x100_0000 + p[5] as int * 0x1_0000 +
      p[6] as int * 0x100 + p[7] as int
  {
    ShiftsAreDigits(p[0], p[1], p[2], p[3], p[4], p[5], p[6], p[7]);
  }

  lemma BeValueIsSum(p: seq<byte>)
    requires |p| >= 8
    ensures BeValue(Digits(p[..8])) ==
      p[0] as int * 0x100_0000_0000_0000 + p[1] as int * 0x1_0000_0000_0000 + p[2] as int * 0x100_0000_0000 +
      p[3] as int * 0x1_0000_0000 + p[4] as int * 0x100_0000 + p[5] as int * 0x1_0000 +
      p[6] as int * 0x100 + p[7] as int
  {
    BeValueOfEight(Digits(p[..8]));
  }

  /** Byte-wise lexicographic order: the first difference decides. */
  predicate LexLess(p: seq<nat>, q: seq<nat>)
    requires |p| == |q|
  {
    p != [] && (p[0] < q[0] || (p[0] == q[0] && LexLess(p[1..], q[1..])))
  }

  predicate InBase(ds: seq<nat>) {
    forall i :: 0 <= i < |ds| ==> ds[i] < 256
  }

  lemma {:induction false} BeValueFirst(ds: seq<nat>)
    requires InBase(ds) && ds != []
    ensures BeValue(ds) == ds[0] * Pow256(|ds| - 1) + BeValue(ds[1..])
    ensures BeValue(ds[1..]) < Pow256(|ds| - 1)
  {
    if |ds| > 1 {
      var init, last, k := ds[..|ds| - 1], ds[|ds| - 1], Pow256(|ds| - 2);
      BeValueFirst(init);
      assert init[1..] == ds[1..][..|ds| - 2];
      Distribute(ds[0], k, BeValue(init[1..]), last);
    }
  }

  lemma Distribute(a: nat, k: nat, v: nat, d: nat)
    ensures (a * k + v) * 256 + d == a * (256 * k) + (v * 256 + d)
  {
  }

  lemma {:induction false} LexIsValueOrder(p: seq<nat>, q: seq<nat>)
    requires InBase(p) && InBase(q) && |p| == |q|
    ensures LexLess(p, q) <==> BeValue(p) < BeValue(q)
  {
    if p != [] {
      LexIsValueOrder(p[1..], q[1..]);
      BeValueFirst(p);
      BeValueFirst(q);
      FirstDecides(p[0], q[0], Pow256(|p| - 1), BeValue(p[1..]), BeValue(q[1..]));
    }
  }

  lemma FirstDecides(a: nat, b: nat, k: nat, v: nat, w: nat)
    requires v < k && w < k
    ensures a * k + v < b * k + w <==> a < b || (a == b && v < w)
  {
    if a < b {
      assert (a + 1) * k <= b * k;
    } else if b < a {
      assert (b + 1) * k <= a * k;
    }
  }

  /** Byte order is numeric order. */
  lemma ExtractPreservesOrder(p: seq<byte>, q: seq<byte>)
    requires |p| == |q| == 8
    ensures LexLess(Digits(p), Digits(q)) <==> ExtractUint64(p) as int < ExtractUint64(q) as int
  {
    assert p[..8] == p && q[..8] == q;
    ExtractIsValue(p);
    ExtractIsValue(q);
    LexIsValueOrder(Digits(p), Digits(q));
  }

  /* ---------- little-endian lengths, as the host stores them ---------- */

  function LittleEndian(n: nat, width: nat): (r: seq<byte>)
    ensures |r| == width
  {
    if width == 0 then [] else [AsByte(n % 256)] + LittleEndian(n / 256, width - 1)
  }

  lemma DigitsCons(b: byte, p: seq<byte>)
    ensures Digits([b] + p) == [b as int] + Digits(p)
  {
  }

  lemma {:induction false} LittleEndianInverse(n: nat, width: nat)
    requires n < Pow256(width)
    ensures LeValue(Digits(LittleEndian(n, width))) == n
  {
    if width > 0 {
      LittleEndianInverse(n / 256, width - 1);
      DigitsCons(AsByte(n % 256), LittleEndian(n / 256, width - 1));
      LeValueCons(n % 256, Digits(LittleEndian(n / 256, width - 1)));
    }
  }

  lemma LeValueCons(d: nat, ds: seq<nat>)
    ensures LeValue([d] + ds) == d + 256 * LeValue(ds)
  {
    assert ([d] + ds)[1..] == ds;
  }

  lemma {:induction false} LeValueBound(ds: seq<nat>)
    requires InBase(ds)
    ensures LeValue(ds) < Pow256(|ds|)
  {
    if ds != [] {
      LeValueBound(ds[1..]);
    }
  }

  lemma LeLength(p: seq<byte>)
    ensures |p| == 2 ==> LeValue(Digits(p)) < 0x1_0000
    ensures |p| == 8 ==> LeValue(Digits(p)) < MOD64
  {
    LeValueBound(Digits(p));
    Pow256Values();
  }

  lemma LeValueOfTwo(ds: seq<nat>)
    requires |ds| == 2
    ensures LeValue(ds) == ds[0] + 0x100 * ds[1]
  {
    assert ds[1..][1..] == [] && LeValue(ds[1..]) == ds[1];
  }

  /** Eight host-order bytes: byte i counts 256 to the power i. */
  lemma LeValueOfEight(ds: seq<nat>)
    requires |ds| == 8
    ensures LeValue(ds) ==
      ds[0] + 0x100 * ds[1] + 0x1_0000 * ds[2] + 0x100_0000 * ds[3] + 0x1_0000_0000 * ds[4] +
      0x100_0000_0000 * ds[5] + 0x1_0000_0000_0000 * ds[6] + 0x100_0000_0000_0000 * ds[7]
  {
    LeValueHead(ds, 4);
    LeValueOfFour(ds[..4]);
    LeValueOfFour(ds[4..]);
  }

  lemma LeValueOfFour(ds: seq<nat>)
    requires |ds| == 4
    ensures LeValue(ds) == ds[0] + 0x100 * ds[1] + 0x1_0000 * ds[2] + 0x100_0000 * ds[3]
  {
    assert ds[1..][1..] == ds[2..] && LeValue(ds[1..]) == ds[1] + 256 * LeValue(ds[2..]);
    LeValueOfTwo(ds[2..]);
  }

  lemma {:induction false} LeValueHead(ds: seq<nat>, k: nat)
    requires k <= |ds|
    ensures LeValue(ds) == LeValue(ds[..k]) + Pow256(k) * LeValue(ds[k..])
  {
    if k > 0 {
      LeValueHead(ds[1..], k - 1);
      assert ds[1..][..k - 1] == ds[..k][1..] && ds[1..][k - 1..] == ds[k..];
      ScaleBy256(LeValue(ds[..k][1..]), Pow256(k - 1), LeValue(ds[k..]));
    } else {
      assert ds[..0] == [] && ds[0..] == ds;
    }
  }

  lemma ScaleBy256(a: nat, b: nat, c: nat)
    ensures 256 * (a + b * c) == 256 * a + 256 * b * c
  {
  }
}
