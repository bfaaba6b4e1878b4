/**
 * Fixed-width integers as the C++ code sees them, and the byte-order conversions
 * that the buffer cursors perform.  Values are unbounded in Dafny, so every place
 * where the source wraps or narrows goes through `U32`, `U64` or `I32`.
 */
module MachineInts {

  const TWO_31: int := 0x8000_0000
  const TWO_32: int := 0x1_0000_0000
  const TWO_63: int := 0x8000_0000_0000_0000
  const TWO_64: int := 0x1_0000_0000_0000_0000

  type byte = b: int | 0 <= b < 256

  datatype Option<+T> = None | Some(value: T)

  /** Conversion to `uint32_t`. */
  function U32(x: int): (r: nat)
    ensures r < TWO_32
    ensures 0 <= x < TWO_32 ==> r == x
  {
    x % TWO_32
  }

  /** Conversion to `uint64_t`. */
  function U64(x: int): (r: nat)
    ensures r < TWO_64
    ensures 0 <= x < TWO_64 ==> r == x
    ensures -TWO_63 <= x < 0 ==> TWO_63 <= r
  {
    x % TWO_64
  }

  /** Conversion to `int32_t` (two's complement). */
  function I32(x: int): (r: int)
    ensures -TWO_31 <= r < TWO_31
    ensures -TWO_31 <= x < TWO_31 ==> r == x
    ensures TWO_31 <= x < TWO_32 ==> r == x - TWO_32
  {
    var u := x % TWO_32;
    if u < TWO_31 then u else u - TWO_32
  }

  /** Two numbers narrow to the same `int32_t` exactly when they differ by a multiple of 2^32. */
  lemma I32Collision(x: int, y: int)
    ensures I32(x) == I32(y) <==> x % TWO_32 == y % TWO_32
  {
  }

  // ----- byte order -----

  function Pow256(w: nat): (r: nat)
    ensures r >= 1
  {
    if w == 0 then 1 else 256 * Pow256(w - 1)
  }

  /** Little-endian value: the first byte is the least significant. */
  function FromLE(bs: seq<byte>): nat {
    if bs == [] then 0 else bs[0] + 256 * FromLE(bs[1..])
  }

  function ToLE(v: nat, w: nat): (r: seq<byte>)
    ensures |r| == w
  {
    if w == 0 then [] else [v % 256] + ToLE(v / 256, w - 1)
  }

  /** Network-order value: the last byte is the least significant. */
  function FromBE(bs: seq<byte>): nat {
    if bs == [] then 0 else 256 * FromBE(bs[..|bs| - 1]) + bs[|bs| - 1]
  }

  function ToBE(v: nat, w: nat): (r: seq<byte>)
    ensures |r| == w
  {
    if w == 0 then [] else ToBE(v / 256, w - 1) + [v % 256]
  }

  function ReadUint(bs: seq<byte>, network: bool): nat {
    if network then FromBE(bs) else FromLE(bs)
  }

  function WriteUint(v: nat, w: nat, network: bool): (r: seq<byte>)
    ensures |r| == w
  {
    if network then ToBE(v, w) else ToLE(v, w)
  }

  lemma {:induction false} LERoundTrip(v: nat, w: nat)
    requires v < Pow256(w)
    ensures FromLE(ToLE(v, w)) == v
  {
    if w > 0 {
      LERoundTrip(v / 256, w - 1);
      assert ToLE(v, w)[1..] == ToLE(v / 256, w - 1);
    }
  }

  lemma {:induction false} BERoundTrip(v: nat, w: nat)
    requires v < Pow256(w)
    ensures FromBE(ToBE(v, w)) == v
  {
    if w > 0 {
      BERoundTrip(v / 256, w - 1);
      assert ToBE(v, w)[..w - 1] == ToBE(v / 256, w - 1);
    }
  }

  /** Writing a field and reading it back gives the value, in either byte order. */
  lemma UintRoundTrip(v: nat, w: nat, network: bool)
    requires v < Pow256(w)
    ensures ReadUint(WriteUint(v, w, network), network) == v
  {
    if network {
      BERoundTrip(v, w);
    } else {
      LERoundTrip(v, w);
    }
  }

  lemma {:induction false} LEBound(bs: seq<byte>)
    ensures FromLE(bs) < Pow256(|bs|)
  {
    if bs != [] {
      LEBound(bs[1..]);
    }
  }

  lemma {:induction false} BEBound(bs: seq<byte>)
    ensures FromBE(bs) < Pow256(|bs|)
  {
    if bs != [] {
      BEBound(bs[..|bs| - 1]);
    }
  }

  lemma UintBound(bs: seq<byte>, network: bool)
    ensures ReadUint(bs, network) < Pow256(|bs|)
  {
    LEBound(bs);
    BEBound(bs);
  }

  function Reversed(bs: seq<byte>): (r: seq<byte>)
    ensures |r| == |bs|
    ensures forall i :: 0 <= i < |bs| ==> r[i] == bs[|bs| - 1 - i]
  {
    if bs == [] then [] else [bs[|bs| - 1]] + Reversed(bs[..|bs| - 1])
  }

  /** The two byte orders read the same value from mirrored bytes. */
  lemma {:induction false} NetworkOrderMirrors(bs: seq<byte>)
    ensures FromBE(bs) == FromLE(Reversed(bs))
  {
    if bs != [] {
      NetworkOrderMirrors(bs[..|bs| - 1]);
      assert Reversed(bs)[1..] == Reversed(bs[..|bs| - 1]);
    }
  }

  /** Two-byte fields spelled out: as documented, 12 is 00 0C in network order, 0C 00 otherwise. */
  lemma TwoByteField(bs: seq<byte>)
    requires |bs| == 2
    ensures var first: int, second: int := bs[0], bs[1];
            && ReadUint(bs, true) == 256 * first + second
            && ReadUint(bs, false) == first + 256 * second
  {
    assert bs[..1][..0] == [];
    assert FromBE(bs[..1]) == 256 * FromBE(bs[..1][..0]) + bs[0];
    assert bs[1..][1..] == [];
    assert FromLE(bs[1..]) == bs[1] + 256 * FromLE(bs[1..][1..]);
  }

  /** Every byte has its weight: byte `i` of a little-endian field is digit `i` of the value, base 256. */
  lemma {:induction false} LEDigit(bs: seq<byte>, i: nat)
    requires i < |bs|
    ensures FromLE(bs) / Pow256(i) % 256 == bs[i]
  {
    var more := FromLE(bs[1..]);
    if i == 0 {
      assert FromLE(bs) == bs[0] + 256 * more;
    } else {
      LEDigit(bs[1..], i - 1);
      DropDigit(bs[0], more, Pow256(i - 1));
    }
  }

  lemma DropDigit(b: byte, v: nat, p: nat)
    requires p >= 1
    ensures 256 * p >= 1 && (b + 256 * v) / (256 * p) == v / p
  {
    var q, r := v / p, v % p;
    assert v == p * q + r;
    assert b + 256 * v == (256 * p) * q + (b + 256 * r);
    QuotientIs(b + 256 * v, 256 * p, q, b + 256 * r);
  }

  lemma QuotientIs(x: nat, d: nat, q: nat, r: nat)
    requires r < d && x == d * q + r
    ensures x / d == q
  {
    SameQuotient(d, q, r, x / d, x % d);
  }

  lemma SameQuotient(d: nat, q: nat, r: nat, q2: nat, r2: nat)
    requires r < d && r2 < d && d * q + r == d * q2 + r2
    ensures q == q2
  {
    if q < q2 {
      Spread(d, q, q2);
    } else if q2 < q {
      Spread(d, q2, q);
    }
  }

  lemma Spread(d: nat, q: nat, q2: nat)
    requires q < q2
    ensures d * q + d <= d * q2
  {
    var k := q2 - q - 1;
    assert d * q2 == d * (q + 1 + k) == d * (q + 1) + d * k;
    assert d * k >= 0;
  }

  /** The same in both byte orders: the digits of a field's value are its bytes, from the last one in network order. */
  lemma FieldDigits(bs: seq<byte>, network: bool, i: nat)
    requires i < |bs|
    ensures ReadUint(bs, network) / Pow256(i) % 256 == if network then bs[|bs| - 1 - i] else bs[i]
  {
    if network {
      NetworkOrderMirrors(bs);
      LEDigit(Reversed(bs), i);
    } else {
      LEDigit(bs, i);
    }
  }

  lemma TwoLEBytes(v: nat)
    ensures ToLE(v, 2) == [v % 256, v / 256 % 256]
  {
    assert ToLE(v / 256, 1) == [v / 256 % 256] + ToLE(v / 256 / 256, 0);
  }

  lemma Pow256Values()
    ensures Pow256(1) == 256 && Pow256(2) == 65536 && Pow256(4) == TWO_32 && Pow256(8) == TWO_64
  {
    assert Pow256(4) == 256 * (256 * (256 * (256 * Pow256(0))));
    assert Pow256(8) == 256 * (256 * (256 * (256 * Pow256(4))));
  }

  // ----- concatenation -----

  function Concat(parts: seq<seq<byte>>): seq<byte> {
    if parts == [] then [] else Concat(parts[..|parts| - 1]) + parts[|parts| - 1]
  }

  lemma {:induction false} ConcatAppend(a: seq<seq<byte>>, b: seq<seq<byte>>)
    ensures Concat(a + b) == Concat(a) + Concat(b)
  {
    if b == [] {
      assert a + b == a;
    } else {
      ConcatAppend(a, b[..|b| - 1]);
      InitOfAppend(a, b);
      Assoc(Concat(a), Concat(b[..|b| - 1]), b[|b| - 1]);
    }
  }

  lemma Assoc<T>(a: seq<T>, b: seq<T>, c: seq<T>)
    ensures (a + b) + c == a + (b + c)
  {
  }

  lemma InitOfAppend<T>(a: seq<T>, b: seq<T>)
    requires b != []
    ensures (a + b)[..|a + b| - 1] == a + b[..|b| - 1]
    ensures (a + b)[|a + b| - 1] == b[|b| - 1]
  {
  }

  lemma HeadAndTail<T>(xs: seq<T>, ys: seq<T>)
    requires xs != []
    ensures xs + ys == [xs[0]] + (xs[1..] + ys)
  {
  }

  /** The bytes of the first `k` parts are a prefix of all the bytes. */
  lemma ConcatPrefix(parts: seq<seq<byte>>, k: nat)
    requires k <= |parts|
    ensures Concat(parts) == Concat(parts[..k]) + Concat(parts[k..])
  {
    ConcatAppend(parts[..k], parts[k..]);
    assert parts[..k] + parts[k..] == parts;
  }
}
