/**
 * Buffer chains.  A queue of received bytes is a chain of segments; it is kept here as
 * its bytes, each marked when it is the first byte of a segment.  Trimming and splitting
 * a chain are then slices: they cut a segment where they fall inside one and keep every
 * other boundary.  The mark of the very first byte says nothing, a chain always starts a
 * segment there.
 */
module Segments {
  import opened MachineInts

  datatype Cell = Cell(value: byte, starts: bool)

  function Bytes(cells: seq<Cell>): (r: seq<byte>)
    ensures |r| == |cells| && forall i :: 0 <= i < |r| ==> r[i] == cells[i].value
  {
    seq(|cells|, i requires 0 <= i < |cells| => cells[i].value)
  }

  lemma BytesSlice(cells: seq<Cell>, i: nat, j: nat)
    requires i <= j <= |cells|
    ensures Bytes(cells[i..j]) == Bytes(cells)[i..j]
    ensures Bytes(cells[j..]) == Bytes(cells)[j..]
  {
  }

  lemma BytesAppend(a: seq<Cell>, b: seq<Cell>)
    ensures Bytes(a + b) == Bytes(a) + Bytes(b)
  {
  }

  /**
   * One socket read.  The bytes are written after the last segment when it has room for
   * them (`joined`), and into a new segment otherwise; which of the two happens is up to
   * the allocator.
   */
  datatype Arrival = Arrival(bytes: seq<byte>, joined: bool)

  function Stamp(a: Arrival): (r: seq<Cell>)
    ensures |r| == |a.bytes| && Bytes(r) == a.bytes
    ensures forall i :: 0 <= i < |r| ==> (r[i].starts <==> i == 0 && !a.joined)
  {
    var r := seq(|a.bytes|, i requires 0 <= i < |a.bytes| => Cell(a.bytes[i], i == 0 && !a.joined));
    assert Bytes(r) == a.bytes;
    r
  }

  // ----- the segments of a chain -----

  /** No segment begins at an offset in `lo + 1 .. hi - 1`. */
  predicate Solid(cells: seq<Cell>, lo: nat, hi: nat)
    requires hi <= |cells|
  {
    forall q :: lo < q < hi ==> !cells[q].starts
  }

  /** The length of the first segment, known to be at least `n`. */
  function FirstLength(cells: seq<Cell>, n: nat): (r: nat)
    requires 1 <= n <= |cells| && Solid(cells, 0, n)
    ensures n <= r <= |cells| && Solid(cells, 0, r)
    ensures r < |cells| ==> cells[r].starts
    decreases |cells| - n
  {
    if n == |cells| || cells[n].starts then n else FirstLength(cells, n + 1)
  }

  /** The chain itself. */
  function Chain(cells: seq<Cell>): (chain: seq<seq<byte>>)
    ensures cells != [] ==> chain != [] && chain[0] == Bytes(cells)[..FirstLength(cells, 1)]
    ensures forall s :: s in chain ==> s != []
  {
    if cells == [] then []
    else
      var n := FirstLength(cells, 1);
      BytesSlice(cells, 0, n);
      [Bytes(cells[..n])] + Chain(cells[n..])
  }

  lemma FirstSegment(chain: seq<seq<byte>>)
    requires chain != []
    ensures Concat(chain) == chain[0] + Concat(chain[1..])
  {
    var first: seq<seq<byte>> := chain[..1];
    ConcatPrefix(chain, 1);
    assert first[..0] == [];
    assert Concat(first) == Concat(first[..0]) + chain[0];
  }

  /** The segments, put together, are the bytes. */
  lemma {:induction false} ChainBytes(cells: seq<Cell>)
    ensures Concat(Chain(cells)) == Bytes(cells)
    decreases |cells|
  {
    if cells != [] {
      var n := FirstLength(cells, 1);
      ChainBytes(cells[n..]);
      ChainStep(cells, n);
      FirstSegment(Chain(cells));
    }
  }

  /** A chain is its first segment and the chain of what follows. */
  lemma ChainStep(cells: seq<Cell>, n: nat)
    requires cells != [] && n == FirstLength(cells, 1)
    ensures Chain(cells) != [] && Chain(cells)[1..] == Chain(cells[n..])
    ensures Chain(cells)[0] + Bytes(cells[n..]) == Bytes(cells)
  {
    BytesAppend(cells[..n], cells[n..]);
    assert cells[..n] + cells[n..] == cells;
  }

  /** There is one segment exactly when no later byte begins one. */
  lemma OneSegmentIff(cells: seq<Cell>)
    requires cells != []
    ensures |Chain(cells)| == 1 <==> Solid(cells, 0, |cells|)
    ensures Chain(cells)[0] == Bytes(cells) <==> Solid(cells, 0, |cells|)
  {
    var n := FirstLength(cells, 1);
    assert Chain(cells) == [Bytes(cells[..n])] + Chain(cells[n..]);
    if n < |cells| {
      assert cells[n].starts;
      assert Chain(cells[n..]) != [];
    } else {
      assert cells[n..] == [];
      assert cells[..n] == cells;
    }
  }

  lemma {:induction false} ConcatEmptyIff(chain: seq<seq<byte>>)
    ensures Concat(chain) == [] <==> forall i :: 0 <= i < |chain| ==> chain[i] == []
  {
    if chain != [] {
      var n := |chain| - 1;
      ConcatEmptyIff(chain[..n]);
      assert |Concat(chain)| == |Concat(chain[..n])| + |chain[n]|;
    }
  }
}
