/** The down-sampling step of the image tool (index.js, `generateImage`):
    with a width w set, the L parsed calls are reduced to B = w*w bins, bin i
    taking the maximum of the calls between ceil(i*L/B) and floor((i+1)*L/B),
    or 0 when that range is empty. The boundaries are computed here in exact
    integer arithmetic. */
module Binning {
  import opened Js
  import opened Arith

  /** Math.ceil(i * binSize) with binSize = L / B; never past the input. */
  function Lo(len: nat, b: nat, i: nat): (lo: nat)
    requires b > 0
    ensures i <= b ==> lo <= len
  {
    var x := i * len + b - 1;
    if i <= b then
      MulLe(i, b, len);
      DivMono(x, b * len + b - 1, b);
      DivIs(b * len + b - 1, b, len);
      x / b
    else x / b
  }

  /** Math.floor((i + 1) * binSize) with binSize = L / B; never past the input. */
  function Hi(len: nat, b: nat, i: nat): (hi: nat)
    requires b > 0
    ensures i < b ==> hi <= len
  {
    var y := (i + 1) * len;
    if i < b then
      MulLe(i + 1, b, len);
      DivMono(y, b * len, b);
      DivIs(b * len, b, len);
      y / b
    else y / b
  }

  /** Math.max(...chunk) for a non-empty chunk. */
  function MaxOf(s: seq<Byte>): (m: Byte)
    requires |s| > 0
    ensures exists k :: 0 <= k < |s| && s[k] == m
    ensures forall k :: 0 <= k < |s| ==> s[k] <= m
  {
    if |s| == 1 then s[0]
    else
      var m0 := MaxOf(s[..|s| - 1]);
      assert forall k :: 0 <= k < |s| - 1 ==> s[..|s| - 1][k] == s[k];
      if s[|s| - 1] > m0 then s[|s| - 1] else m0
  }

  /** The end of chunk i never passes the start of chunk i + 1. */
  lemma Bounds(len: nat, b: nat, i: nat)
    requires 0 < b && i < b
    ensures Hi(len, b, i) <= Lo(len, b, i + 1)
  {
    var y := (i + 1) * len;
    assert Lo(len, b, i + 1) == (y + b - 1) / b;
    DivMono(y, y + b - 1, b);
  }

  lemma {:induction false} LoMono(len: nat, b: nat, i: nat, j: nat)
    requires 0 < b && i <= j
    ensures Lo(len, b, i) <= Lo(len, b, j)
  {
    MulLe(i, j, len);
    DivMono(i * len + b - 1, j * len + b - 1, b);
  }

  // ---------------------------------------------------------------------
  // The bins
  // ---------------------------------------------------------------------

  /** parsed.slice(ceil(i*binSize), floor((i+1)*binSize)) */
  function Chunk(parsed: seq<Byte>, b: nat, i: nat): (c: seq<Byte>)
    requires i < b
    ensures |c| == 0 <==> Hi(|parsed|, b, i) <= Lo(|parsed|, b, i)
    ensures |c| > 0 ==> c == parsed[Lo(|parsed|, b, i)..Hi(|parsed|, b, i)]
  {
    var lo := Lo(|parsed|, b, i);
    var hi := Hi(|parsed|, b, i);
    if lo < hi then parsed[lo..hi] else []
  }

  /** The binned vector: the maximum of each non-empty chunk, 0 for an empty one. */
  function Binned(parsed: seq<Byte>, b: nat): (r: seq<Byte>)
    ensures |r| == b
  {
    seq(b, i requires 0 <= i < b => if |Chunk(parsed, b, i)| > 0 then MaxOf(Chunk(parsed, b, i)) else 0)
  }

  lemma BinAt(parsed: seq<Byte>, b: nat, i: nat)
    requires i < b
    ensures Binned(parsed, b)[i] == if |Chunk(parsed, b, i)| > 0 then MaxOf(Chunk(parsed, b, i)) else 0
  {
  }

  /** The binning loop: a zeroed Uint8Array of B entries, each non-empty
      chunk's maximum written into its bin. */
  method BinMax(parsed: seq<Byte>, b: nat) returns (binned: array<Byte>)
    ensures binned[..] == Binned(parsed, b)
  {
    ghost var target := Binned(parsed, b);
    binned := new Byte[b](_ => 0);
    for i := 0 to b
      invariant binned[..i] == target[..i]
      invariant forall k :: i <= k < b ==> binned[k] == 0
    {
      var chunk := Chunk(parsed, b, i);
      BinAt(parsed, b, i);
      ghost var done := binned[..i];
      if |chunk| > 0 {
        binned[i] := MaxOf(chunk);
      }
      assert binned[..i] == done;
      assert binned[..i + 1] == done + [target[i]];
      assert target[..i + 1] == target[..i] + [target[i]];
    }
    assert binned[..] == binned[..b];
  }

  // ---------------------------------------------------------------------
  // What the bins mean
  // ---------------------------------------------------------------------

  /** Chunks of different bins never share an input position, and they come
      in input order. */
  lemma ChunksDisjoint(len: nat, b: nat, i: nat, j: nat)
    requires i < j < b
    ensures Hi(len, b, i) <= Lo(len, b, j)
  {
    Bounds(len, b, i);
    LoMono(len, b, i + 1, j);
  }

  /** A bin is the largest call of its chunk: it is one of them and no call
      of the chunk exceeds it; an empty chunk leaves the bin at 0. */
  lemma BinIsChunkMax(parsed: seq<Byte>, b: nat, i: nat)
    requires i < b
    ensures var lo, hi := Lo(|parsed|, b, i), Hi(|parsed|, b, i);
      (lo < hi ==>
        (forall p :: lo <= p < hi ==> parsed[p] <= Binned(parsed, b)[i]) &&
        (exists p :: lo <= p < hi && parsed[p] == Binned(parsed, b)[i])) &&
      (hi <= lo ==> Binned(parsed, b)[i] == 0)
  {
    var lo, hi := Lo(|parsed|, b, i), Hi(|parsed|, b, i);
    if lo < hi {
      var c := Chunk(parsed, b, i);
      var m := MaxOf(c);
      forall p | lo <= p < hi
        ensures parsed[p] <= m
      {
        assert c[p - lo] == parsed[p];
      }
      var k :| 0 <= k < |c| && c[k] == m;
      assert parsed[lo + k] == m;
    }
  }

  /** With as many bins as calls, every chunk is the single call at its own
      position and the binning changes nothing. */
  lemma BinningIdentity(parsed: seq<Byte>)
    ensures Binned(parsed, |parsed|) == parsed
  {
    var len := |parsed|;
    forall i | 0 <= i < len
      ensures Binned(parsed, len)[i] == parsed[i]
    {
      DivIs(i * len + len - 1, len, i);
      DivIs((i + 1) * len, len, i + 1);
      assert Chunk(parsed, len, i) == [parsed[i]];
    }
  }

  /** When B divides L, chunk i is exactly the i-th run of L/B consecutive
      calls: the chunks cut the input into equal pieces with none left over. */
  lemma EqualPieces(len: nat, b: nat, i: nat)
    requires 0 < b && len % b == 0 && i < b
    ensures Lo(len, b, i) == i * (len / b)
    ensures Hi(len, b, i) == (i + 1) * (len / b)
  {
    var k := len / b;
    assert len == k * b;
    assert i * len == (i * k) * b;
    DivIs(i * len + b - 1, b, i * k);
    assert (i + 1) * len == ((i + 1) * k) * b;
    DivIs((i + 1) * len, b, (i + 1) * k);
  }

  /** A call that straddles the boundary of two bins belongs to neither:
      with 5 calls and width 2 (4 bins) the chunks are [0,1), [2,2), [3,3)
      and [4,5), so the three hom-alt calls in the middle do not reach the
      binned vector. */
  lemma StraddlingCallsDropped()
    ensures Binned([0, 2, 2, 2, 0], 4) == [0, 0, 0, 0]
  {
    var parsed: seq<Byte> := [0, 2, 2, 2, 0];
    assert Lo(5, 4, 0) == 0 && Hi(5, 4, 0) == 1;
    assert Lo(5, 4, 1) == 2 && Hi(5, 4, 1) == 2;
    assert Lo(5, 4, 2) == 3 && Hi(5, 4, 2) == 3;
    assert Lo(5, 4, 3) == 4 && Hi(5, 4, 3) == 5;
    assert Chunk(parsed, 4, 0) == [0] && Chunk(parsed, 4, 3) == [0];
    assert |Chunk(parsed, 4, 1)| == 0 && |Chunk(parsed, 4, 2)| == 0;
    var r := Binned(parsed, 4);
    assert r[0] == 0 && r[1] == 0 && r[2] == 0 && r[3] == 0;
  }
}
