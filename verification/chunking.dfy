/** Cutting an application image into consecutive pieces of at most `n`
    bytes, as both update procedures do, and counting the pieces. */
module Chunking {
  import opened Common

  /** The bytes of a sequence of pieces, in order. */
  function Concat(ss: seq<seq<byte>>): seq<byte>
    decreases |ss|
  {
    if |ss| == 0 then [] else ss[0] + Concat(ss[1..])
  }

  /** The application cut into pieces of `n` bytes, the last one shorter when
      `n` does not divide its length. */
  function Chunks(d: seq<byte>, n: nat): (r: seq<seq<byte>>)
    requires n > 0
    ensures forall i :: 0 <= i < |r| ==> 0 < |r[i]| <= n
    ensures forall i :: 0 <= i < |r| - 1 ==> |r[i]| == n
    ensures Concat(r) == d
    decreases |d|
  {
    if |d| == 0 then []
    else if |d| <= n then
      assert Concat([d]) == d + Concat([]);
      [d]
    else
      var tail := d[n..];
      var rest := Chunks(tail, n);
      ChunksCons(d, n, tail, rest)
  }

  /** The pieces are the first piece, at most `n` bytes, in front of the
      pieces of the rest. */
  lemma ChunksStep(d: seq<byte>, n: nat, size: nat, data: seq<byte>, tail: seq<byte>)
    requires 0 < n && 0 < |d|
    requires size == (if |d| > n then n else |d|) && data == d[..size] && tail == d[size..]
    ensures Chunks(d, n) == [data] + Chunks(tail, n)
  {
    if |d| <= n {
      assert data == d && tail == [];
    } else {
      var r := Chunks(d, n);
      assert r[1..] == Chunks(tail, n);
      assert r == [r[0]] + r[1..];
    }
  }

  /** There are as many pieces as `n` goes into the length, rounded up. */
  lemma {:induction false} ChunkCount(d: seq<byte>, n: nat)
    requires n > 0
    ensures |Chunks(d, n)| == (|d| + n - 1) / n
    decreases |d|
  {
    if |d| == 0 {
    } else if |d| <= n {
      CeilOne(|d|, n);
    } else {
      var tail := d[n..];
      ChunkCount(tail, n);
      ChunksLonger(d, n, tail);
      CountStep(|Chunks(d, n)|, |Chunks(tail, n)|, |d|, |tail|, n);
    }
  }

  /** The number of pieces of `n` bytes, the last possibly shorter, that
      `len` bytes make, counted one piece at a time. */
  function Pieces(len: nat, n: nat): nat
    requires n > 0
    decreases len
  {
    if len == 0 then 0 else if len <= n then 1 else 1 + Pieces(len - n, n)
  }

  /** Counted one at a time, the pieces are as many as `n` goes into the
      length, rounded up. */
  lemma {:induction false} PiecesIsCeiling(len: nat, n: nat)
    requires n > 0
    ensures Pieces(len, n) == (len + n - 1) / n
    decreases len
  {
    if len > n {
      PiecesIsCeiling(len - n, n);
      CeilStep(len, n, len - n);
    } else if len > 0 {
      CeilOne(len, n);
    }
  }

  /** The application makes as many pieces as its length counts. */
  lemma {:induction false} ChunkPieces(d: seq<byte>, n: nat)
    requires n > 0
    ensures |Chunks(d, n)| == Pieces(|d|, n)
    decreases |d|
  {
    if |d| > n {
      ChunkPieces(d[n..], n);
      ChunksLonger(d, n, d[n..]);
    }
  }

  /** A longer application has one more piece than its tail. */
  lemma ChunksLonger(d: seq<byte>, n: nat, tail: seq<byte>)
    requires 0 < n < |d| && tail == d[n..]
    ensures |Chunks(d, n)| == |Chunks(tail, n)| + 1
  {
  }

  /** A piece in front of the pieces of the rest. */
  function ChunksCons(d: seq<byte>, n: nat, tail: seq<byte>, rest: seq<seq<byte>>): (r: seq<seq<byte>>)
    requires 0 < n < |d| && tail == d[n..] && Concat(rest) == tail
    ensures |r| == |rest| + 1 && r[0] == d[..n] && r[1..] == rest && Concat(r) == d
    ensures forall i :: 1 <= i < |r| ==> r[i] == rest[i - 1]
  {
    var r := [d[..n]] + rest;
    assert r[1..] == rest;
    assert d[..n] + tail == d;
    r
  }

  /** The count for a longer application from its tail's count. */
  lemma CountStep(c: nat, ct: nat, len: nat, lt: nat, n: nat)
    requires 0 < n < len && lt == len - n && c == ct + 1 && ct == (lt + n - 1) / n
    ensures c == (len + n - 1) / n
  {
    CeilStep(len, n, lt);
  }

  /** One piece holds up to `n` bytes. */
  lemma CeilOne(len: nat, n: nat)
    requires 0 < len <= n
    ensures (len + n - 1) / n == 1
  {
  }

  /** Taking a full piece off takes one off the piece count. */
  lemma CeilStep(len: nat, n: nat, rest: nat)
    requires 0 < n < len && rest == len - n
    ensures (len + n - 1) / n == (rest + n - 1) / n + 1
  {
    var x := rest + n - 1;
    var q, m := x / n, x % n;
    assert x == q * n + m;
    assert x + n == (q + 1) * n + m by {
      assert (q + 1) * n == q * n + n;
    }
    DivUnique(x + n, n, q + 1, m);
  }

  /** The quotient is the one `q` with `a == q * n + m` for a remainder `m`
      below `n`. */
  lemma DivUnique(a: nat, n: nat, q: nat, m: nat)
    requires 0 < n && a == q * n + m && m < n
    ensures a / n == q
  {
    var q', m' := a / n, a % n;
    assert a == q' * n + m';
    if q' > q {
      MulMono(q + 1, q', n);
      assert false;
    } else if q' < q {
      MulMono(q' + 1, q, n);
      assert false;
    }
  }

  lemma MulMono(a: nat, b: nat, n: nat)
    requires a <= b
    ensures a * n <= b * n
  {
    assert b * n == a * n + (b - a) * n;
  }

  /** The `i`-th piece is the `n` bytes from `n * i` on, or what is left of
      them. */
  lemma ChunkAt(d: seq<byte>, n: nat, i: nat, lo: nat, hi: nat)
    requires n > 0 && i < |Chunks(d, n)| && lo == n * i && hi == Min(lo + n, |d|)
    ensures lo < |d| && d[lo..hi] == Chunks(d, n)[i]
  {
    OffsetIsProduct(n, i);
    PieceAt(d, n, i, lo, hi);
  }

  /** Where the `i`-th piece starts: `i` steps of `n`. */
  function Offset(n: nat, i: nat): nat {
    if i == 0 then 0 else Offset(n, i - 1) + n
  }

  lemma {:induction false} OffsetIsProduct(n: nat, i: nat)
    ensures Offset(n, i) == n * i
  {
    if i > 0 {
      OffsetIsProduct(n, i - 1);
      assert n * i == n * (i - 1) + n;
    }
  }

  /** The `i`-th piece, its start counted in steps. */
  lemma {:induction false} PieceAt(d: seq<byte>, n: nat, i: nat, lo: nat, hi: nat)
    requires n > 0 && i < |Chunks(d, n)| && lo == Offset(n, i) && hi == Min(lo + n, |d|)
    ensures lo < |d| && d[lo..hi] == Chunks(d, n)[i]
    decreases |d|
  {
    if i == 0 {
      FirstChunk(d, n, hi);
    } else {
      var tail := d[n..];
      LaterChunk(d, n, i, tail);
      var lo' := Offset(n, i - 1);
      var hi' := Min(lo' + n, |tail|);
      PieceAt(tail, n, i - 1, lo', hi');
      ShiftedChunk(d, n, i, tail, lo, hi, lo', hi');
    }
  }

  /** The smaller of two numbers. */
  function Min(a: nat, b: nat): (r: nat)
    ensures r <= a && r <= b && (r == a || r == b)
  {
    if a < b then a else b
  }

  /** The `i`-th piece from the `(i-1)`-th piece of what follows the first. */
  lemma ShiftedChunk(d: seq<byte>, n: nat, i: nat, tail: seq<byte>, lo: nat, hi: nat, lo': nat, hi': nat)
    requires n > 0 && 0 < i && n < |d| && tail == d[n..] && i - 1 < |Chunks(tail, n)|
    requires Chunks(d, n)[i] == Chunks(tail, n)[i - 1]
    requires lo == lo' + n && hi == Min(lo + n, |d|) && hi' == Min(lo' + n, |tail|)
    requires lo' < |tail| && tail[lo'..hi'] == Chunks(tail, n)[i - 1]
    ensures lo < |d| && d[lo..hi] == Chunks(d, n)[i]
  {
    ShiftedPiece(d, tail, n, lo, hi, lo', hi');
  }

  /** A piece of what follows the first `n` bytes, as a piece of the whole. */
  lemma ShiftedPiece(d: seq<byte>, tail: seq<byte>, n: nat, lo: nat, hi: nat, lo': nat, hi': nat)
    requires n <= |d| && tail == d[n..] && lo == lo' + n && hi == Min(lo + n, |d|) && hi' == Min(lo' + n, |tail|)
    requires lo' < |tail|
    ensures lo < |d| && hi == hi' + n && tail[lo'..hi'] == d[lo..hi]
  {
  }

  /** The first piece. */
  lemma FirstChunk(d: seq<byte>, n: nat, hi: nat)
    requires n > 0 && 0 < |Chunks(d, n)| && hi == Min(n, |d|)
    ensures 0 < |d| && d[..hi] == Chunks(d, n)[0]
  {
  }

  /** Every piece but the first is a piece of what follows the first. */
  lemma LaterChunk(d: seq<byte>, n: nat, i: nat, tail: seq<byte>)
    requires n > 0 && 0 < i < |Chunks(d, n)| && tail == d[n..]
    ensures n < |d| && i - 1 < |Chunks(tail, n)| && Chunks(d, n)[i] == Chunks(tail, n)[i - 1]
  {
  }
}
