/** The sample-id extender of the DSF logger: the hub numbers each sensor's
    reports with an 8-bit sequence number, and the logger widens it to a
    64-bit sample id by counting how often the number went backwards. */
module SampleId {
  import opened Common

  const TWO_64: nat := 0x1_0000_0000_0000_0000
  type uint64 = x: nat | x < TWO_64
  /** An 8-bit sequence number, as a number. */
  type uint8 = x: nat | x < 256

  /** The extender: whether `extend` has never been called, the count of
      wraps (64 bits) and the last sequence number. */
  datatype Extender = Extender(empty: bool, msb: uint64, lsb: uint8)

  /** A fresh extender. */
  function New(): Extender {
    Extender(true, 0, 0)
  }

  /** The 64-bit id an extender stands at: the wrap count shifted left by
      eight within 64 bits, with the last sequence number below it. */
  function Value(e: Extender): uint64 {
    KeptCount(e.msb) * 256 + e.lsb
  }

  /** The part of a wrap count a 64-bit left shift by eight keeps: the top
      eight bits fall off. */
  function KeptCount(m: nat): (r: nat)
    ensures r < TWO_56
  {
    m % TWO_56
  }

  const TWO_56: nat := 0x100_0000_0000_0000

  /** `extend`: a sequence number below the last one counts a wrap (the count
      itself wraps at 2^64); the result is the id the extender then stands at. */
  function Extend(e: Extender, s: uint8): (r: (Extender, uint64))
    ensures !r.0.empty && r.0.lsb == s && r.1 == Value(r.0)
  {
    var msb := if s >= e.lsb then e.msb else if e.msb + 1 == TWO_64 then 0 else e.msb + 1;
    var e' := Extender(false, msb, s);
    (e', Value(e'))
  }

  /** A fresh extender is empty, and one that has been extended never is. */
  lemma EmptyUntilExtended(e: Extender, s: uint8)
    ensures New().empty
    ensures !Extend(e, s).0.empty
  {
  }

  /** The low eight bits of every extended id are the sequence number. */
  lemma ExtendKeepsSequence(e: Extender, s: uint8)
    ensures Extend(e, s).1 % 256 == s
  {
    SplitByte(s, KeptCount(Extend(e, s).0.msb));
  }

  /** The first id of a fresh extender is its sequence number. */
  lemma FirstExtend(s: uint8)
    ensures Extend(New(), s).1 == s
  {
  }

  /** Below 2^56 wraps the shift loses nothing. */
  lemma ValueExact(e: Extender)
    requires e.msb < TWO_56
    ensures Value(e) == e.msb * 256 + e.lsb
  {
  }

  /** The wrap count grows by one exactly when the sequence number went
      backwards; while fewer than 2^56 - 1 wraps have been counted, the ids
      never decrease and grow exactly when the sequence number changed. */
  lemma ExtendOrder(e: Extender, s: uint8)
    requires e.msb + 1 < TWO_56
    ensures Extend(e, s).0.msb == e.msb + 1 <==> s < e.lsb
    ensures Extend(e, s).0.msb == e.msb <==> s >= e.lsb
    ensures Extend(e, s).1 >= Value(e)
    ensures Extend(e, s).1 > Value(e) <==> s != e.lsb
  {
    var (e', v') := Extend(e, s);
    ValueExact(e);
    ValueExact(e');
    OrderArith(e.msb, e.lsb, Value(e), e'.msb, s, v');
  }

  /** The arithmetic behind `ExtendOrder`, away from the 64-bit shift. */
  lemma OrderArith(m: nat, l: nat, v: nat, m': nat, x: nat, v': nat)
    requires l < 256 && x < 256 && v == m * 256 + l && v' == m' * 256 + x
    requires m' == if x < l then m + 1 else m
    ensures v' >= v && (v' > v <==> x != l)
  {
  }

  /** The ids a run of sequence numbers receives, in order. */
  function ExtendAll(e: Extender, s: seq<uint8>): (r: seq<uint64>)
    ensures |r| == |s|
    decreases |s|
  {
    if |s| == 0 then [] else
      var (e', v) := Extend(e, s[0]);
      [v] + ExtendAll(e', s[1..])
  }

  /** The extender after a run of sequence numbers. */
  function After(e: Extender, s: seq<uint8>): Extender
    decreases |s|
  {
    if |s| == 0 then e else After(Extend(e, s[0]).0, s[1..])
  }

  /** How often a run of sequence numbers steps backwards, starting from
      `last`. */
  function Descents(last: uint8, s: seq<uint8>): (n: nat)
    ensures n <= |s|
    decreases |s|
  {
    if |s| == 0 then 0
    else (if s[0] < last then 1 else 0) + Descents(s[0], s[1..])
  }

  /** Reference reading of an extended id: every id is the number of
      backward steps so far, shifted left by eight, plus the sequence
      number (when fewer than 2^56 - |s| wraps were counted before). */
  lemma {:induction false} ExtendAllCounts(e: Extender, s: seq<uint8>)
    requires e.msb + |s| < TWO_56
    ensures forall i :: 0 <= i < |s| ==>
              ExtendAll(e, s)[i] == (e.msb + Descents(e.lsb, s[..i + 1])) * 256 + s[i]
    ensures After(e, s).msb == e.msb + Descents(e.lsb, s)
    decreases |s|
  {
    if |s| > 0 {
      var (e', v) := Extend(e, s[0]);
      var d := if s[0] < e.lsb then 1 else 0;
      assert e'.msb == e.msb + d;
      ValueExact(e');
      ExtendAllCounts(e', s[1..]);
      forall i | 0 <= i < |s|
        ensures ExtendAll(e, s)[i] == (e.msb + Descents(e.lsb, s[..i + 1])) * 256 + s[i]
      {
        DescentsCons(e.lsb, s, i + 1);
        if i > 0 {
          assert s[1..][..i] == s[..i + 1][1..];
        }
      }
      assert s[1..] == s[..|s|][1..];
      DescentsCons(e.lsb, s, |s|);
      assert s[..|s|] == s;
    }
  }

  /** Counting backward steps over a non-empty prefix: the first step, then
      the rest from the first number. */
  lemma DescentsCons(last: uint8, s: seq<uint8>, k: nat)
    requires 0 < k <= |s|
    ensures Descents(last, s[..k]) == (if s[0] < last then 1 else 0) + Descents(s[0], s[1..][..k - 1])
  {
    assert s[..k][1..] == s[1..][..k - 1];
  }

  /** From a fresh extender the ids never decrease along a run, as long as the
      run is shorter than 2^56 reports. */
  lemma ExtendAllSorted(s: seq<uint8>, i: nat, j: nat)
    requires |s| < TWO_56 && i <= j < |s|
    ensures ExtendAll(New(), s)[i] <= ExtendAll(New(), s)[j]
  {
    ExtendAllCounts(New(), s);
    DescentsPrefix(New().lsb, s, i + 1, j + 1);
  }

  /** Between two prefixes, the backward steps of the longer one are at
      least those of the shorter one, plus one when the last number went
      down. */
  lemma {:induction false} DescentsPrefix(last: uint8, s: seq<uint8>, a: nat, b: nat)
    requires 0 < a <= b <= |s|
    ensures Descents(last, s[..a]) <= Descents(last, s[..b])
    ensures a < b && s[b - 1] < s[a - 1] ==> Descents(last, s[..a]) < Descents(last, s[..b])
    decreases |s|
  {
    DescentsCons(last, s, a);
    DescentsCons(last, s, b);
    if a > 1 {
      DescentsPrefix(s[0], s[1..], a - 1, b - 1);
    } else if a < b {
      DescentsFirst(s[0], s[1..][..b - 1], s[b - 1] < s[0]);
    }
  }

  /** A run that ends below its start has stepped backwards at least once. */
  lemma {:induction false} DescentsFirst(last: uint8, s: seq<uint8>, down: bool)
    requires |s| > 0 && down == (s[|s| - 1] < last)
    ensures down ==> Descents(last, s) > 0
    decreases |s|
  {
    if down && s[0] >= last && |s| > 1 {
      DescentsFirst(s[0], s[1..], s[|s| - 1] < s[0]);
    }
  }
}
