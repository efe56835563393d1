/**
 * The mapped buffer layout of a reduce call. Every logical unit is a block of
 * `stride` raw elements; unit `i` of a send buffer is the block at unit index
 * sndmap[i] (or `i` without a map), and the reduced unit `i` is written to the
 * receive block at rcvmap[i] (or `i`). Map entries count blocks, not elements.
 */
module Layout {
  import opened Wrappers

  /** Number of raw elements in `units` blocks of `stride` elements (units * stride, kept linear). */
  function Span(units: nat, stride: nat): nat {
    if units == 0 then 0 else Span(units - 1, stride) + stride
  }

  /** Raw offset of element `k` of the block with unit index `unit`. */
  function Offset(unit: nat, k: nat, stride: nat): nat {
    Span(unit, stride) + k
  }

  lemma {:induction false} SpanMono(a: nat, b: nat, stride: nat)
    requires a <= b
    ensures Span(a, stride) <= Span(b, stride)
    decreases b
  {
    if a < b {
      SpanMono(a, b - 1, stride);
    }
  }

  lemma {:induction false} SpanIsProduct(units: nat, stride: nat)
    ensures Span(units, stride) == units * stride
    decreases units
  {
    if units > 0 {
      SpanIsProduct(units - 1, stride);
    }
  }

  /** Blocks of distinct unit indices do not overlap. */
  lemma BlocksDisjoint(a: nat, b: nat, k: nat, stride: nat)
    requires a != b && k < stride
    ensures !(Offset(b, 0, stride) <= Offset(a, k, stride) < Offset(b, stride, stride))
  {
    if a < b {
      SpanMono(a + 1, b, stride);
    } else {
      SpanMono(b + 1, a, stride);
    }
  }

  /** The unit index unit `i` is read from or written to: through the map, or `i` itself. */
  function Unit(m: Option<seq<int>>, i: nat): int
    requires m.Some? ==> i < |m.value|
  {
    if m.Some? then m.value[i] else i
  }

  /** One rank's send argument: its raw buffer and its optional send map. */
  datatype Send<T> = Send(data: seq<T>, sndmap: Option<seq<int>>)

  /** The first `count` units of `s` name blocks that lie inside its buffer. */
  predicate ValidSend<T>(s: Send<T>, count: nat, stride: nat) {
    && (s.sndmap.Some? ==> count <= |s.sndmap.value|)
    && forall i :: 0 <= i < count ==>
         0 <= Unit(s.sndmap, i) && Offset(Unit(s.sndmap, i), stride, stride) <= |s.data|
  }

  /**
   * The contiguous buffer of `count` units a rank contributes: unit `i` is the
   * send block at Unit(sndmap, i).
   */
  function Pack<T>(s: Send<T>, count: nat, stride: nat): (p: seq<T>)
    requires ValidSend(s, count, stride)
    ensures |p| == Span(count, stride)
    decreases count
  {
    if count == 0 then []
    else
      var from := Offset(Unit(s.sndmap, count - 1), 0, stride);
      Pack(s, count - 1, stride) + seq(stride, k requires 0 <= k < stride => s.data[from + k])
  }

  /** Element k of packed unit i is element k of the send block the unit is read from. */
  lemma {:induction false} PackAt<T>(s: Send<T>, count: nat, stride: nat, i: nat, k: nat)
    requires ValidSend(s, count, stride) && i < count && k < stride
    ensures Offset(i, k, stride) < Span(count, stride)
    ensures Pack(s, count, stride)[Offset(i, k, stride)] == s.data[Offset(Unit(s.sndmap, i), k, stride)]
    decreases count
  {
    SpanMono(i + 1, count, stride);
    if i < count - 1 {
      PackAt(s, count - 1, stride, i, k);
    }
  }

  /** The destination unit indices: the receive map, or the identity over `count` units. */
  function Dest(rcvmap: Option<seq<int>>, count: nat): (dst: seq<int>)
    ensures rcvmap.None? ==> |dst| == count && forall i :: 0 <= i < count ==> dst[i] == i
    ensures rcvmap.Some? ==> dst == rcvmap.value
  {
    if rcvmap.Some? then rcvmap.value else seq(count, i => i)
  }

  /** Every destination block of the first `count` units lies in a buffer of `len` elements. */
  predicate Fits(dst: seq<int>, count: nat, stride: nat, len: nat) {
    && count <= |dst|
    && forall i :: 0 <= i < count ==> 0 <= dst[i] && Offset(dst[i], stride, stride) <= len
  }

  /** No two of the first `count` units share a destination block. */
  predicate Injective(dst: seq<int>, count: nat)
    requires count <= |dst|
  {
    forall i, j :: 0 <= i < j < count ==> dst[i] != dst[j]
  }

  /** Raw position `p` lies in the destination block of none of the first `count` units. */
  predicate Untouched(dst: seq<int>, count: nat, stride: nat, p: int)
    requires count <= |dst| && forall i :: 0 <= i < count ==> 0 <= dst[i]
  {
    forall i :: 0 <= i < count ==> !(Offset(dst[i], 0, stride) <= p < Offset(dst[i], stride, stride))
  }

  /** One more than the largest destination unit index, 0 for no units. */
  function UnitsNeeded(dst: seq<int>, count: nat): (m: nat)
    requires count <= |dst| && forall i :: 0 <= i < count ==> 0 <= dst[i]
    ensures forall i :: 0 <= i < count ==> dst[i] < m
    ensures count == 0 ==> m == 0
    ensures count > 0 ==> exists i :: 0 <= i < count && m == dst[i] + 1
    decreases count
  {
    if count == 0 then 0
    else
      var m := UnitsNeeded(dst, count - 1);
      if dst[count - 1] + 1 > m then dst[count - 1] + 1 else m
  }

  /**
   * The size of a receive buffer the engine allocates or resizes: the least
   * length that holds every destination block.
   */
  function Extent(dst: seq<int>, count: nat, stride: nat): (e: nat)
    requires count <= |dst| && forall i :: 0 <= i < count ==> 0 <= dst[i]
    ensures Fits(dst, count, stride, e)
    ensures forall len: nat :: Fits(dst, count, stride, len) ==> e <= len
  {
    var m := UnitsNeeded(dst, count);
    assert forall i :: 0 <= i < count ==> Offset(dst[i], stride, stride) <= Span(m, stride) by {
      forall i | 0 <= i < count ensures Offset(dst[i], stride, stride) <= Span(m, stride) {
        SpanMono(dst[i] + 1, m, stride);
      }
    }
    Span(m, stride)
  }

  /** Destinations 0, 1, ..., n-1 need exactly n blocks. */
  lemma {:induction false} IdentityUnitsNeeded(dst: seq<int>, n: nat)
    requires n <= |dst| && forall i :: 0 <= i < n ==> dst[i] == i
    ensures UnitsNeeded(dst, n) == n
    decreases n
  {
    if n > 0 {
      IdentityUnitsNeeded(dst, n - 1);
    }
  }

  /** Without a receive map the extent is exactly count * stride. */
  lemma {:induction false} DenseExtent(count: nat, stride: nat)
    ensures Extent(Dest(None, count), count, stride) == Span(count, stride)
  {
    IdentityUnitsNeeded(Dest(None, count), count);
  }

  /**
   * The root's receive buffer after the reduced values `vals` are written:
   * unit `i` of `vals` goes to destination block dst[i], in unit order.
   */
  function Deliver<T>(buf: seq<T>, vals: seq<T>, dst: seq<int>, count: nat, stride: nat): (out: seq<T>)
    requires Span(count, stride) <= |vals| && Fits(dst, count, stride, |buf|)
    ensures |out| == |buf|
    decreases count
  {
    if count == 0 then buf
    else
      var w := Deliver(buf, vals, dst, count - 1, stride);
      var off := Offset(dst[count - 1], 0, stride);
      w[..off] + vals[Span(count - 1, stride)..Span(count, stride)] + w[off + stride..]
  }

  /** Positions outside every destination block keep their old value. */
  lemma {:induction false} DeliverOutside<T>(buf: seq<T>, vals: seq<T>, dst: seq<int>, count: nat, stride: nat, p: nat)
    requires Span(count, stride) <= |vals| && Fits(dst, count, stride, |buf|)
    requires p < |buf| && Untouched(dst, count, stride, p)
    ensures Deliver(buf, vals, dst, count, stride)[p] == buf[p]
    decreases count
  {
    if count > 0 {
      DeliverOutside(buf, vals, dst, count - 1, stride, p);
    }
  }

  /** With distinct destinations, element `k` of unit `i` lands at element `k` of block dst[i]. */
  lemma {:induction false} DeliverAt<T>(buf: seq<T>, vals: seq<T>, dst: seq<int>, count: nat, stride: nat, i: nat, k: nat)
    requires Span(count, stride) <= |vals| && Fits(dst, count, stride, |buf|) && Injective(dst, count)
    requires i < count && k < stride
    ensures Offset(dst[i], k, stride) < |buf| && Offset(i, k, stride) < |vals|
    ensures Deliver(buf, vals, dst, count, stride)[Offset(dst[i], k, stride)] == vals[Offset(i, k, stride)]
    decreases count
  {
    SpanMono(i + 1, count, stride);
    if i < count - 1 {
      DeliverAt(buf, vals, dst, count - 1, stride, i, k);
      BlocksDisjoint(dst[i], dst[count - 1], k, stride);
    }
  }

  /** Identity destinations 0 .. count-1 fit in any buffer of count * stride elements. */
  lemma {:induction false} IdentityFits(dst: seq<int>, count: nat, stride: nat, len: nat)
    requires count <= |dst| && forall i :: 0 <= i < count ==> dst[i] == i
    requires Span(count, stride) <= len
    ensures Fits(dst, count, stride, len)
  {
    forall i | 0 <= i < count ensures Offset(dst[i], stride, stride) <= len {
      SpanMono(i + 1, count, stride);
    }
  }

  /** Overwriting block lo .. hi of a buffer whose prefix up to lo already holds `vals` extends that prefix to hi. */
  lemma Splice<T>(vals: seq<T>, buf: seq<T>, lo: nat, hi: nat)
    requires lo <= hi <= |vals| && hi <= |buf|
    ensures var w := vals[..lo] + buf[lo..];
            w[..lo] + vals[lo..hi] + w[hi..] == vals[..hi] + buf[hi..]
  {
    var w := vals[..lo] + buf[lo..];
    assert w[..lo] == vals[..lo];
    assert w[hi..] == buf[hi..];
    assert vals[..lo] + vals[lo..hi] == vals[..hi];
  }

  /** With identity destinations the reduced values replace the first count * stride elements. */
  lemma {:induction false} DeliverIdentity<T>(buf: seq<T>, vals: seq<T>, dst: seq<int>, count: nat, stride: nat)
    requires Span(count, stride) <= |vals| && Span(count, stride) <= |buf|
    requires count <= |dst| && forall i :: 0 <= i < count ==> dst[i] == i
    ensures Fits(dst, count, stride, |buf|)
    ensures Deliver(buf, vals, dst, count, stride) == vals[..Span(count, stride)] + buf[Span(count, stride)..]
    decreases count
  {
    IdentityFits(dst, count, stride, |buf|);
    if count > 0 {
      var lo := Span(count - 1, stride);
      DeliverIdentity(buf, vals, dst, count - 1, stride);
      var hi := Span(count, stride);
      assert Offset(dst[count - 1], 0, stride) == lo;
      Splice(vals, buf, lo, hi);
    }
  }

  /** Without a receive map the reduced values replace the first count * stride elements. */
  lemma {:induction false} DeliverDense<T>(buf: seq<T>, vals: seq<T>, count: nat, stride: nat)
    requires Span(count, stride) <= |vals| && Span(count, stride) <= |buf|
    ensures Fits(Dest(None, count), count, stride, |buf|)
    ensures Deliver(buf, vals, Dest(None, count), count, stride)
         == vals[..Span(count, stride)] + buf[Span(count, stride)..]
  {
    DeliverIdentity(buf, vals, Dest(None, count), count, stride);
  }

  /** One step of Deliver: block dst[n] of the buffer `w` delivered so far receives unit n of `vals`. */
  lemma DeliverStep<T>(buf: seq<T>, vals: seq<T>, dst: seq<int>, n: nat, stride: nat, w: seq<T>, off: nat, base: nat)
    requires Span(n + 1, stride) <= |vals| && Fits(dst, n + 1, stride, |buf|)
    requires w == Deliver(buf, vals, dst, n, stride) && off == Offset(dst[n], 0, stride) && base == Span(n, stride)
    ensures off + stride <= |w| && base + stride <= |vals|
    ensures Deliver(buf, vals, dst, n + 1, stride) == w[..off] + vals[base..base + stride] + w[off + stride..]
  {
  }

  /** Copies vals[base .. base+stride] into block off .. off+stride of `buf`, in place. */
  method WriteBlock<T>(buf: array<T>, vals: seq<T>, off: nat, base: nat, stride: nat)
    requires off + stride <= buf.Length && base + stride <= |vals|
    modifies buf
    ensures buf[..] == old(buf[..])[..off] + vals[base..base + stride] + old(buf[..])[off + stride..]
  {
    ghost var w := buf[..];
    var k := 0;
    while k < stride
      invariant 0 <= k <= stride
      invariant forall p :: 0 <= p < buf.Length ==>
                  buf[p] == if off <= p < off + k then vals[base + p - off] else w[p]
    {
      buf[off + k] := vals[base + k];
      k := k + 1;
    }
    assert buf[..] == w[..off] + vals[base..base + stride] + w[off + stride..];
  }

  /** Writes the reduced values into the root's receive array in place. */
  method WriteUnits<T>(buf: array<T>, vals: seq<T>, dst: seq<int>, count: nat, stride: nat)
    requires Span(count, stride) <= |vals| && Fits(dst, count, stride, buf.Length)
    modifies buf
    ensures buf[..] == Deliver(old(buf[..]), vals, dst, count, stride)
  {
    ghost var orig := buf[..];
    var i := 0;
    var base := 0;
    while i < count
      invariant 0 <= i <= count && base == Span(i, stride)
      invariant Span(i, stride) <= Span(count, stride)
      invariant buf[..] == Deliver(orig, vals, dst, i, stride)
    {
      SpanMono(i + 1, count, stride);
      var off := Offset(dst[i], 0, stride);
      ghost var w := buf[..];
      DeliverStep(orig, vals, dst, i, stride, w, off, base);
      WriteBlock(buf, vals, off, base, stride);
      i := i + 1;
      base := base + stride;
    }
  }
}
