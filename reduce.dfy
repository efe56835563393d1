/**
 * The collective reduce, all ranks simulated together. Rank r's send argument
 * is sends[r]; the reduced unit i is, element by element, the fold of every
 * rank's unit i with the operator, computed at the root (its own value first)
 * and written only into the root's receive buffer.
 */
module Reduce {
  import opened Wrappers
  import opened Operators
  import opened Folds
  import opened Layout

  /** The errors a reduce call reports on the rank that detects them. */
  datatype Error =
    | UsageError    // a rank passed neither a send nor a receive buffer
    | SizeMismatch  // the root's supplied receive array is too small for the result

  predicate ValidSends<T>(sends: seq<Send<T>>, count: nat, stride: nat) {
    forall r :: 0 <= r < |sends| ==> ValidSend(sends[r], count, stride)
  }

  /** Every destination of the first `count` units is a unit index. */
  predicate ValidRcvMap(rcvmap: Option<seq<int>>, count: nat) {
    rcvmap.Some? ==> count <= |rcvmap.value| && forall i :: 0 <= i < count ==> 0 <= rcvmap.value[i]
  }

  /** What the ranks contribute, in rank order, to element `k` of reduced unit `i`. */
  function Contributions<T>(sends: seq<Send<T>>, count: nat, stride: nat, i: nat, k: nat): (c: seq<T>)
    requires ValidSends(sends, count, stride) && i < count && k < stride
    ensures |c| == |sends|
  {
    seq(|sends|, r requires 0 <= r < |sends| => sends[r].data[Offset(Unit(sends[r].sndmap, i), k, stride)])
  }

  /** Raw element `j` of every rank's packed buffer. */
  function Column<T>(packed: seq<seq<T>>, j: nat): (c: seq<T>)
    requires forall r :: 0 <= r < |packed| ==> j < |packed[r]|
    ensures |c| == |packed|
  {
    seq(|packed|, r requires 0 <= r < |packed| => packed[r][j])
  }

  /**
   * The root's reduced buffer: each rank packs its units, and the root folds
   * raw element j of all packed buffers, its own first, then the others in rank order.
   */
  function Reduced<T>(op: (T, T) -> T, sends: seq<Send<T>>, count: nat, stride: nat, root: nat): (v: seq<T>)
    requires root < |sends| && ValidSends(sends, count, stride)
    ensures |v| == Span(count, stride)
  {
    var packed := seq(|sends|, r requires 0 <= r < |sends| => Pack(sends[r], count, stride));
    seq(Span(count, stride), j requires 0 <= j < Span(count, stride) => Fold(op, RootOrder(Column(packed, j), root)))
  }

  /** Element k of reduced unit i folds exactly the ranks' element k of their unit i. */
  lemma {:induction false} ReducedAt<T>(op: (T, T) -> T, sends: seq<Send<T>>, count: nat, stride: nat, root: nat, i: nat, k: nat)
    requires root < |sends| && ValidSends(sends, count, stride) && i < count && k < stride
    ensures Offset(i, k, stride) < Span(count, stride)
    ensures Reduced(op, sends, count, stride, root)[Offset(i, k, stride)]
         == Fold(op, RootOrder(Contributions(sends, count, stride, i, k), root))
  {
    SpanMono(i + 1, count, stride);
    var packed := seq(|sends|, r requires 0 <= r < |sends| => Pack(sends[r], count, stride));
    forall r | 0 <= r < |sends|
      ensures packed[r][Offset(i, k, stride)] == sends[r].data[Offset(Unit(sends[r].sndmap, i), k, stride)]
    {
      PackAt(sends[r], count, stride, i, k);
    }
    assert Column(packed, Offset(i, k, stride)) == Contributions(sends, count, stride, i, k);
  }

  /** For a lawful operator, the root's fold is the plain fold over the ranks in rank order. */
  lemma {:induction false} LawfulReducedAt<T(!new)>(op: (T, T) -> T, sends: seq<Send<T>>, count: nat, stride: nat, root: nat, i: nat, k: nat)
    requires Lawful(op) && root < |sends| && ValidSends(sends, count, stride) && i < count && k < stride
    ensures Offset(i, k, stride) < Span(count, stride)
    ensures Reduced(op, sends, count, stride, root)[Offset(i, k, stride)]
         == Fold(op, Contributions(sends, count, stride, i, k))
  {
    ReducedAt(op, sends, count, stride, root, i, k);
    RootFoldIsFold(op, Contributions(sends, count, stride, i, k), root);
  }

  /** For a lawful operator, the reduced values do not depend on which rank is the root. */
  lemma ReducedRootIndependent<T(!new)>(op: (T, T) -> T, sends: seq<Send<T>>, count: nat, stride: nat, r1: nat, r2: nat)
    requires Lawful(op) && r1 < |sends| && r2 < |sends| && ValidSends(sends, count, stride)
    ensures Reduced(op, sends, count, stride, r1) == Reduced(op, sends, count, stride, r2)
  {
    var packed := seq(|sends|, r requires 0 <= r < |sends| => Pack(sends[r], count, stride));
    forall j | 0 <= j < Span(count, stride)
      ensures Reduced(op, sends, count, stride, r1)[j] == Reduced(op, sends, count, stride, r2)[j]
    {
      RootFoldIsFold(op, Column(packed, j), r1);
      RootFoldIsFold(op, Column(packed, j), r2);
    }
  }

  /** The root's receive buffer `buf` after the reduced values are written into it. */
  function RootResult<T>(op: (T, T) -> T, sends: seq<Send<T>>, count: nat, stride: nat, root: nat,
                         rcvmap: Option<seq<int>>, buf: seq<T>): (out: seq<T>)
    requires root < |sends| && ValidSends(sends, count, stride) && ValidRcvMap(rcvmap, count)
    requires Fits(Dest(rcvmap, count), count, stride, |buf|)
    ensures |out| == |buf|
  {
    Deliver(buf, Reduced(op, sends, count, stride, root), Dest(rcvmap, count), count, stride)
  }

  /** Element k of unit i's destination block in the root's buffer holds the fold of that element over the ranks. */
  lemma RootResultAt<T(!new)>(op: (T, T) -> T, sends: seq<Send<T>>, count: nat, stride: nat, root: nat,
                              rcvmap: Option<seq<int>>, buf: seq<T>, i: nat, k: nat)
    requires Lawful(op) && root < |sends| && ValidSends(sends, count, stride) && ValidRcvMap(rcvmap, count)
    requires Fits(Dest(rcvmap, count), count, stride, |buf|) && Injective(Dest(rcvmap, count), count)
    requires i < count && k < stride
    ensures Offset(Dest(rcvmap, count)[i], k, stride) < |buf|
    ensures RootResult(op, sends, count, stride, root, rcvmap, buf)[Offset(Dest(rcvmap, count)[i], k, stride)]
         == Fold(op, Contributions(sends, count, stride, i, k))
  {
    DeliverAt(buf, Reduced(op, sends, count, stride, root), Dest(rcvmap, count), count, stride, i, k);
    LawfulReducedAt(op, sends, count, stride, root, i, k);
  }

  /** A position of the root's buffer outside every destination block keeps its value. */
  lemma RootResultOutside<T>(op: (T, T) -> T, sends: seq<Send<T>>, count: nat, stride: nat, root: nat,
                             rcvmap: Option<seq<int>>, buf: seq<T>, p: int)
    requires root < |sends| && ValidSends(sends, count, stride) && ValidRcvMap(rcvmap, count)
    requires Fits(Dest(rcvmap, count), count, stride, |buf|)
    requires 0 <= p < |buf| && Untouched(Dest(rcvmap, count), count, stride, p)
    ensures RootResult(op, sends, count, stride, root, rcvmap, buf)[p] == buf[p]
  {
    DeliverOutside(buf, Reduced(op, sends, count, stride, root), Dest(rcvmap, count), count, stride, p);
  }

  /**
   * What the root's buffer holds: every destination block holds the fold over
   * the ranks of the matching send unit (when no two units share a destination),
   * and every other element is left as it was.
   */
  lemma DeliveredReduction<T(!new)>(op: (T, T) -> T, sends: seq<Send<T>>, count: nat, stride: nat, root: nat,
                                    rcvmap: Option<seq<int>>, buf: seq<T>)
    requires Lawful(op) && root < |sends| && ValidSends(sends, count, stride) && ValidRcvMap(rcvmap, count)
    requires Fits(Dest(rcvmap, count), count, stride, |buf|)
    ensures forall p :: 0 <= p < |buf| && Untouched(Dest(rcvmap, count), count, stride, p) ==>
              RootResult(op, sends, count, stride, root, rcvmap, buf)[p] == buf[p]
    ensures Injective(Dest(rcvmap, count), count) ==>
              forall i, k :: 0 <= i < count && 0 <= k < stride ==>
                Offset(Dest(rcvmap, count)[i], k, stride) < |buf| &&
                RootResult(op, sends, count, stride, root, rcvmap, buf)[Offset(Dest(rcvmap, count)[i], k, stride)]
                  == Fold(op, Contributions(sends, count, stride, i, k))
  {
    var dst := Dest(rcvmap, count);
    forall p | 0 <= p < |buf| && Untouched(dst, count, stride, p)
      ensures RootResult(op, sends, count, stride, root, rcvmap, buf)[p] == buf[p]
    {
      RootResultOutside(op, sends, count, stride, root, rcvmap, buf, p);
    }
    if Injective(dst, count) {
      forall i, k | 0 <= i < count && 0 <= k < stride
        ensures Offset(dst[i], k, stride) < |buf|
        ensures RootResult(op, sends, count, stride, root, rcvmap, buf)[Offset(dst[i], k, stride)]
             == Fold(op, Contributions(sends, count, stride, i, k))
      {
        RootResultAt(op, sends, count, stride, root, rcvmap, buf, i, k);
      }
    }
  }

  /** Without a receive map, a buffer of exactly the extent ends up holding the reduced values and nothing else. */
  lemma {:induction false} DenseResult<T>(op: (T, T) -> T, sends: seq<Send<T>>, count: nat, stride: nat, root: nat, buf: seq<T>)
    requires root < |sends| && ValidSends(sends, count, stride) && |buf| == Span(count, stride)
    ensures Fits(Dest(None, count), count, stride, |buf|)
    ensures RootResult(op, sends, count, stride, root, None, buf) == Reduced(op, sends, count, stride, root)
  {
    DeliverDense(buf, Reduced(op, sends, count, stride, root), count, stride);
  }

  // ---------------------------------------------------------------------------
  // Container form: reduce(op, in_values[, in_map], out_values[, out_map], root[, stride])

  /** The number of units a container call reduces: the send map's length, or the container's size over stride. */
  function ContainerCount<T>(s: Send<T>, stride: nat): nat
    requires stride > 0
  {
    if s.sndmap.Some? then |s.sndmap.value| else |s.data| / stride
  }

  /** A container call all ranks agree on: same stride, same root, same number of units, maps in range. */
  predicate ContainerCall<T>(sends: seq<Send<T>>, rcv: seq<seq<T>>, rcvmap: Option<seq<int>>, root: nat, stride: nat) {
    && 0 < |sends| == |rcv| && root < |sends| && stride > 0
    && (forall r :: 0 <= r < |sends| && sends[r].sndmap.None? ==> |sends[r].data| % stride == 0)
    && (forall r :: 0 <= r < |sends| ==> ContainerCount(sends[r], stride) == ContainerCount(sends[root], stride))
    && ValidSends(sends, ContainerCount(sends[root], stride), stride)
    && ValidRcvMap(rcvmap, ContainerCount(sends[root], stride))
  }

  /** The root's container before the reduced values are written: grown to the extent if shorter, new elements `blank`. */
  function Grown<T>(out: seq<T>, e: nat, blank: T): (buf: seq<T>)
    ensures |buf| == if |out| < e then e else |out|
    ensures forall p :: 0 <= p < |buf| ==> buf[p] == if p < |out| then out[p] else blank
  {
    if |out| < e then out + seq(e - |out|, _ => blank) else out
  }

  /**
   * Every rank's output container after the call. Non-roots keep theirs, even
   * when it is the same container as their send data. The root's is resized
   * to the extent when shorter (an empty one included, new elements
   * value-initialised to `blank`) and then filled.
   */
  function ReduceContainers<T(!new)>(op: (T, T) -> T, blank: T, sends: seq<Send<T>>, rcv: seq<seq<T>>,
                                     rcvmap: Option<seq<int>>, root: nat, stride: nat): (res: seq<seq<T>>)
    requires Lawful(op) && ContainerCall(sends, rcv, rcvmap, root, stride)
    ensures var count := ContainerCount(sends[root], stride);
            var e := Extent(Dest(rcvmap, count), count, stride);
            && |res| == |rcv|
            && (forall r :: 0 <= r < |rcv| && r != root ==> res[r] == rcv[r])
            && |res[root]| == (if |rcv[root]| < e then e else |rcv[root]|)
            && (forall p :: 0 <= p < |res[root]| && Untouched(Dest(rcvmap, count), count, stride, p) ==>
                  res[root][p] == if p < |rcv[root]| then rcv[root][p] else blank)
            && (Injective(Dest(rcvmap, count), count) ==>
                  forall i, k :: 0 <= i < count && 0 <= k < stride ==>
                    Offset(Dest(rcvmap, count)[i], k, stride) < |res[root]| &&
                    res[root][Offset(Dest(rcvmap, count)[i], k, stride)]
                      == Fold(op, Contributions(sends, count, stride, i, k)))
  {
    var count := ContainerCount(sends[root], stride);
    var buf := Grown(rcv[root], Extent(Dest(rcvmap, count), count, stride), blank);
    DeliveredReduction(op, sends, count, stride, root, rcvmap, buf);
    rcv[root := RootResult(op, sends, count, stride, root, rcvmap, buf)]
  }

  /** The root's container after a container call is its grown container, filled. */
  lemma ContainersResult<T(!new)>(op: (T, T) -> T, blank: T, sends: seq<Send<T>>, rcv: seq<seq<T>>,
                                  rcvmap: Option<seq<int>>, root: nat, stride: nat, buf: seq<T>)
    requires Lawful(op) && ContainerCall(sends, rcv, rcvmap, root, stride)
    requires var count := ContainerCount(sends[root], stride);
             buf == Grown(rcv[root], Extent(Dest(rcvmap, count), count, stride), blank)
    ensures Fits(Dest(rcvmap, ContainerCount(sends[root], stride)), ContainerCount(sends[root], stride), stride, |buf|)
    ensures ReduceContainers(op, blank, sends, rcv, rcvmap, root, stride)
         == rcv[root := RootResult(op, sends, ContainerCount(sends[root], stride), stride, root, rcvmap, buf)]
  {
  }

  // ---------------------------------------------------------------------------
  // Pointer form: reduce(op, in_values, in_n[, in_map], out_values, [out_map,] root[, stride])

  /** Different ranks never share memory; within one rank send and receive may be the same array. */
  ghost predicate Separate<T>(snd: seq<array?<T>>, rcv: seq<array?<T>>)
    requires |snd| == |rcv|
  {
    forall r, q :: 0 <= r < |snd| && 0 <= q < |snd| && r != q ==>
      && (snd[r] != null ==> snd[r] != snd[q] && snd[r] != rcv[q])
      && (rcv[r] != null ==> rcv[r] != rcv[q])
  }

  /** The send arguments of all ranks, as values. */
  function Snapshot<T>(snd: seq<array?<T>>, sndmaps: seq<Option<seq<int>>>): (sends: seq<Send<T>>)
    requires |snd| == |sndmaps| && forall r :: 0 <= r < |snd| ==> snd[r] != null
    reads set r | 0 <= r < |snd| :: snd[r]
    ensures |sends| == |snd|
    ensures forall r :: 0 <= r < |snd| ==> sends[r] == Send(snd[r][..], sndmaps[r])
  {
    seq(|snd|, r requires 0 <= r < |snd| reads set r | 0 <= r < |snd| :: snd[r] => Send(snd[r][..], sndmaps[r]))
  }

  /** A pointer call all ranks agree on: same count, stride and root; every send map in range. */
  ghost predicate PointerCall<T>(snd: seq<array?<T>>, sndmaps: seq<Option<seq<int>>>, count: nat,
                                 rcv: seq<array?<T>>, rcvmap: Option<seq<int>>, root: nat, stride: nat)
    reads set r | 0 <= r < |snd| :: snd[r]
  {
    && 0 < |snd| == |sndmaps| == |rcv| && root < |snd| && stride > 0
    && Separate(snd, rcv)
    && (forall r :: 0 <= r < |snd| && snd[r] != null ==> ValidSend(Send(snd[r][..], sndmaps[r]), count, stride))
    && ValidRcvMap(rcvmap, count)
  }

  /**
   * The root's side of a pointer call: `given` is the receive pointer it
   * passed, `vals` the reduced values. A null pointer gets a fresh array of
   * exactly the extent; a supplied array that is too short is rejected;
   * otherwise the supplied array is overwritten in place.
   */
  method FillRoot<T(0,!new)>(op: (T, T) -> T, ghost sends: seq<Send<T>>, vals: seq<T>, count: nat,
                             given: array?<T>, rcvmap: Option<seq<int>>, root: nat, stride: nat)
    returns (res: Result<array<T>, Error>)
    requires Lawful(op) && root < |sends| && ValidSends(sends, count, stride) && ValidRcvMap(rcvmap, count)
    requires vals == Reduced(op, sends, count, stride, root)
    modifies given
    ensures res.Failure? <==> given != null && given.Length < Extent(Dest(rcvmap, count), count, stride)
    ensures res.Failure? ==> res.error == SizeMismatch && (given != null ==> given[..] == old(given[..]))
    ensures res.Success? && given != null ==>
              res.value == given && given[..] == RootResult(op, sends, count, stride, root, rcvmap, old(given[..]))
    ensures res.Success? && given == null ==>
              && fresh(res.value)
              && res.value.Length == Extent(Dest(rcvmap, count), count, stride)
              && (Injective(Dest(rcvmap, count), count) ==>
                    forall i, k :: 0 <= i < count && 0 <= k < stride ==>
                      Offset(Dest(rcvmap, count)[i], k, stride) < res.value.Length &&
                      res.value[Offset(Dest(rcvmap, count)[i], k, stride)]
                        == Fold(op, Contributions(sends, count, stride, i, k)))
  {
    var dst := Dest(rcvmap, count);
    var e := Extent(dst, count, stride);
    var out: array<T>;
    if given == null {
      out := new T[e];
    } else if given.Length < e {
      return Failure(SizeMismatch);
    } else {
      out := given;
    }
    ghost var before := out[..];
    WriteUnits(out, vals, dst, count, stride);
    DeliveredReduction(op, sends, count, stride, root, rcvmap, before);
    res := Success(out);
  }

  /**
   * One pointer-form reduce on every rank. Non-roots get back the pointer they
   * passed (null stays null) and their memory is untouched, even when the send
   * and receive buffers are the same array. The root gets the array it passed,
   * overwritten, or, for null, a fresh array of exactly the extent.
   */
  method ReducePointers<T(0,!new)>(op: (T, T) -> T, snd: seq<array?<T>>, sndmaps: seq<Option<seq<int>>>, count: nat,
                                   rcv: seq<array?<T>>, rcvmap: Option<seq<int>>, root: nat, stride: nat)
    returns (res: Result<seq<array?<T>>, Error>)
    requires Lawful(op) && PointerCall(snd, sndmaps, count, rcv, rcvmap, root, stride)
    modifies rcv[root]
    ensures (exists r :: 0 <= r < |snd| && snd[r] == null) ==> res == Failure(UsageError)
    ensures (forall r :: 0 <= r < |snd| ==> snd[r] != null) ==>
              (res.Failure? <==> rcv[root] != null && rcv[root].Length < Extent(Dest(rcvmap, count), count, stride)) &&
              (res.Failure? ==> res.error == SizeMismatch)
    ensures res.Failure? && rcv[root] != null ==> rcv[root][..] == old(rcv[root][..])
    ensures res.Success? ==>
              && (forall r :: 0 <= r < |snd| ==> snd[r] != null)
              && |res.value| == |rcv|
              && (forall r :: 0 <= r < |rcv| && r != root ==> res.value[r] == rcv[r])
              && (forall r :: 0 <= r < |rcv| && r != root && rcv[r] != null ==> rcv[r][..] == old(rcv[r][..]))
              && res.value[root] != null
              && (rcv[root] != null ==>
                    && res.value[root] == rcv[root]
                    && rcv[root][..] == RootResult(op, old(Snapshot(snd, sndmaps)), count, stride, root, rcvmap, old(rcv[root][..])))
              && (rcv[root] == null ==>
                    && fresh(res.value[root])
                    && res.value[root].Length == Extent(Dest(rcvmap, count), count, stride)
                    && (Injective(Dest(rcvmap, count), count) ==>
                          forall i, k :: 0 <= i < count && 0 <= k < stride ==>
                            Offset(Dest(rcvmap, count)[i], k, stride) < res.value[root].Length &&
                            res.value[root][Offset(Dest(rcvmap, count)[i], k, stride)]
                              == Fold(op, Contributions(old(Snapshot(snd, sndmaps)), count, stride, i, k))))
  {
    var r := 0;
    while r < |snd|
      invariant 0 <= r <= |snd|
      invariant forall q :: 0 <= q < r ==> snd[q] != null
    {
      if snd[r] == null {
        return Failure(UsageError);
      }
      r := r + 1;
    }
    var sends := Snapshot(snd, sndmaps);
    assert ValidSends(sends, count, stride);
    var vals := Reduced(op, sends, count, stride, root);
    var out := FillRoot(op, sends, vals, count, rcv[root], rcvmap, root, stride);
    if out.Failure? {
      return Failure(out.error);
    }
    res := Success(rcv[root := out.value]);
  }
}
