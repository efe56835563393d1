/**
 * The reduce test cases as statements about the model: for every choice of
 * root, the root's receive storage ends up holding what each test case
 * checks, computed from the fixture's data.
 */
module Scenarios {
  import opened Wrappers
  import opened Operators
  import opened Folds
  import opened Layout
  import opened Reduce
  import opened OpTests
  import opened Fixture

  // ---------------------------------------------------------------------------
  // Folds over the values the ranks contribute

  /** Every rank's scalar in reduce_most_common_ops: rank + 1. */
  function Ramp(n: nat): (s: seq<int>)
    ensures |s| == n
  {
    seq(n, r => r + 1)
  }

  /** 1 * 2 * ... * n, the product the test accumulates. */
  function Factorial(n: nat): nat {
    if n == 0 then 1 else Factorial(n - 1) * n
  }

  lemma RampPrefix(n: nat)
    requires n > 1
    ensures Ramp(n)[..n - 1] == Ramp(n - 1) && Ramp(n)[n - 1] == n
  {
  }

  lemma {:induction false} FoldPlusRamp(n: nat)
    requires n > 0
    ensures Fold(Plus, Ramp(n)) == RankSum(n, 1)
    decreases n
  {
    if n > 1 {
      RampPrefix(n);
      FoldPlusRamp(n - 1);
    }
  }

  lemma {:induction false} FoldMultipliesRamp(n: nat)
    requires n > 0
    ensures Fold(Multiplies, Ramp(n)) == Factorial(n)
    decreases n
  {
    if n > 1 {
      RampPrefix(n);
      FoldMultipliesRamp(n - 1);
    }
  }

  lemma {:induction false} FoldMaxRamp(n: nat)
    requires n > 0
    ensures Fold(Max, Ramp(n)) == n
    decreases n
  {
    if n > 1 {
      RampPrefix(n);
      FoldMaxRamp(n - 1);
    }
  }

  lemma {:induction false} FoldMinRamp(n: nat)
    requires n > 0
    ensures Fold(Min, Ramp(n)) == 1
    decreases n
  {
    if n > 1 {
      RampPrefix(n);
      FoldMinRamp(n - 1);
    }
  }

  /** Every rank's element of slot i in the fixture's send data: (rank + 1) * 10000 + (i + 1). */
  function SlotColumn(n: nat, i: int): (s: seq<int>)
    ensures |s| == n
  {
    seq(n, r => (r + 1) * 10000 + (i + 1))
  }

  lemma {:induction false} FoldPlusSlot(n: nat, i: int)
    requires n > 0
    ensures Fold(Plus, SlotColumn(n, i)) == SlotSum(n, i)
    decreases n
  {
    if n > 1 {
      assert SlotColumn(n, i)[..n - 1] == SlotColumn(n - 1, i);
      FoldPlusSlot(n - 1, i);
    }
  }

  /** `xs` with `c` added to every element. */
  function Shifted(xs: seq<int>, c: int): (s: seq<int>)
    ensures |s| == |xs| && forall r :: 0 <= r < |xs| ==> s[r] == xs[r] + c
  {
    seq(|xs|, r requires 0 <= r < |xs| => xs[r] + c)
  }

  /** Adding c to every contribution adds c times the group size to their sum. */
  lemma {:induction false} FoldPlusShifted(xs: seq<int>, c: int)
    requires |xs| > 0
    ensures Fold(Plus, Shifted(xs, c)) == Fold(Plus, xs) + c * |xs|
    decreases |xs|
  {
    var m := |xs|;
    if m > 1 {
      assert Shifted(xs, c)[..m - 1] == Shifted(xs[..m - 1], c);
      FoldPlusShifted(xs[..m - 1], c);
    }
  }

  /** The widened data adds k = 0 to the first element of a pair and k = 1 to the second. */
  lemma {:induction false} FoldPlusWidened(xs: seq<int>, k: nat)
    requires |xs| > 0 && k < 2
    ensures Fold(Plus, Shifted(xs, k)) == Fold(Plus, xs) + (if k == 0 then 0 else |xs|)
  {
    if k == 0 {
      FoldPlusShifted(xs, 0);
    } else {
      FoldPlusShifted(xs, 1);
    }
  }

  /** Every rank's optest after init. */
  function InitColumn(n: nat): (s: seq<OpTest>)
    ensures |s| == n
  {
    seq(n, (r: nat) requires r < n => Init(r))
  }

  lemma {:induction false} FoldAddInit(n: nat)
    requires n > 0
    ensures Fold(Add, InitColumn(n)) == OpTest(RankSum(n, 1), RankSum(n, 10))
    decreases n
  {
    if n > 1 {
      assert InitColumn(n)[..n - 1] == InitColumn(n - 1);
      FoldAddInit(n - 1);
    }
  }

  /**
   * The expected values of reduce_most_common_ops, accumulated as the test
   * does: the sum and the product of rank + 1 over all ranks.
   */
  method ExpectedSumAndProduct(nproc: nat) returns (itest: int, iprod: int)
    ensures 2 * itest == nproc * (nproc + 1)
    ensures iprod == Factorial(nproc)
  {
    itest := 0;
    iprod := 1;
    var i := 0;
    while i < nproc
      invariant 0 <= i <= nproc
      invariant itest == RankSum(i, 1) && iprod == Factorial(i)
    {
      itest := itest + i + 1;
      iprod := iprod * (i + 1);
      i := i + 1;
    }
    RankSumClosedForm(nproc, 1);
  }

  lemma {:induction false} SpanOne(u: nat)
    ensures Span(u, 1) == u
  {
    SpanIsProduct(u, 1);
  }

  lemma {:induction false} SpanTwo(u: nat)
    ensures Span(u, 2) == 2 * u
  {
    SpanIsProduct(u, 2);
  }

  // ---------------------------------------------------------------------------
  // reduce_most_common_ops: one int per rank, rank + 1

  function ScalarSends(n: nat): (s: seq<Send<int>>)
    ensures |s| == n
  {
    seq(n, r => Send([r + 1], None))
  }

  /** The ranks' only elements, in rank order, are 1 .. n. */
  lemma ScalarColumn(n: nat)
    ensures ValidSends(ScalarSends(n), 1, 1)
    ensures Contributions(ScalarSends(n), 1, 1, 0, 0) == Ramp(n)
  {
    assert ValidSends(ScalarSends(n), 1, 1);
    assert Contributions(ScalarSends(n), 1, 1, 0, 0) == Ramp(n);
  }

  /** A one-element reduce into a one-element buffer leaves exactly the fold of rank + 1 over all ranks. */
  lemma ScalarResult(op: (int, int) -> int, n: nat, root: nat, buf: seq<int>)
    requires Lawful(op) && root < n && |buf| == 1
    ensures ValidSends(ScalarSends(n), 1, 1) && Fits(Dest(None, 1), 1, 1, |buf|)
    ensures RootResult(op, ScalarSends(n), 1, 1, root, None, buf) == [Fold(op, Ramp(n))]
  {
    var sends := ScalarSends(n);
    ScalarColumn(n);
    DenseResult(op, sends, 1, 1, root, buf);
    LawfulReducedAt(op, sends, 1, 1, root, 0, 0);
    var r := Reduced(op, sends, 1, 1, root);
    SpanOne(1);
    assert r == [r[0]];
  }

  /**
   * reduce_most_common_ops, for every root: plus leaves the sum of rank + 1,
   * multiplies the factorial of the group size, max the group size, min 1.
   */
  lemma {:induction false} MostCommonOps(nproc: nat, root: nat, buf: seq<int>)
    requires root < nproc && |buf| == 1
    ensures Lawful(Plus) && Lawful(Multiplies) && Lawful(Max) && Lawful(Min)
    ensures ValidSends(ScalarSends(nproc), 1, 1) && Fits(Dest(None, 1), 1, 1, |buf|)
    ensures var sum := RootResult(Plus, ScalarSends(nproc), 1, 1, root, None, buf);
            sum == [RankSum(nproc, 1)] && 2 * sum[0] == nproc * (nproc + 1)
    ensures RootResult(Multiplies, ScalarSends(nproc), 1, 1, root, None, buf) == [Factorial(nproc)]
    ensures RootResult(Max, ScalarSends(nproc), 1, 1, root, None, buf) == [nproc]
    ensures RootResult(Min, ScalarSends(nproc), 1, 1, root, None, buf) == [1]
  {
    PlusIsLawful();
    MultipliesIsLawful();
    MaxIsLawful();
    MinIsLawful();
    assert RootResult(Plus, ScalarSends(nproc), 1, 1, root, None, buf) == [RankSum(nproc, 1)] by {
      ScalarResult(Plus, nproc, root, buf);
      FoldPlusRamp(nproc);
    }
    assert 2 * RankSum(nproc, 1) == nproc * (nproc + 1) by {
      RankSumClosedForm(nproc, 1);
    }
    assert RootResult(Multiplies, ScalarSends(nproc), 1, 1, root, None, buf) == [Factorial(nproc)] by {
      ScalarResult(Multiplies, nproc, root, buf);
      FoldMultipliesRamp(nproc);
    }
    assert RootResult(Max, ScalarSends(nproc), 1, 1, root, None, buf) == [nproc] by {
      ScalarResult(Max, nproc, root, buf);
      FoldMaxRamp(nproc);
    }
    assert RootResult(Min, ScalarSends(nproc), 1, 1, root, None, buf) == [1] by {
      ScalarResult(Min, nproc, root, buf);
      FoldMinRamp(nproc);
    }
  }

  // ---------------------------------------------------------------------------
  // reduce_operator_of_class: three optest values per rank, all from init

  function ClassSends(n: nat): (s: seq<Send<OpTest>>)
    ensures |s| == n
  {
    seq(n, (r: nat) requires r < n => Send([Init(r), Init(r), Init(r)], None))
  }

  /** Each of the three class units folds every rank's init. */
  lemma ClassUnit(nproc: nat, root: nat, j: nat)
    requires root < nproc && j < 3 && ValidSends(ClassSends(nproc), 3, 1)
    ensures Span(3, 1) == 3
    ensures Reduced(Add, ClassSends(nproc), 3, 1, root)[j] == OpTest(RankSum(nproc, 1), RankSum(nproc, 10))
  {
    AddIsLawful();
    SpanOne(3);
    SpanOne(j);
    LawfulReducedAt(Add, ClassSends(nproc), 3, 1, root, j, 0);
    assert Contributions(ClassSends(nproc), 3, 1, j, 0) == InitColumn(nproc);
    FoldAddInit(nproc);
  }

  /**
   * reduce_operator_of_class, for every root: each of the three results is the
   * member-wise sum of every rank's init, which is what optest::test accepts.
   */
  lemma {:induction false} OperatorOfClass(nproc: nat, root: nat, buf: seq<OpTest>)
    requires root < nproc && |buf| == 3
    ensures Lawful(Add) && ValidSends(ClassSends(nproc), 3, 1) && Fits(Dest(None, 3), 3, 1, |buf|)
    ensures var out := RootResult(Add, ClassSends(nproc), 3, 1, root, None, buf);
            && |out| == 3
            && forall j :: 0 <= j < 3 ==>
                 && out[j] == OpTest(RankSum(nproc, 1), RankSum(nproc, 10))
                 && 2 * out[j].ival == nproc * (nproc + 1)
                 && 2 * out[j].dval == nproc * (nproc - 1) + 20 * nproc
  {
    AddIsLawful();
    var sends := ClassSends(nproc);
    assert ValidSends(sends, 3, 1) by {
      forall i | 0 <= i < 3 ensures Offset(Unit(None, i), 1, 1) <= 3 {
        SpanOne(i);
      }
    }
    SpanOne(3);
    DenseResult(Add, sends, 3, 1, root, buf);
    var out := RootResult(Add, sends, 3, 1, root, None, buf);
    var v := OpTest(RankSum(nproc, 1), RankSum(nproc, 10));
    forall j | 0 <= j < 3
      ensures out[j] == v
    {
      ClassUnit(nproc, root, j);
    }
    RankSumTotals(nproc);
  }

  // ---------------------------------------------------------------------------
  // Stride 2: the fixture's widened send data

  /** Every rank's send buffer widened as the fixture builds its stride-2 data: x becomes x, x + 1. */
  function WidenSends(sends: seq<Send<int>>): (w: seq<Send<int>>)
    ensures |w| == |sends|
  {
    seq(|sends|, r requires 0 <= r < |sends| => Send(Widen(sends[r].data, 1), sends[r].sndmap))
  }

  /** Element k of block u of a widened buffer is element u of the plain buffer plus k. */
  lemma {:induction false} WidenedElement(d: seq<int>, u: nat, k: nat)
    requires u < |d| && k < 2
    ensures Offset(u, 0, 1) == u && Offset(u, k, 2) == 2 * u + k && Offset(u, 2, 2) <= |Widen(d, 1)|
    ensures Widen(d, 1)[Offset(u, k, 2)] == d[Offset(u, 0, 1)] + k
  {
    SpanOne(u);
    SpanTwo(u);
    WidenAt(d, 1, u);
  }

  lemma WidenedValid(sends: seq<Send<int>>, count: nat)
    requires ValidSends(sends, count, 1)
    ensures ValidSends(WidenSends(sends), count, 2)
  {
    var w := WidenSends(sends);
    forall r, j | 0 <= r < |sends| && 0 <= j < count
      ensures 0 <= Unit(w[r].sndmap, j) && Offset(Unit(w[r].sndmap, j), 2, 2) <= |w[r].data|
    {
      var u := Unit(sends[r].sndmap, j);
      SpanOne(u);
      WidenedElement(sends[r].data, u, 0);
    }
  }

  /** Element k of unit i of one rank's widened send is element 0 of unit i of its plain send plus k. */
  lemma WidenedUnit(s: Send<int>, count: nat, i: nat, k: nat)
    requires ValidSend(s, count, 1) && i < count && k < 2
    ensures var u := Unit(s.sndmap, i);
            Offset(u, k, 2) < |Widen(s.data, 1)| && Offset(u, 0, 1) < |s.data| &&
            Widen(s.data, 1)[Offset(u, k, 2)] == s.data[Offset(u, 0, 1)] + k
  {
    var u := Unit(s.sndmap, i);
    assert Offset(u, 1, 1) <= |s.data|;
    SpanOne(u);
    WidenedElement(s.data, u, k);
  }

  /** Element k of unit i of the widened data, on every rank, is element 0 of unit i of the plain data plus k. */
  lemma WidenedContributions(sends: seq<Send<int>>, count: nat, i: nat, k: nat)
    requires ValidSends(sends, count, 1) && i < count && k < 2
    ensures ValidSends(WidenSends(sends), count, 2)
    ensures Contributions(WidenSends(sends), count, 2, i, k) == Shifted(Contributions(sends, count, 1, i, 0), k)
  {
    WidenedValid(sends, count);
    var w := WidenSends(sends);
    var c2 := Contributions(w, count, 2, i, k);
    var c1 := Contributions(sends, count, 1, i, 0);
    forall r | 0 <= r < |sends| ensures c2[r] == c1[r] + k {
      assert ValidSend(sends[r], count, 1);
      WidenedUnit(sends[r], count, i, k);
      assert c2[r] == w[r].data[Offset(Unit(w[r].sndmap, i), k, 2)];
      assert w[r].data ==  Widen(sends[r].data, 1);
      assert c1[r] == sends[r].data[Offset(Unit(sends[r].sndmap, i), 0, 1)];
    }
    var sh := Shifted(c1, k);
    assert |c2| == |sh|;
    assert forall r :: 0 <= r < |c2| ==> c2[r] == sh[r];
    assert c2 == sh;

  }

  /** The ranks' sum for element k of unit i of the widened data: the plain sum, plus the group size when k = 1. */
  lemma {:induction false} StrideTwoFold(sends: seq<Send<int>>, count: nat, i: nat, k: nat)
    requires |sends| > 0 && ValidSends(sends, count, 1) && i < count && k < 2
    ensures ValidSends(WidenSends(sends), count, 2)
    ensures Fold(Plus, Contributions(WidenSends(sends), count, 2, i, k))
         == Fold(Plus, Contributions(sends, count, 1, i, 0)) + (if k == 0 then 0 else |sends|)
  {
    WidenedContributions(sends, count, i, k);
    FoldPlusWidened(Contributions(sends, count, 1, i, 0), k);
  }

  /** Element k of reduced unit i of the widened data is element 0 of reduced unit i of the plain data plus k per rank. */
  lemma {:induction false} StrideTwoOffset(sends: seq<Send<int>>, count: nat, root: nat, i: nat, k: nat)
    requires root < |sends| && ValidSends(sends, count, 1) && i < count && k < 2
    ensures ValidSends(WidenSends(sends), count, 2)
    ensures Offset(i, k, 2) < Span(count, 2) && Offset(i, 0, 1) < Span(count, 1)
    ensures Reduced(Plus, WidenSends(sends), count, 2, root)[Offset(i, k, 2)]
         == Reduced(Plus, sends, count, 1, root)[Offset(i, 0, 1)] + (if k == 0 then 0 else |sends|)
  {
    PlusIsLawful();
    StrideTwoFold(sends, count, i, k);
    LawfulReducedAt(Plus, sends, count, 1, root, i, 0);
    LawfulReducedAt(Plus, WidenSends(sends), count, 2, root, i, k);
  }

  /** StrideTwoOffset with the offsets written out: positions 2i and 2i + 1. */
  lemma {:induction false} StrideTwoUnit(sends: seq<Send<int>>, count: nat, root: nat, i: nat, k: nat)
    requires root < |sends| && ValidSends(sends, count, 1) && i < count && k < 2
    ensures ValidSends(WidenSends(sends), count, 2)
    ensures 2 * i + k < 2 * count && Span(count, 2) == 2 * count && Span(count, 1) == count
    ensures Reduced(Plus, WidenSends(sends), count, 2, root)[2 * i + k]
         == Reduced(Plus, sends, count, 1, root)[i] + (if k == 0 then 0 else |sends|)
  {
    StrideTwoOffset(sends, count, root, i, k);
    SpanOne(i);
    SpanTwo(i);
    SpanOne(count);
    SpanTwo(count);
    assert Offset(i, k, 2) == 2 * i + k && Offset(i, 0, 1) == i;
  }

  /**
   * The stride-2 relation of the fixture: reducing the widened data with
   * stride 2 gives the widened reduction, the second element of every unit
   * the first plus the group size (each rank added 1).
   */
  lemma {:induction false} StrideTwoReduced(sends: seq<Send<int>>, count: nat, root: nat)
    requires root < |sends| && ValidSends(sends, count, 1)
    ensures ValidSends(WidenSends(sends), count, 2)
    ensures Reduced(Plus, WidenSends(sends), count, 2, root) == Widen(Reduced(Plus, sends, count, 1, root), |sends|)
  {
    WidenedValid(sends, count);
    var v2 := Reduced(Plus, WidenSends(sends), count, 2, root);
    var v1 := Reduced(Plus, sends, count, 1, root);
    SpanOne(count);
    SpanTwo(count);
    forall i | 0 <= i < |v1|
      ensures v2[2 * i] == v1[i] && v2[2 * i + 1] == v1[i] + |sends|
    {
      StrideTwoUnit(sends, count, root, i, 0);
      StrideTwoUnit(sends, count, root, i, 1);
    }
    SameWiden(v2, v1, |sends|);
  }

  // ---------------------------------------------------------------------------
  // reduce_ptr_constant and reduce_vector_constant

  /** Every rank's send argument after setup_data_constant: its data, no map. */
  function ConstantSends(n: nat): (s: seq<Send<int>>)
    ensures |s| == n
  {
    seq(n, (r: nat) requires r < n => Send(SndConstant(r, n), None))
  }

  lemma ConstantValid(nproc: nat)
    ensures ValidSends(ConstantSends(nproc), 2 * nproc, 1)
  {
    var sends := ConstantSends(nproc);
    forall r, i | 0 <= r < nproc && 0 <= i < 2 * nproc
      ensures 0 <= Unit(sends[r].sndmap, i) && Offset(Unit(sends[r].sndmap, i), 1, 1) <= |sends[r].data|
    {
      SpanOne(i);
    }
  }

  /** Slot i of every rank's constant send data: the fixture's per-slot column. */
  lemma ConstantColumn(nproc: nat, i: nat)
    requires i < 2 * nproc
    ensures ValidSends(ConstantSends(nproc), 2 * nproc, 1)
    ensures Contributions(ConstantSends(nproc), 2 * nproc, 1, i, 0) == SlotColumn(nproc, i)
  {
    ConstantValid(nproc);
    var c := Contributions(ConstantSends(nproc), 2 * nproc, 1, i, 0);
    forall r | 0 <= r < nproc ensures c[r] == SlotColumn(nproc, i)[r] {
      SpanOne(i);
    }
  }

  /**
   * After setup_data_constant, a plus-reduce of sndcnt = 2 * nproc values
   * gives the fixture's expected data on any root, and an engine-sized result
   * has exactly sndcnt elements.
   */
  lemma ConstantReduced(nproc: nat, root: nat)
    requires root < nproc
    ensures ValidSends(ConstantSends(nproc), 2 * nproc, 1)
    ensures Reduced(Plus, ConstantSends(nproc), 2 * nproc, 1, root) == RcvConstant(nproc)
    ensures Extent(Dest(None, 2 * nproc), 2 * nproc, 1) == 2 * nproc
  {
    PlusIsLawful();
    ConstantValid(nproc);
    var sends := ConstantSends(nproc);
    var count := 2 * nproc;
    var v := Reduced(Plus, sends, count, 1, root);
    SpanOne(count);
    forall i | 0 <= i < count ensures v[i] == RcvConstant(nproc)[i] {
      SpanOne(i);
      LawfulReducedAt(Plus, sends, count, 1, root, i, 0);
      ConstantColumn(nproc, i);
      FoldPlusSlot(nproc, i);
    }
    DenseExtent(count, 1);
  }

  /** The stride-2 half of the constant test cases: the widened expected data, 4 * nproc = 2 * sndcnt elements. */
  lemma {:induction false} ConstantStrideTwo(nproc: nat, root: nat)
    requires root < nproc
    ensures ValidSends(WidenSends(ConstantSends(nproc)), 2 * nproc, 2)
    ensures Reduced(Plus, WidenSends(ConstantSends(nproc)), 2 * nproc, 2, root) == Widen(RcvConstant(nproc), nproc)
    ensures Extent(Dest(None, 2 * nproc), 2 * nproc, 2) == 4 * nproc
  {
    ConstantReduced(nproc, root);
    StrideTwoReduced(ConstantSends(nproc), 2 * nproc, root);
    DenseExtent(2 * nproc, 2);
    SpanTwo(2 * nproc);
  }

  /**
   * reduce_ptr_constant with a supplied receive array of sndcnt elements
   * (zero-filled, or the root's own send data for the in-place call): the
   * root's array ends up equal to the expected data.
   */
  lemma PointerConstant(nproc: nat, root: nat, buf: seq<int>)
    requires root < nproc && |buf| == 2 * nproc
    ensures ValidSends(ConstantSends(nproc), 2 * nproc, 1)
    ensures Fits(Dest(None, 2 * nproc), 2 * nproc, 1, |buf|)
    ensures RootResult(Plus, ConstantSends(nproc), 2 * nproc, 1, root, None, buf) == RcvConstant(nproc)
  {
    ConstantReduced(nproc, root);
    SpanOne(2 * nproc);
    DenseResult(Plus, ConstantSends(nproc), 2 * nproc, 1, root, buf);
  }

  /** reduce_ptr_constant with stride 2 and a supplied array of 2 * sndcnt elements: the widened expected data. */
  lemma {:induction false} PointerConstantStrideTwo(nproc: nat, root: nat, buf: seq<int>)
    requires root < nproc && |buf| == 4 * nproc
    ensures ValidSends(WidenSends(ConstantSends(nproc)), 2 * nproc, 2)
    ensures Fits(Dest(None, 2 * nproc), 2 * nproc, 2, |buf|)
    ensures RootResult(Plus, WidenSends(ConstantSends(nproc)), 2 * nproc, 2, root, None, buf)
         == Widen(RcvConstant(nproc), nproc)
  {
    ConstantStrideTwo(nproc, root);
    SpanTwo(2 * nproc);
    DenseResult(Plus, WidenSends(ConstantSends(nproc)), 2 * nproc, 2, root, buf);
  }

  /**
   * reduce_vector_constant: whether the root's container starts empty (and is
   * resized to sndcnt) or already has sndcnt elements (zero-filled, or its own
   * send data in the in-place call), it ends up equal to the expected data;
   * every other rank's container, including an in-place one, is unchanged.
   */
  lemma VectorConstant(nproc: nat, root: nat, rcv: seq<seq<int>>)
    requires root < nproc == |rcv| && |rcv[root]| <= 2 * nproc
    ensures Lawful(Plus) && ContainerCall(ConstantSends(nproc), rcv, None, root, 1)
    ensures ReduceContainers(Plus, 0, ConstantSends(nproc), rcv, None, root, 1) == rcv[root := RcvConstant(nproc)]
  {
    PlusIsLawful();
    ConstantReduced(nproc, root);
    var sends := ConstantSends(nproc);
    assert ContainerCount(sends[root], 1) == 2 * nproc;
    assert ContainerCall(sends, rcv, None, root, 1);
    SpanOne(2 * nproc);
    var buf := Grown(rcv[root], 2 * nproc, 0);
    ContainersResult(Plus, 0, sends, rcv, None, root, 1, buf);
    DenseResult(Plus, sends, 2 * nproc, 1, root, buf);
  }

  lemma ConstantStrideTwoCall(nproc: nat, root: nat, rcv: seq<seq<int>>)
    requires root < nproc == |rcv|
    ensures ContainerCount(WidenSends(ConstantSends(nproc))[root], 2) == 2 * nproc
    ensures ContainerCall(WidenSends(ConstantSends(nproc)), rcv, None, root, 2)
  {
    ConstantStrideTwo(nproc, root);
    var sends := WidenSends(ConstantSends(nproc));
    forall r | 0 <= r < nproc
      ensures |sends[r].data| == 4 * nproc && ContainerCount(sends[r], 2) == 2 * nproc
    {
      assert |SndConstant(r, nproc)| == 2 * nproc;
    }
  }

  /** reduce_vector_constant with stride 2: the root's container becomes the widened expected data, 2 * sndcnt elements. */
  lemma {:induction false} VectorConstantStrideTwo(nproc: nat, root: nat, rcv: seq<seq<int>>)
    requires root < nproc == |rcv| && |rcv[root]| <= 4 * nproc
    ensures Lawful(Plus) && ContainerCall(WidenSends(ConstantSends(nproc)), rcv, None, root, 2)
    ensures ReduceContainers(Plus, 0, WidenSends(ConstantSends(nproc)), rcv, None, root, 2)
         == rcv[root := Widen(RcvConstant(nproc), nproc)]
  {
    PlusIsLawful();
    ConstantStrideTwo(nproc, root);
    ConstantStrideTwoCall(nproc, root, rcv);
    var sends := WidenSends(ConstantSends(nproc));
    SpanTwo(2 * nproc);
    var buf := Grown(rcv[root], 4 * nproc, 0);
    ContainersResult(Plus, 0, sends, rcv, None, root, 2, buf);
    DenseResult(Plus, sends, 2 * nproc, 2, root, buf);
  }

  // ---------------------------------------------------------------------------
  // reduce_ptr_variable and reduce_vector_variable

  /** Every rank's send argument after setup_data_variable: its data and the every-second send map. */
  function VariableSends(n: nat): (s: seq<Send<int>>)
    ensures |s| == n
  {
    seq(n, (r: nat) requires r < n => Send(SndVariable(r, n), Some(SndMapVariable(n))))
  }

  /** The receive map of setup_data_variable. */
  function VariableRcvMap(n: nat): Option<seq<int>> {
    Some(RcvMapVariable(n))
  }

  lemma VariableValid(nproc: nat)
    ensures ValidSends(VariableSends(nproc), nproc, 1) && ValidRcvMap(VariableRcvMap(nproc), nproc)
  {
    var sends := VariableSends(nproc);
    forall r, i | 0 <= r < nproc && 0 <= i < nproc
      ensures 0 <= Unit(sends[r].sndmap, i) && Offset(Unit(sends[r].sndmap, i), 1, 1) <= |sends[r].data|
    {
      SpanOne(2 * i);
    }
  }

  /** Unit i of every rank's variable send data is the fixture's per-slot column. */
  lemma VariableColumn(nproc: nat, i: nat)
    requires i < nproc
    ensures ValidSends(VariableSends(nproc), nproc, 1)
    ensures Contributions(VariableSends(nproc), nproc, 1, i, 0) == SlotColumn(nproc, i)
  {
    VariableValid(nproc);
    var sends := VariableSends(nproc);
    var c := Contributions(sends, nproc, 1, i, 0);
    forall r | 0 <= r < nproc ensures c[r] == SlotColumn(nproc, i)[r] {
      assert Unit(sends[r].sndmap, i) == 2 * i;
      SpanOne(2 * i);
      SndVariableAt(r, nproc, i);
      assert c[r] == SndVariable(r, nproc)[2 * i];
    }
  }

  /** The inverting receive map sends distinct units to distinct blocks. */
  lemma VariableInjective(nproc: nat)
    ensures Injective(Dest(VariableRcvMap(nproc), nproc), nproc)
  {
  }

  /** The largest destination of the inverting receive map is unit 2(nproc-1), taken by slot 0. */
  lemma {:induction false} VariableUnitsNeeded(nproc: nat)
    requires nproc > 0
    ensures UnitsNeeded(Dest(VariableRcvMap(nproc), nproc), nproc) == 2 * nproc - 1
  {
    var dst := Dest(VariableRcvMap(nproc), nproc);
    var m := UnitsNeeded(dst, nproc);
    assert dst[0] == 2 * (nproc - 1);
    var i :| 0 <= i < nproc && m == dst[i] + 1;
    assert dst[i] == 2 * (nproc - 1 - i);
  }

  /** The engine-sized result of the inverting receive map has 2 * nproc - 1 blocks. */
  lemma {:induction false} VariableExtent(nproc: nat, stride: nat)
    requires nproc > 0
    ensures Extent(Dest(VariableRcvMap(nproc), nproc), nproc, stride) == Span(2 * nproc - 1, stride)
  {
    VariableUnitsNeeded(nproc);
  }

  /** Unit i reduces, over the ranks, to the expected value at its destination slot 2(nproc-1-i). */
  lemma VariableUnit(nproc: nat, i: nat)
    requires i < nproc
    ensures ValidSends(VariableSends(nproc), nproc, 1)
    ensures Fold(Plus, Contributions(VariableSends(nproc), nproc, 1, i, 0)) == RcvVariable(nproc)[2 * (nproc - 1 - i)]
  {
    VariableColumn(nproc, i);
    FoldPlusSlot(nproc, i);
    RcvVariableUnit(nproc, i);
  }

  /** Slot 2j is the destination of unit nproc-1-j, whose reduction is the expected value there. */
  lemma VariableUnitAt(nproc: nat, j: nat)
    requires j < nproc
    ensures ValidSends(VariableSends(nproc), nproc, 1)
    ensures Fold(Plus, Contributions(VariableSends(nproc), nproc, 1, nproc - 1 - j, 0)) == RcvVariable(nproc)[2 * j]
  {
    var i := nproc - 1 - j;
    VariableColumn(nproc, i);
    FoldPlusSlot(nproc, i);
    RcvVariableAt(nproc, j);
    assert Fold(Plus, Contributions(VariableSends(nproc), nproc, 1, i, 0)) == SlotSum(nproc, i);
    assert RcvVariable(nproc)[2 * j] == SlotSum(nproc, i);
  }

  lemma VariableFolds(nproc: nat)
    requires nproc > 0
    ensures ValidSends(VariableSends(nproc), nproc, 1)
    ensures forall i :: 0 <= i < nproc ==>
              Fold(Plus, Contributions(VariableSends(nproc), nproc, 1, i, 0)) == RcvVariable(nproc)[2 * (nproc - 1 - i)]
  {
    VariableValid(nproc);
    forall i | 0 <= i < nproc
      ensures Fold(Plus, Contributions(VariableSends(nproc), nproc, 1, i, 0)) == RcvVariable(nproc)[2 * (nproc - 1 - i)]
    {
      VariableUnit(nproc, i);
    }
  }

  /** Odd slots, and slots past the extent, are in no destination block of the inverting map. */
  lemma VariableUntouched(nproc: nat, p: int)
    requires p % 2 == 1 || 2 * nproc - 1 <= p
    ensures Untouched(Dest(VariableRcvMap(nproc), nproc), nproc, 1, p)
  {
    var dst := Dest(VariableRcvMap(nproc), nproc);
    forall i | 0 <= i < nproc ensures !(Offset(dst[i], 0, 1) <= p < Offset(dst[i], 1, 1)) {
      SpanOne(dst[i]);
    }
  }

  /** A buffer of at least 2 * nproc - 1 elements holds every destination block of the inverting map. */
  lemma VariableFits(nproc: nat, len: nat)
    requires 2 * nproc - 1 <= len
    ensures ValidRcvMap(VariableRcvMap(nproc), nproc)
    ensures Fits(Dest(VariableRcvMap(nproc), nproc), nproc, 1, len)
  {
    var dst := Dest(VariableRcvMap(nproc), nproc);
    forall i | 0 <= i < nproc ensures Offset(dst[i], 1, 1) <= len {
      SpanOne(dst[i]);
    }
  }

  /** Slot 2j of the root's buffer receives the reduction of unit nproc-1-j, the expected value there. */
  lemma VariableSlot(nproc: nat, root: nat, buf: seq<int>, j: nat)
    requires root < nproc && 2 * nproc - 1 <= |buf| && j < nproc
    ensures ValidSends(VariableSends(nproc), nproc, 1) && ValidRcvMap(VariableRcvMap(nproc), nproc)
    ensures Fits(Dest(VariableRcvMap(nproc), nproc), nproc, 1, |buf|)
    ensures RootResult(Plus, VariableSends(nproc), nproc, 1, root, VariableRcvMap(nproc), buf)[2 * j]
         == RcvVariable(nproc)[2 * j]
  {
    PlusIsLawful();
    VariableValid(nproc);
    VariableFits(nproc, |buf|);
    VariableInjective(nproc);
    var dst := Dest(VariableRcvMap(nproc), nproc);
    var i := nproc - 1 - j;
    RootResultAt(Plus, VariableSends(nproc), nproc, 1, root, VariableRcvMap(nproc), buf, i, 0);
    VariableUnitAt(nproc, j);
    SpanOne(dst[i]);
    assert Offset(dst[i], 0, 1) == 2 * j;
  }

  /**
   * reduce_ptr_variable and reduce_vector_variable, with a receive buffer of at
   * least 2 * nproc - 1 elements: unit i lands at slot 2(nproc-1-i), so every
   * even slot holds the expected data, and odd slots (and any slots past the
   * extent) keep what the buffer held, as for the in-place non-root copy.
   */
  lemma VariableDelivered(nproc: nat, root: nat, buf: seq<int>)
    requires root < nproc && 2 * nproc - 1 <= |buf|
    ensures ValidSends(VariableSends(nproc), nproc, 1) && ValidRcvMap(VariableRcvMap(nproc), nproc)
    ensures Extent(Dest(VariableRcvMap(nproc), nproc), nproc, 1) == 2 * nproc - 1
    ensures Fits(Dest(VariableRcvMap(nproc), nproc), nproc, 1, |buf|)
    ensures forall i :: 0 <= i < nproc ==>
              Fold(Plus, Contributions(VariableSends(nproc), nproc, 1, i, 0)) == RcvVariable(nproc)[2 * (nproc - 1 - i)]
    ensures var out := RootResult(Plus, VariableSends(nproc), nproc, 1, root, VariableRcvMap(nproc), buf);
            && (forall j :: 0 <= j < nproc ==> out[2 * j] == RcvVariable(nproc)[2 * j])
            && (forall p :: 0 <= p < |buf| && (p % 2 == 1 || 2 * nproc - 1 <= p) ==> out[p] == buf[p])
  {
    VariableValid(nproc);
    VariableFits(nproc, |buf|);
    VariableExtent(nproc, 1);
    SpanOne(2 * nproc - 1);
    VariableFolds(nproc);
    var sends := VariableSends(nproc);
    var dst := Dest(VariableRcvMap(nproc), nproc);
    var out := RootResult(Plus, sends, nproc, 1, root, VariableRcvMap(nproc), buf);
    forall j | 0 <= j < nproc ensures out[2 * j] == RcvVariable(nproc)[2 * j] {
      VariableSlot(nproc, root, buf, j);
    }
    forall p | 0 <= p < |buf| && (p % 2 == 1 || 2 * nproc - 1 <= p) ensures out[p] == buf[p] {
      VariableUntouched(nproc, p);
      DeliverOutside(buf, Reduced(Plus, sends, nproc, 1, root), dst, nproc, 1, p);
    }
  }

  /** A buffer of at least 4 * nproc - 2 elements holds every stride-2 destination block of the inverting map. */
  lemma VariableFitsTwo(nproc: nat, len: nat)
    requires 4 * nproc - 2 <= len
    ensures ValidRcvMap(VariableRcvMap(nproc), nproc)
    ensures Fits(Dest(VariableRcvMap(nproc), nproc), nproc, 2, len)
  {
    var dst := Dest(VariableRcvMap(nproc), nproc);
    forall i | 0 <= i < nproc ensures Offset(dst[i], 2, 2) <= len {
      SpanTwo(dst[i]);
    }
  }

  /** With stride 2, element k of unit i sums to the expected slot value plus k per rank. */
  lemma {:induction false} VariableFoldTwo(nproc: nat, i: nat, k: nat)
    requires i < nproc && k < 2
    ensures ValidSends(WidenSends(VariableSends(nproc)), nproc, 2)
    ensures Fold(Plus, Contributions(WidenSends(VariableSends(nproc)), nproc, 2, i, k))
         == SlotSum(nproc, i) + (if k == 0 then 0 else nproc)
  {
    VariableValid(nproc);
    StrideTwoFold(VariableSends(nproc), nproc, i, k);
    VariableColumn(nproc, i);
    FoldPlusSlot(nproc, i);
  }

  /** The fixture's widened expected data at positions 4j and 4j + 1. */
  lemma {:induction false} VariableExpectedTwo(nproc: nat, j: nat)
    requires j < nproc
    ensures 4 * j + 1 < |Widen(RcvVariable(nproc), nproc)|
    ensures Widen(RcvVariable(nproc), nproc)[4 * j] == SlotSum(nproc, nproc - 1 - j)
    ensures Widen(RcvVariable(nproc), nproc)[4 * j + 1] == SlotSum(nproc, nproc - 1 - j) + nproc
  {
    var rv := RcvVariable(nproc);
    var w := Widen(rv, nproc);
    var u := 2 * j;
    RcvVariableAt(nproc, j);
    WidenAt(rv, nproc, u);
  }

  /** With stride 2, element k of unit nproc-1-j reduces to the widened expected data at 4j + k. */
  lemma {:induction false} VariableUnitTwo(nproc: nat, j: nat, k: nat)
    requires j < nproc && k < 2
    ensures ValidSends(WidenSends(VariableSends(nproc)), nproc, 2)
    ensures 4 * j + k < |Widen(RcvVariable(nproc), nproc)|
    ensures Fold(Plus, Contributions(WidenSends(VariableSends(nproc)), nproc, 2, nproc - 1 - j, k))
         == Widen(RcvVariable(nproc), nproc)[4 * j + k]
  {
    VariableFoldTwo(nproc, nproc - 1 - j, k);
    var v := Fold(Plus, Contributions(WidenSends(VariableSends(nproc)), nproc, 2, nproc - 1 - j, k));
    ExpectedTwoAt(nproc, j, k, v);
  }

  lemma ExpectedTwoAt(nproc: nat, j: nat, k: nat, v: int)
    requires j < nproc && k < 2
    requires v == SlotSum(nproc, nproc - 1 - j) + (if k == 0 then 0 else nproc)
    ensures 4 * j + k < |Widen(RcvVariable(nproc), nproc)| && v == Widen(RcvVariable(nproc), nproc)[4 * j + k]
  {
    VariableExpectedTwo(nproc, j);
  }

  /** With stride 2, positions 4j and 4j + 1 receive the reduction of unit nproc-1-j, the widened expected data. */
  lemma {:induction false} VariableStrideTwoSlot(nproc: nat, root: nat, buf: seq<int>, j: nat, k: nat)
    requires root < nproc && 4 * nproc - 2 <= |buf| && j < nproc && k < 2
    requires ValidSends(WidenSends(VariableSends(nproc)), nproc, 2) && ValidRcvMap(VariableRcvMap(nproc), nproc)
    requires Fits(Dest(VariableRcvMap(nproc), nproc), nproc, 2, |buf|)
    ensures RootResult(Plus, WidenSends(VariableSends(nproc)), nproc, 2, root, VariableRcvMap(nproc), buf)[4 * j + k]
         == Widen(RcvVariable(nproc), nproc)[4 * j + k]
  {
    var w := WidenSends(VariableSends(nproc));
    var i := nproc - 1 - j;
    VariableResultTwoAt(nproc, root, buf, i, k);
    VariableUnitTwo(nproc, j, k);
    VariableOffsetTwo(nproc, j, k);
    // Naming the three terms lets the last step close by congruence over the lemmas' equalities.
    var rr := RootResult(Plus, w, nproc, 2, root, VariableRcvMap(nproc), buf);
    var o := Offset(Dest(VariableRcvMap(nproc), nproc)[i], k, 2);
    var f := Fold(Plus, Contributions(w, nproc, 2, i, k));
    assert rr[4 * j + k] == f;
  }

  /** With stride 2, element k of unit i's destination block holds the sum of that element over the ranks. */
  lemma VariableResultTwoAt(nproc: nat, root: nat, buf: seq<int>, i: nat, k: nat)
    requires root < nproc && 4 * nproc - 2 <= |buf| && i < nproc && k < 2
    ensures ValidSends(WidenSends(VariableSends(nproc)), nproc, 2) && ValidRcvMap(VariableRcvMap(nproc), nproc)
    ensures Fits(Dest(VariableRcvMap(nproc), nproc), nproc, 2, |buf|)
    ensures Offset(Dest(VariableRcvMap(nproc), nproc)[i], k, 2) < |buf|
    ensures RootResult(Plus, WidenSends(VariableSends(nproc)), nproc, 2, root, VariableRcvMap(nproc), buf)[Offset(Dest(VariableRcvMap(nproc), nproc)[i], k, 2)]
         == Fold(Plus, Contributions(WidenSends(VariableSends(nproc)), nproc, 2, i, k))
  {
    PlusIsLawful();
    VariableValid(nproc);
    WidenedValid(VariableSends(nproc), nproc);
    VariableFitsTwo(nproc, |buf|);
    VariableInjective(nproc);
    RootResultAt(Plus, WidenSends(VariableSends(nproc)), nproc, 2, root, VariableRcvMap(nproc), buf, i, k);
  }

  /** With stride 2, element k of the destination block of unit nproc-1-j is position 4j + k. */
  lemma VariableOffsetTwo(nproc: nat, j: nat, k: nat)
    requires j < nproc
    ensures Offset(Dest(VariableRcvMap(nproc), nproc)[nproc - 1 - j], k, 2) == 4 * j + k
  {
    SpanTwo(2 * j);
  }

  lemma Quarters(p: nat)
    ensures p == 4 * (p / 4) + p % 4 && p % 4 < 4
  {
  }

  /** With stride 2, positions 4j + 2 and 4j + 3, and positions past the extent, are in no destination block. */
  lemma VariableUntouchedTwo(nproc: nat, p: int)
    requires p % 4 >= 2 || 4 * nproc - 2 <= p
    ensures Untouched(Dest(VariableRcvMap(nproc), nproc), nproc, 2, p)
  {
    var dst := Dest(VariableRcvMap(nproc), nproc);
    forall i | 0 <= i < nproc ensures !(Offset(dst[i], 0, 2) <= p < Offset(dst[i], 2, 2)) {
      SpanTwo(dst[i]);
    }
  }

  /**
   * The stride-2 half of reduce_ptr_variable and reduce_vector_variable: with
   * a buffer of at least 4 * nproc - 2 elements, positions 4j and 4j + 1 hold
   * the widened expected data, and the others keep what the buffer held.
   */
  lemma {:induction false} VariableStrideTwo(nproc: nat, root: nat, buf: seq<int>)
    requires root < nproc && 4 * nproc - 2 <= |buf|
    ensures ValidSends(WidenSends(VariableSends(nproc)), nproc, 2) && ValidRcvMap(VariableRcvMap(nproc), nproc)
    ensures Extent(Dest(VariableRcvMap(nproc), nproc), nproc, 2) == 4 * nproc - 2
    ensures Fits(Dest(VariableRcvMap(nproc), nproc), nproc, 2, |buf|)
    ensures |Widen(RcvVariable(nproc), nproc)| == 4 * nproc
    ensures var out := RootResult(Plus, WidenSends(VariableSends(nproc)), nproc, 2, root, VariableRcvMap(nproc), buf);
            && (forall p :: 0 <= p < 4 * nproc - 2 && p % 4 < 2 ==> out[p] == Widen(RcvVariable(nproc), nproc)[p])
            && (forall p :: 0 <= p < |buf| && (p % 4 >= 2 || 4 * nproc - 2 <= p) ==> out[p] == buf[p])
  {
    VariableValid(nproc);
    WidenedValid(VariableSends(nproc), nproc);
    VariableFitsTwo(nproc, |buf|);
    VariableExtent(nproc, 2);
    SpanTwo(2 * nproc - 1);
    var w := WidenSends(VariableSends(nproc));
    var dst := Dest(VariableRcvMap(nproc), nproc);
    var out := RootResult(Plus, w, nproc, 2, root, VariableRcvMap(nproc), buf);
    forall p | 0 <= p < 4 * nproc - 2 && p % 4 < 2 ensures out[p] == Widen(RcvVariable(nproc), nproc)[p] {
      Quarters(p);
      VariableStrideTwoSlot(nproc, root, buf, p / 4, p % 4);
    }
    forall p | 0 <= p < |buf| && (p % 4 >= 2 || 4 * nproc - 2 <= p) ensures out[p] == buf[p] {
      VariableUntouchedTwo(nproc, p);
      DeliverOutside(buf, Reduced(Plus, w, nproc, 2, root), dst, nproc, 2, p);
    }
  }

  /** The container call of the variable test cases: nproc units, sizes given by the send map. */
  lemma VariableCall(nproc: nat, root: nat, rcv: seq<seq<int>>, stride: nat)
    requires root < nproc == |rcv| && 0 < stride < 3
    ensures ContainerCount(VariableSends(nproc)[root], 1) == nproc
    ensures ContainerCount(WidenSends(VariableSends(nproc))[root], 2) == nproc
    ensures stride == 1 ==> ContainerCall(VariableSends(nproc), rcv, VariableRcvMap(nproc), root, 1)
    ensures stride == 2 ==> ContainerCall(WidenSends(VariableSends(nproc)), rcv, VariableRcvMap(nproc), root, 2)
  {
    VariableValid(nproc);
    WidenedValid(VariableSends(nproc), nproc);
    VariableFits(nproc, 2 * nproc);
  }

  /**
   * reduce_vector_variable: the root's container is resized to 2 * nproc - 1
   * elements (one past the largest mapped slot) when shorter, an empty one
   * included; every even slot 2j (j < nproc) ends up with the expected data
   * and every other position keeps its old value (0 where the resize added
   * it); every other
   * rank's container, including an in-place one, is unchanged.
   */
  lemma VectorVariable(nproc: nat, root: nat, rcv: seq<seq<int>>)
    requires root < nproc == |rcv|
    ensures Lawful(Plus) && ContainerCall(VariableSends(nproc), rcv, VariableRcvMap(nproc), root, 1)
    ensures var res := ReduceContainers(Plus, 0, VariableSends(nproc), rcv, VariableRcvMap(nproc), root, 1);
            && |res| == nproc
            && (forall r :: 0 <= r < nproc && r != root ==> res[r] == rcv[r])
            && |res[root]| == (if |rcv[root]| < 2 * nproc - 1 then 2 * nproc - 1 else |rcv[root]|)
            && (forall j :: 0 <= j < nproc ==> res[root][2 * j] == RcvVariable(nproc)[2 * j])
            && (forall p :: 0 <= p < |res[root]| && (p % 2 == 1 || p >= 2 * nproc) ==>
                  res[root][p] == if p < |rcv[root]| then rcv[root][p] else 0)
  {
    PlusIsLawful();
    VariableCall(nproc, root, rcv, 1);
    VariableExtent(nproc, 1);
    SpanOne(2 * nproc - 1);
    var buf := Grown(rcv[root], 2 * nproc - 1, 0);
    VariableDelivered(nproc, root, buf);
    ContainersResult(Plus, 0, VariableSends(nproc), rcv, VariableRcvMap(nproc), root, 1, buf);
  }

  /**
   * reduce_vector_variable with stride 2: the root's container is resized to
   * 4 * nproc - 2 elements when shorter; positions 4j and 4j + 1 end up with
   * the widened expected data (j < nproc) and every other position keeps
   * its old value (0 where the resize added it).
   */
  lemma {:induction false} VectorVariableStrideTwo(nproc: nat, root: nat, rcv: seq<seq<int>>)
    requires root < nproc == |rcv|
    ensures Lawful(Plus) && ContainerCall(WidenSends(VariableSends(nproc)), rcv, VariableRcvMap(nproc), root, 2)
    ensures |Widen(RcvVariable(nproc), nproc)| == 4 * nproc
    ensures var res := ReduceContainers(Plus, 0, WidenSends(VariableSends(nproc)), rcv, VariableRcvMap(nproc), root, 2);
            && |res| == nproc
            && (forall r :: 0 <= r < nproc && r != root ==> res[r] == rcv[r])
            && |res[root]| == (if |rcv[root]| < 4 * nproc - 2 then 4 * nproc - 2 else |rcv[root]|)
            && (forall p :: 0 <= p < 4 * nproc - 2 && p % 4 < 2 ==> res[root][p] == Widen(RcvVariable(nproc), nproc)[p])
            && (forall p :: 0 <= p < |res[root]| && (p % 4 >= 2 || p >= 4 * nproc) ==>
                  res[root][p] == if p < |rcv[root]| then rcv[root][p] else 0)
  {
    PlusIsLawful();
    VariableCall(nproc, root, rcv, 2);
    VariableExtent(nproc, 2);
    SpanTwo(2 * nproc - 1);
    var buf := Grown(rcv[root], 4 * nproc - 2, 0);
    VariableStrideTwo(nproc, root, buf);
    ContainersResult(Plus, 0, WidenSends(VariableSends(nproc)), rcv, VariableRcvMap(nproc), root, 2, buf);
  }
}
