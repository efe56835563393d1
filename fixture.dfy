/**
 * The reduce test fixture (PEReduceFixture) of one rank: the send data, the
 * send and receive maps and the expected results it builds for a group of
 * `nproc` ranks. Doubles holding integer values are modelled as int.
 */
module Fixture {

  /** A value-initialised std::vector of n elements. */
  function Zeros(n: nat): (z: seq<int>)
    ensures |z| == n && forall i :: 0 <= i < n ==> z[i] == 0
  {
    seq(n, _ => 0)
  }

  /** The expected reduced value of slot i: the sum over ranks k < n of (k+1)*10000 + (i+1). */
  function SlotSum(n: nat, i: int): int {
    if n == 0 then 0 else SlotSum(n - 1, i) + n * 10000 + (i + 1)
  }

  /** Every element x of `s` becomes the pair x, x + d: a stride-2 copy of `s`. */
  function Widen(s: seq<int>, d: int): (w: seq<int>)
    ensures |w| == 2 * |s|
  {
    if s == [] then [] else [s[0], s[0] + d] + Widen(s[1..], d)
  }

  /** Element i of `s` sits at 2i of its stride-2 copy, followed by itself plus d. */
  lemma {:induction false} WidenAt(s: seq<int>, d: int, i: nat)
    requires i < |s|
    ensures Widen(s, d)[2 * i] == s[i] && Widen(s, d)[2 * i + 1] == s[i] + d
    decreases i
  {
    if i > 0 {
      WidenAt(s[1..], d, i - 1);
      assert Widen(s, d) == [s[0], s[0] + d] + Widen(s[1..], d);
    }
  }

  /** setup_data_constant: the send data of rank `rank`, 2 * nproc slots. */
  function SndConstant(rank: nat, nproc: nat): (s: seq<int>)
    ensures |s| == 2 * nproc
  {
    seq(2 * nproc, i => (rank + 1) * 10000 + (i + 1))
  }

  /** setup_data_constant: the expected reduced data, 2 * nproc slots. */
  function RcvConstant(nproc: nat): (s: seq<int>)
    ensures |s| == 2 * nproc
  {
    seq(2 * nproc, i => SlotSum(nproc, i))
  }

  /** Every element x of `s` becomes the pair x, fill: `s` spread over the even slots. */
  function Spread(s: seq<int>, fill: int): (w: seq<int>)
    ensures |w| == 2 * |s|
  {
    if s == [] then [] else [s[0], fill] + Spread(s[1..], fill)
  }

  /** Slot 2i of Spread(s, fill) is s[i], slot 2i + 1 is fill. */
  lemma {:induction false} SpreadAt(s: seq<int>, fill: int, i: nat)
    requires i < |s|
    ensures Spread(s, fill)[2 * i] == s[i] && Spread(s, fill)[2 * i + 1] == fill
    decreases i
  {
    if i > 0 {
      SpreadAt(s[1..], fill, i - 1);
      assert Spread(s, fill) == [s[0], fill] + Spread(s[1..], fill);
    }
  }

  /** setup_data_variable: the send data of rank `rank`; only even slots carry data, odd ones hold -1. */
  function SndVariable(rank: nat, nproc: nat): (s: seq<int>)
    ensures |s| == 2 * nproc
  {
    Spread(seq(nproc, i => (rank + 1) * 10000 + (i + 1)), -1)
  }

  /** Slot 2i of rank `rank`'s variable send data is its i-th value, slot 2i + 1 is -1. */
  lemma SndVariableAt(rank: nat, nproc: nat, i: nat)
    requires i < nproc
    ensures SndVariable(rank, nproc)[2 * i] == (rank + 1) * 10000 + (i + 1)
    ensures SndVariable(rank, nproc)[2 * i + 1] == -1
  {
    SpreadAt(seq(nproc, i => (rank + 1) * 10000 + (i + 1)), -1, i);
  }

  /** setup_data_variable: unit i is read from block 2i. */
  function SndMapVariable(nproc: nat): (m: seq<int>)
    ensures |m| == nproc
  {
    seq(nproc, i => 2 * i)
  }

  /** setup_data_variable: unit i is written to block 2(nproc-1-i), inverting the order. */
  function RcvMapVariable(nproc: nat): (m: seq<int>)
    ensures |m| == nproc
  {
    seq(nproc, i => 2 * (nproc - 1 - i))
  }

  /** setup_data_variable: the expected data; even slot 2(nproc-1-i) holds SlotSum(nproc, i), odd slots 0. */
  function RcvVariable(nproc: nat): (s: seq<int>)
    ensures |s| == 2 * nproc
  {
    Spread(seq(nproc, j => SlotSum(nproc, nproc - 1 - j)), 0)
  }

  /** Slot 2j of the variable expected data holds the sum of unit nproc - 1 - j, slot 2j + 1 is 0. */
  lemma {:induction false} RcvVariableAt(nproc: nat, j: nat)
    requires j < nproc
    ensures RcvVariable(nproc)[2 * j] == SlotSum(nproc, nproc - 1 - j)
    ensures RcvVariable(nproc)[2 * j + 1] == 0
  {
    SpreadAt(seq(nproc, j => SlotSum(nproc, nproc - 1 - j)), 0, j);
  }

  /** Unit i of the variable expected data sits at slot 2(nproc-1-i): the receive map's inversion. */
  lemma {:induction false} RcvVariableUnit(nproc: nat, i: nat)
    requires i < nproc
    ensures RcvVariable(nproc)[2 * (nproc - 1 - i)] == SlotSum(nproc, i)
  {
    var j: nat := nproc - 1 - i;
    RcvVariableAt(nproc, j);
    assert nproc - 1 - j == i;
  }

  class PEReduceFixture {
    const nproc: nat
    const irank: nat

    var sndcnt: int
    const sndDat: array<int>
    const rcvDat: array<int>
    var tmpRcv: array?<int>
    const sndMap: array<int>
    const rcvMap: array<int>
    const sndDat2: array<int>
    const rcvDat2: array<int>
    var tmpRcv2: array?<int>

    var vecSndDat: seq<int>
    var vecRcvDat: seq<int>
    var vecTmpRcv: seq<int>
    var vecSndMap: seq<int>
    var vecRcvMap: seq<int>
    var vecSndDat2: seq<int>
    var vecRcvDat2: seq<int>
    var vecTmpRcv2: seq<int>

    /** The fixed arrays have the sizes the constructor gives them and never alias one another. */
    ghost predicate Valid() {
      && 0 < nproc && irank < nproc
      && sndDat.Length == 2 * nproc && rcvDat.Length == 2 * nproc
      && sndMap.Length == nproc && rcvMap.Length == nproc
      && sndDat2.Length == 4 * nproc && rcvDat2.Length == 4 * nproc
      && sndDat != rcvDat && sndDat != sndDat2 && sndDat != rcvDat2 && sndDat != sndMap && sndDat != rcvMap
      && rcvDat != sndDat2 && rcvDat != rcvDat2 && rcvDat != sndMap && rcvDat != rcvMap
      && sndDat2 != rcvDat2 && sndDat2 != sndMap && sndDat2 != rcvMap
      && rcvDat2 != sndMap && rcvDat2 != rcvMap
      && sndMap != rcvMap
    }

    /** The two scratch receive arrays exist and share no storage with each other or with the fixed arrays. */
    ghost predicate ScratchSeparate()
      reads this
    {
      && tmpRcv != null && tmpRcv2 != null && tmpRcv != tmpRcv2
      && tmpRcv != sndDat && tmpRcv != rcvDat && tmpRcv != sndMap && tmpRcv != rcvMap
      && tmpRcv != sndDat2 && tmpRcv != rcvDat2
      && tmpRcv2 != sndDat && tmpRcv2 != rcvDat && tmpRcv2 != sndMap && tmpRcv2 != rcvMap
      && tmpRcv2 != sndDat2 && tmpRcv2 != rcvDat2
    }

    /** The fixture of rank `irank` in a group of `nproc`: buffers allocated, vectors zero-filled. */
    constructor (nproc: nat, irank: nat)
      requires irank < nproc
      ensures this.nproc == nproc && this.irank == irank && Valid() && ScratchSeparate()
      ensures sndcnt == 0
      ensures fresh(sndDat) && fresh(rcvDat) && fresh(sndMap) && fresh(rcvMap) && fresh(sndDat2) && fresh(rcvDat2)
      ensures tmpRcv != null && fresh(tmpRcv) && tmpRcv.Length == 2 * nproc
      ensures tmpRcv2 != null && fresh(tmpRcv2) && tmpRcv2.Length == 4 * nproc
      ensures vecSndDat == vecRcvDat == vecTmpRcv == Zeros(2 * nproc)
      ensures vecSndMap == vecRcvMap == Zeros(nproc)
      ensures vecSndDat2 == vecRcvDat2 == vecTmpRcv2 == Zeros(4 * nproc)
    {
      this.nproc := nproc;
      this.irank := irank;
      sndcnt := 0;
      sndDat := new int[2 * nproc];
      rcvDat := new int[2 * nproc];
      tmpRcv := new int[2 * nproc];
      sndMap := new int[nproc];
      rcvMap := new int[nproc];
      sndDat2 := new int[4 * nproc];
      rcvDat2 := new int[4 * nproc];
      tmpRcv2 := new int[4 * nproc];
      vecSndDat := Zeros(2 * nproc);
      vecRcvDat := Zeros(2 * nproc);
      vecTmpRcv := Zeros(2 * nproc);
      vecSndMap := Zeros(nproc);
      vecRcvMap := Zeros(nproc);
      vecSndDat2 := Zeros(4 * nproc);
      vecRcvDat2 := Zeros(4 * nproc);
      vecTmpRcv2 := Zeros(4 * nproc);
    }

    /** Fills the stride-2 arrays from the stride-1 ones: x becomes x, x+1 (send) and x, x+nproc (expected). */
    method WidenData()
      requires Valid()
      modifies sndDat2, rcvDat2
      ensures sndDat2[..] == Widen(sndDat[..], 1)
      ensures rcvDat2[..] == Widen(rcvDat[..], nproc)
    {
      var i := 0;
      while i < 2 * nproc
        invariant 0 <= i <= 2 * nproc
        invariant forall j :: 0 <= j < i ==> sndDat2[2 * j] == sndDat[j] && sndDat2[2 * j + 1] == sndDat[j] + 1
      {
        sndDat2[2 * i] := sndDat[i];
        sndDat2[2 * i + 1] := sndDat[i] + 1;
        i := i + 1;
      }
      i := 0;
      while i < 2 * nproc
        invariant 0 <= i <= 2 * nproc
        invariant forall j :: 0 <= j < 2 * nproc ==> sndDat2[2 * j] == sndDat[j] && sndDat2[2 * j + 1] == sndDat[j] + 1
        invariant forall j :: 0 <= j < i ==> rcvDat2[2 * j] == rcvDat[j] && rcvDat2[2 * j + 1] == rcvDat[j] + nproc
      {
        rcvDat2[2 * i] := rcvDat[i];
        rcvDat2[2 * i + 1] := rcvDat[i] + nproc;
        i := i + 1;
      }
      SameWiden(sndDat2[..], sndDat[..], 1);
      SameWiden(rcvDat2[..], rcvDat[..], nproc);
    }

    /** The inner loop of both setups: slot `dst` of the expected data accumulates SlotSum(nproc, i). */
    method AccumulateSlot(dst: nat, i: int)
      requires Valid() && dst < 2 * nproc
      modifies rcvDat
      ensures rcvDat[dst] == old(rcvDat[dst]) + SlotSum(nproc, i)
      ensures forall j :: 0 <= j < 2 * nproc && j != dst ==> rcvDat[j] == old(rcvDat[j])
    {
      var k := 0;
      while k < nproc
        invariant 0 <= k <= nproc
        invariant rcvDat[dst] == old(rcvDat[dst]) + SlotSum(k, i)
        invariant forall j :: 0 <= j < 2 * nproc && j != dst ==> rcvDat[j] == old(rcvDat[j])
      {
        rcvDat[dst] := rcvDat[dst] + (k + 1) * 10000 + (i + 1);
        k := k + 1;
      }
    }

    /** The first loop of setup_data_constant: every slot of both ranks' data is set. */
    method FillConstant()
      requires Valid()
      modifies sndDat, rcvDat
      ensures sndDat[..] == SndConstant(irank, nproc)
      ensures rcvDat[..] == RcvConstant(nproc)
    {
      var i := 0;
      while i < 2 * nproc
        invariant 0 <= i <= 2 * nproc
        invariant forall j :: 0 <= j < i ==> sndDat[j] == (irank + 1) * 10000 + (j + 1) && rcvDat[j] == SlotSum(nproc, j)
      {
        sndDat[i] := (irank + 1) * 10000 + (i + 1);
        rcvDat[i] := 0;
        AccumulateSlot(i, i);
        i := i + 1;
      }
      assert sndDat[..] == SndConstant(irank, nproc);
      assert rcvDat[..] == RcvConstant(nproc);
    }

    /** setup_data_constant. */
    method SetupDataConstant()
      requires Valid()
      modifies this, sndDat, rcvDat, sndDat2, rcvDat2
      ensures Valid()
      ensures sndDat[..] == SndConstant(irank, nproc)
      ensures rcvDat[..] == RcvConstant(nproc)
      ensures sndDat2[..] == Widen(SndConstant(irank, nproc), 1)
      ensures rcvDat2[..] == Widen(RcvConstant(nproc), nproc)
      ensures sndcnt == 2 * nproc
      ensures vecSndDat == sndDat[..] && vecRcvDat == rcvDat[..]
      ensures vecSndDat2 == sndDat2[..] && vecRcvDat2 == rcvDat2[..]
      ensures vecTmpRcv == old(vecTmpRcv) && vecTmpRcv2 == old(vecTmpRcv2)
      ensures vecSndMap == old(vecSndMap) && vecRcvMap == old(vecRcvMap)
      ensures tmpRcv == old(tmpRcv) && tmpRcv2 == old(tmpRcv2)
    {
      FillConstant();
      WidenData();
      sndcnt := 2 * nproc;
      vecSndDat := sndDat[..];
      vecRcvDat := rcvDat[..];
      vecSndDat2 := sndDat2[..];
      vecRcvDat2 := rcvDat2[..];
    }

    /** The first loop of setup_data_variable: send slots become -1, expected slots 0. */
    method ClearData()
      requires Valid()
      modifies sndDat, rcvDat
      ensures forall j :: 0 <= j < 2 * nproc ==> sndDat[j] == -1 && rcvDat[j] == 0
    {
      var i := 0;
      while i < 2 * nproc
        invariant 0 <= i <= 2 * nproc
        invariant forall j :: 0 <= j < i ==> sndDat[j] == -1 && rcvDat[j] == 0
      {
        sndDat[i] := -1;
        rcvDat[i] := 0;
        i := i + 1;
      }
    }

    /**
     * The first two loops of setup_data_variable: all slots cleared, then the even
     * slots, both maps and the inverted expected data.
     */
    method FillVariable()
      requires Valid()
      modifies sndDat, rcvDat, sndMap, rcvMap
      ensures sndDat[..] == SndVariable(irank, nproc)
      ensures rcvDat[..] == RcvVariable(nproc)
      ensures sndMap[..] == SndMapVariable(nproc) && rcvMap[..] == RcvMapVariable(nproc)
    {
      ClearData();
      var i := 0;
      while i < nproc
        invariant 0 <= i <= nproc
        invariant forall j :: 0 <= j < nproc ==>
                    && sndDat[2 * j] == (if j < i then (irank + 1) * 10000 + (j + 1) else -1)
                    && sndDat[2 * j + 1] == -1
        invariant forall j :: 0 <= j < nproc ==>
                    && rcvDat[2 * j] == (if nproc - 1 - j < i then SlotSum(nproc, nproc - 1 - j) else 0)
                    && rcvDat[2 * j + 1] == 0
        invariant forall j :: 0 <= j < i ==> sndMap[j] == 2 * j && rcvMap[j] == 2 * (nproc - 1 - j)
      {
        sndDat[2 * i] := (irank + 1) * 10000 + (i + 1);
        sndMap[i] := 2 * i;
        rcvMap[i] := 2 * (nproc - 1 - i);
        AccumulateSlot(2 * (nproc - 1 - i), i);
        i := i + 1;
      }
      VariableFilled(sndDat[..], rcvDat[..], sndMap[..], rcvMap[..], irank, nproc);
    }

    /** setup_data_variable. */
    method SetupDataVariable()
      requires Valid()
      modifies this, sndDat, rcvDat, sndMap, rcvMap, sndDat2, rcvDat2
      ensures Valid()
      ensures sndDat[..] == SndVariable(irank, nproc)
      ensures rcvDat[..] == RcvVariable(nproc)
      ensures sndMap[..] == SndMapVariable(nproc) && rcvMap[..] == RcvMapVariable(nproc)
      ensures sndDat2[..] == Widen(SndVariable(irank, nproc), 1)
      ensures rcvDat2[..] == Widen(RcvVariable(nproc), nproc)
      ensures sndcnt == nproc
      ensures vecSndDat == sndDat[..] && vecRcvDat == rcvDat[..]
      ensures vecSndMap == sndMap[..] && vecRcvMap == rcvMap[..]
      ensures vecSndDat2 == sndDat2[..] && vecRcvDat2 == rcvDat2[..]
      ensures vecTmpRcv == old(vecTmpRcv) && vecTmpRcv2 == old(vecTmpRcv2)
      ensures tmpRcv == old(tmpRcv) && tmpRcv2 == old(tmpRcv2)
    {
      FillVariable();
      WidenData();
      sndcnt := nproc;
      vecSndDat := sndDat[..];
      vecRcvDat := rcvDat[..];
      vecSndMap := sndMap[..];
      vecRcvMap := rcvMap[..];
      vecSndDat2 := sndDat2[..];
      vecRcvDat2 := rcvDat2[..];
    }

    /** The re-fill loop of the in-place test cases: tmpRcv becomes a copy of sndDat. */
    method RefillTmpRcv()
      requires Valid() && tmpRcv != null && tmpRcv.Length == 2 * nproc && tmpRcv != sndDat
      modifies tmpRcv
      ensures tmpRcv[..] == sndDat[..]
    {
      var i := 0;
      while i < 2 * nproc
        invariant 0 <= i <= 2 * nproc
        invariant forall j :: 0 <= j < i ==> tmpRcv[j] == sndDat[j]
      {
        tmpRcv[i] := sndDat[i];
        i := i + 1;
      }
      assert tmpRcv[..] == sndDat[..];
    }

    /** The re-fill loop of the stride-2 in-place test cases: tmpRcv2 becomes a copy of sndDat2. */
    method RefillTmpRcv2()
      requires Valid() && tmpRcv2 != null && tmpRcv2.Length == 4 * nproc && tmpRcv2 != sndDat2
      modifies tmpRcv2
      ensures tmpRcv2[..] == sndDat2[..]
    {
      var i := 0;
      while i < 4 * nproc
        invariant 0 <= i <= 4 * nproc
        invariant forall j :: 0 <= j < i ==> tmpRcv2[j] == sndDat2[j]
      {
        tmpRcv2[i] := sndDat2[i];
        i := i + 1;
      }
      assert tmpRcv2[..] == sndDat2[..];
    }
  }

  /** A sequence that agrees with the pairs of Widen(s, d) is Widen(s, d). */
  lemma {:induction false} SameWiden(w: seq<int>, s: seq<int>, d: int)
    requires |w| == 2 * |s|
    requires forall j :: 0 <= j < |s| ==> w[2 * j] == s[j] && w[2 * j + 1] == s[j] + d
    ensures w == Widen(s, d)
  {
    var v := Widen(s, d);
    forall p | 0 <= p < |w| ensures w[p] == v[p] {
      var j := p / 2;
      assert j < |s|;
      WidenAt(s, d, j);
      assert v[2 * j] == s[j] && v[2 * j + 1] == s[j] + d;
      if p % 2 == 0 {
        assert p == 2 * j;
      } else {
        assert p == 2 * j + 1;
      }
    }
  }

  /** The state the second loop of setup_data_variable leaves is the variable data and its maps. */
  lemma {:induction false} VariableFilled(snd: seq<int>, rcv: seq<int>, sndm: seq<int>, rcvm: seq<int>, irank: nat, nproc: nat)
    requires |snd| == 2 * nproc == |rcv| && |sndm| == nproc == |rcvm|
    requires forall j :: 0 <= j < nproc ==> snd[2 * j] == (irank + 1) * 10000 + (j + 1) && snd[2 * j + 1] == -1
    requires forall j :: 0 <= j < nproc ==> rcv[2 * j] == SlotSum(nproc, nproc - 1 - j) && rcv[2 * j + 1] == 0
    requires forall j :: 0 <= j < nproc ==> sndm[j] == 2 * j && rcvm[j] == 2 * (nproc - 1 - j)
    ensures snd == SndVariable(irank, nproc) && rcv == RcvVariable(nproc)
    ensures sndm == SndMapVariable(nproc) && rcvm == RcvMapVariable(nproc)
  {
    forall j | 0 <= j < nproc
      ensures snd[2 * j] == SndVariable(irank, nproc)[2 * j] && snd[2 * j + 1] == SndVariable(irank, nproc)[2 * j + 1]
      ensures rcv[2 * j] == RcvVariable(nproc)[2 * j] && rcv[2 * j + 1] == RcvVariable(nproc)[2 * j + 1]
    {
      SndVariableAt(irank, nproc, j);
      RcvVariableAt(nproc, j);
    }
    SamePairs(snd, SndVariable(irank, nproc), nproc);
    SamePairs(rcv, RcvVariable(nproc), nproc);
  }

  /** Two sequences of 2n elements that agree at every even and odd slot are equal. */
  lemma SamePairs(a: seq<int>, b: seq<int>, n: nat)
    requires |a| == 2 * n == |b|
    requires forall j :: 0 <= j < n ==> a[2 * j] == b[2 * j] && a[2 * j + 1] == b[2 * j + 1]
    ensures a == b
  {
    forall p | 0 <= p < |a| ensures a[p] == b[p] {
      var j := p / 2;
      assert j < n;
      if p % 2 == 0 {
        assert p == 2 * j;
      } else {
        assert p == 2 * j + 1;
      }
    }
  }
}
