/**
 * The user-defined element type of the reduce test (class optest): an int and
 * a double member combined member-wise by operator+. Its values are integers,
 * so both members are modelled as int.
 */
module OpTests {
  import opened Operators

  datatype OpTest = OpTest(ival: int, dval: int)

  /** optest::init on rank `rank`. */
  function Init(rank: nat): OpTest {
    OpTest(rank + 1, rank + 10)
  }

  /** optest::operator+: member-wise sum. */
  function Add(a: OpTest, b: OpTest): OpTest {
    OpTest(a.ival + b.ival, a.dval + b.dval)
  }

  lemma AddIsLawful()
    ensures Lawful(Add)
  {
  }

  /** The sum over i < n of i + offset, as the test's accumulation loops compute it. */
  function RankSum(n: nat, offset: int): int {
    if n == 0 then 0 else RankSum(n - 1, offset) + (n - 1) + offset
  }

  lemma {:induction false} RankSumClosedForm(n: nat, offset: int)
    ensures 2 * RankSum(n, offset) == n * (n - 1) + 2 * offset * n
    decreases n
  {
    if n > 0 {
      RankSumClosedForm(n - 1, offset);
      assert (n - 1) * (n - 2) + 2 * (n - 1) == n * (n - 1);
    }
  }

  /** The two totals optest::test expects, in closed form. */
  lemma RankSumTotals(n: nat)
    ensures 2 * RankSum(n, 1) == n * (n + 1)
    ensures 2 * RankSum(n, 10) == n * (n - 1) + 20 * n
  {
    RankSumClosedForm(n, 1);
    RankSumClosedForm(n, 10);
  }

  /**
   * optest::test on a group of `nproc` ranks: true exactly when ival is the sum
   * of rank + 1 and dval the sum of rank + 10 over all ranks.
   */
  method Test(t: OpTest, nproc: nat) returns (ok: bool)
    ensures ok <==> 2 * t.ival == nproc * (nproc + 1) && 2 * t.dval == nproc * (nproc - 1) + 20 * nproc
  {
    var itest := 0;
    var i := 0;
    while i < nproc
      invariant 0 <= i <= nproc
      invariant itest == RankSum(i, 1)
    {
      itest := itest + i + 1;
      i := i + 1;
    }
    var dtest := 0;
    i := 0;
    while i < nproc
      invariant 0 <= i <= nproc
      invariant dtest == RankSum(i, 10)
    {
      dtest := dtest + i + 10;
      i := i + 1;
    }
    RankSumTotals(nproc);
    ok := t.ival == itest && t.dval == dtest;
  }
}
