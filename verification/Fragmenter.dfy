/** The host's fragmenter: how many datagrams a payload takes, and which slice each one carries. */
module Fragmenter {
  import opened Arith
  import opened Bytes
  import opened Parity

  /** The sender's count: enough budgets to cover the payload, and never none. */
  lemma SplitCount(p: bytes, budget: nat)
    requires budget > 0
    ensures var n := (|p| + budget - 1) / budget; |Split(p, budget)| == if n == 0 then 1 else n
  {
    hide Split;
    var n, m := (|p| + budget - 1) / budget, |Split(p, budget)|;
    SplitIsSliced(p, budget, 0);
    assert n * budget <= |p| + budget - 1 < n * budget + budget;
    MulStep(m - 1, budget);
    if m < n {
      MulGap(m, n, budget);
    } else if n < m && m > 1 {
      MulGap(n, m, budget);
    }
  }

  /** The sender's first loop: one slice of the payload per fragment. */
  method CutFragments(p: bytes, budget: nat) returns (frags: seq<bytes>)
    requires budget > 0
    ensures frags == Split(p, budget)
  {
    hide Split;
    SplitCount(p, budget);
    var cnt := (|p| + budget - 1) / budget;
    if cnt == 0 {
      cnt := 1;
    }
    frags := [];
    for i := 0 to cnt
      invariant frags == Split(p, budget)[..i]
    {
      SplitIsSliced(p, budget, i);
      var start, end := i * budget, (i + 1) * budget;
      var slice := p[start..if end <= |p| then end else |p|];
      assert p[start..|p|] == p[start..];
      assert slice == Split(p, budget)[i];
      assert Split(p, budget)[..i + 1] == Split(p, budget)[..i] + [slice];
      frags := frags + [slice];
    }
  }
}
