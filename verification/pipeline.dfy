/**
  A fail-fast sequence of checks: they are made in order and the first
  that does not hold ends the sequence.
*/
module Pipeline {
  import opened Results

  /** The position of the first check from `k` on that does not hold, if any. */
  function FirstFailure(cs: seq<bool>, k: nat): (r: Option<nat>)
    requires k <= |cs|
    ensures r.Some? ==> k <= r.value < |cs| && !cs[r.value]
    decreases |cs| - k
  {
    if k == |cs| then None
    else if !cs[k] then Some(k)
    else FirstFailure(cs, k + 1)
  }

  /** The first failure is a check that does not hold, after checks that all do. */
  lemma {:induction false} FirstFailureSpec(cs: seq<bool>, k: nat)
    requires k <= |cs|
    ensures FirstFailure(cs, k).None? <==> forall j :: k <= j < |cs| ==> cs[j]
    ensures forall m :: FirstFailure(cs, k) == Some(m) <==>
      k <= m < |cs| && (forall j :: k <= j < m ==> cs[j]) && !cs[m]
    decreases |cs| - k
  {
    if k < |cs| {
      FirstFailureSpec(cs, k + 1);
      var r := FirstFailure(cs, k);
      forall m
        ensures r == Some(m) <==> k <= m < |cs| && (forall j :: k <= j < m ==> cs[j]) && !cs[m]
      {
        if !cs[k] {
          assert r == Some(k);
          if k < m < |cs| {
            assert !(forall j :: k <= j < m ==> cs[j]) by { assert !cs[k]; }
          }
        } else {
          assert r == FirstFailure(cs, k + 1);
          if k < m < |cs| && (forall j :: k <= j < m ==> cs[j]) {
            assert forall j :: k + 1 <= j < m ==> cs[j];
          }
        }
      }
    }
  }

  /** The labels name distinct checks. */
  predicate Distinct<L(==)>(labels: seq<L>) {
    forall i, j :: 0 <= i < j < |labels| ==> labels[i] != labels[j]
  }

  /** The checks in order: success when all hold, else the label of the first that does not. */
  function Run<L>(cs: seq<bool>, labels: seq<L>): (r: Result<(), L>)
    requires |labels| == |cs|
  {
    match FirstFailure(cs, 0)
    case None => Success(())
    case Some(k) => Failure(labels[k])
  }

  /**
    A run succeeds exactly when every check holds, and it fails with the
    label of check `k` exactly when the checks before `k` hold and check
    `k` does not.
  */
  lemma RunSpec<L>(cs: seq<bool>, labels: seq<L>)
    requires |labels| == |cs| && Distinct(labels)
    ensures Run(cs, labels).Success? <==> forall j :: 0 <= j < |cs| ==> cs[j]
    ensures forall k :: 0 <= k < |cs| ==>
      (Run(cs, labels) == Failure(labels[k]) <==> (forall j :: 0 <= j < k ==> cs[j]) && !cs[k])
  {
    FirstFailureSpec(cs, 0);
    forall k | 0 <= k < |cs|
      ensures Run(cs, labels) == Failure(labels[k]) <==> FirstFailure(cs, 0) == Some(k)
    {
      if Run(cs, labels) == Failure(labels[k]) {
        var m := FirstFailure(cs, 0).value;
        assert labels[m] == labels[k];
      }
    }
  }
}
