/** The bound on consecutive decode errors. */
module DecodeErrors {
  /** Length of the run of errors at the end of the history. */
  function TrailingErrors(history: seq<bool>): (n: nat)
    ensures n <= |history|
  {
    if history == [] || !history[|history| - 1] then 0 else TrailingErrors(history[..|history| - 1]) + 1
  }

  /** Every call from i on, n of them, was an error. */
  predicate ErrorRun(history: seq<bool>, i: int, n: int) {
    0 <= i && i + n <= |history| && forall k :: i <= k < i + n ==> history[k]
  }

  ghost predicate HasErrorRun(history: seq<bool>, n: int) {
    exists i :: ErrorRun(history, i, n)
  }

  /** A run of n errors ends the history exactly when the trailing run is that
      long. */
  lemma {:induction false} TrailingRun(history: seq<bool>, n: nat)
    ensures ErrorRun(history, |history| - n, n) <==> TrailingErrors(history) >= n
  {
    if n > 0 && history != [] && history[|history| - 1] {
      var front := history[..|history| - 1];
      TrailingRun(front, n - 1);
      var i := |history| - n;
      assert ErrorRun(history, i, n) ==> ErrorRun(front, i, n - 1);
      assert ErrorRun(front, i, n - 1) ==> forall k :: i <= k < |history| - 1 ==> history[k] == front[k];
    }
  }

  lemma LongestRunGrows(history: seq<bool>, e: bool, n: nat)
    requires n > 0
    ensures HasErrorRun(history + [e], n) <==> HasErrorRun(history, n) || TrailingErrors(history + [e]) >= n
  {
    var longer := history + [e];
    TrailingRun(longer, n);
    forall i | i != |longer| - n ensures ErrorRun(longer, i, n) == ErrorRun(history, i, n) {
      assert forall k :: 0 <= k < |history| ==> longer[k] == history[k];
    }
    assert !ErrorRun(history, |longer| - n, n);
  }

  class ConsecutiveDecodeErrorBound {
    const limit: nat
    var consecutive: int
    var exhausted: bool
    /** The calls so far: true for an error, false for a success. */
    ghost var history: seq<bool>

    /** The bound is hit exactly by more than limit errors in a row, and stays
        hit. */
    ghost predicate Valid()
      reads this
    {
      consecutive == TrailingErrors(history) && (exhausted <==> HasErrorRun(history, limit + 1))
    }

    constructor (limit: nat)
      ensures Valid() && this.limit == limit && history == [] && !exhausted
    {
      this.limit, consecutive, exhausted, history := limit, 0, false, [];
    }

    method RecordError() returns (stop: bool)
      requires Valid()
      modifies this
      ensures Valid() && history == old(history) + [true] && stop == exhausted
    {
      LongestRunGrows(history, true, limit + 1);
      assert (history + [true])[..|history|] == history;
      consecutive := consecutive + 1;
      if consecutive > limit {
        exhausted := true;
      }
      history := history + [true];
      return exhausted;
    }

    method RecordSuccess()
      requires Valid()
      modifies this
      ensures Valid() && history == old(history) + [false] && exhausted == old(exhausted)
    {
      LongestRunGrows(history, false, limit + 1);
      consecutive := 0;
      history := history + [false];
    }
  }
}
