/** The two loop shapes of the form code, for any per-element step: a pass
    that updates elements in place and stops at the first failure, keeping
    the updates made so far (reading a form), and a pass that maps
    elements to results and stops at the first failure, keeping nothing
    (writing a form). */
module FailFast {
  import opened Wrappers

  /** The elements after an in-place pass, updated as far as the pass got,
      and the failure that stopped it, if any. */
  datatype Committed<A, E> = Committed(record: seq<A>, error: Option<E>)

  /** Applies `step` to each element in order, replacing the element by
      the step's result; the first failing step stops the pass and leaves
      that element and all later ones as they were. */
  function Commit<A, E>(xs: seq<A>, step: A -> Result<A, E>): (r: Committed<A, E>)
    ensures |r.record| == |xs|
    ensures forall i {:trigger r.record[i]} :: 0 <= i < |xs| ==>
      r.record[i] == xs[i] || step(xs[i]) == Success(r.record[i])
    ensures r.error.None? <==> forall i :: 0 <= i < |xs| ==> step(xs[i]).Success?
    ensures r.error.None? ==> forall i {:trigger r.record[i]} :: 0 <= i < |xs| ==>
      step(xs[i]) == Success(r.record[i])
    decreases |xs|
  {
    if xs == [] then Committed([], None)
    else
      match step(xs[0])
      case Failure(e) => Committed(xs, Some(e))
      case Success(y) =>
        var rest := Commit(xs[1..], step);
        assert forall i :: 1 <= i < |xs| ==> xs[i] == xs[1..][i - 1];
        Committed([y] + rest.record, rest.error)
  }

  /** Fail-fast with partial commit: when element `j` is the first whose
      step fails, the pass reports that failure, the elements before `j`
      hold their steps' results and `j` and all after it are untouched. */
  lemma {:induction false} CommitStopsAt<A, E>(xs: seq<A>, step: A -> Result<A, E>, j: nat)
    requires j < |xs|
    requires forall i :: 0 <= i < j ==> step(xs[i]).Success?
    requires step(xs[j]).Failure?
    ensures Commit(xs, step).error == Some(step(xs[j]).error)
    ensures forall i :: 0 <= i < j ==> Commit(xs, step).record[i] == step(xs[i]).value
    ensures forall i :: j <= i < |xs| ==> Commit(xs, step).record[i] == xs[i]
    decreases j
  {
    if j > 0 {
      var tail := xs[1..];
      assert forall i :: 0 <= i < |tail| ==> tail[i] == xs[i + 1];
      CommitStopsAt(tail, step, j - 1);
      var rest := Commit(tail, step).record;
      var out := Commit(xs, step).record;
      assert out == [step(xs[0]).value] + rest;
      assert forall i :: 1 <= i < |xs| ==> out[i] == rest[i - 1];
    }
  }

  /** The pass looks at each element only through its step: two steps that
      agree on every element give the same outcome. */
  lemma {:induction false} CommitAgrees<A, E>(xs: seq<A>, s1: A -> Result<A, E>, s2: A -> Result<A, E>)
    requires forall i :: 0 <= i < |xs| ==> s1(xs[i]) == s2(xs[i])
    ensures Commit(xs, s1) == Commit(xs, s2)
    decreases |xs|
  {
    if xs != [] {
      assert forall i :: 0 <= i < |xs| - 1 ==> xs[1..][i] == xs[i + 1];
      CommitAgrees(xs[1..], s1, s2);
    }
  }

  /** When a step's result is a fixed point of the step, passing over the
      outcome once more changes nothing: same elements, same failure. */
  lemma {:induction false} CommitIdempotent<A, E>(xs: seq<A>, step: A -> Result<A, E>)
    requires forall i :: 0 <= i < |xs| && step(xs[i]).Success? ==> step(step(xs[i]).value) == step(xs[i])
    ensures Commit(Commit(xs, step).record, step) == Commit(xs, step)
    decreases |xs|
  {
    if xs != [] && step(xs[0]).Success? {
      var out := Commit(xs, step).record;
      var rest := Commit(xs[1..], step).record;
      assert out == [step(xs[0]).value] + rest;
      assert out[0] == step(xs[0]).value && out[1..] == rest;
      assert forall i :: 0 <= i < |xs| - 1 ==> xs[1..][i] == xs[i + 1];
      CommitIdempotent(xs[1..], step);
    }
  }

  /** Maps each element to its step's result, in order, failing with the
      first failing step's failure. */
  function MapAll<A, B, E>(xs: seq<A>, step: A --> Result<B, E>): (r: Result<seq<B>, E>)
    requires forall i :: 0 <= i < |xs| ==> step.requires(xs[i])
    ensures r.Success? <==> forall i :: 0 <= i < |xs| ==> step(xs[i]).Success?
    ensures r.Success? ==> |r.value| == |xs|
    ensures r.Success? ==> forall i :: 0 <= i < |xs| ==> step(xs[i]) == Success(r.value[i])
    decreases |xs|
  {
    if xs == [] then Success([])
    else
      assert forall i :: 1 <= i < |xs| ==> xs[i] == xs[1..][i - 1];
      match step(xs[0])
      case Failure(e) => Failure(e)
      case Success(y) =>
        match MapAll(xs[1..], step)
        case Failure(e) => Failure(e)
        case Success(ys) => Success([y] + ys)
  }

  /** The failure a failing map reports is the first failing element's. */
  lemma {:induction false} MapAllFailsAt<A, B, E>(xs: seq<A>, step: A --> Result<B, E>, j: nat)
    requires forall i :: 0 <= i < |xs| ==> step.requires(xs[i])
    requires j < |xs|
    requires forall i :: 0 <= i < j ==> step(xs[i]).Success?
    requires step(xs[j]).Failure?
    ensures MapAll(xs, step) == Failure(step(xs[j]).error)
    decreases j
  {
    if j > 0 {
      assert forall i :: 0 <= i < |xs| - 1 ==> xs[1..][i] == xs[i + 1];
      MapAllFailsAt(xs[1..], step, j - 1);
    }
  }
}
