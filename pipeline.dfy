/**
  The step-pipeline runner of `allFunc`: an ordered table of named steps, each
  with a precomputed skip flag and an ignore-failure flag.  A step's action is
  not run here; its outcome is taken from an oracle `outs` holding, for every
  step, the outcome its action would return if invoked.  A run yields its
  outcome and the trace of the step indices whose actions were invoked.
*/
module Pipeline {
  import opened Outcomes

  datatype Step = Step(name: string, skip: bool, ignore: bool)

  datatype RunResult = RunResult(outcome: Outcome, trace: seq<nat>)

  /** The error text `fmt.Errorf("%v: %v", name, cause)` produces. */
  function Wrap(name: string, cause: string): string
  {
    name + ": " + cause
  }

  /** Step `i` is invoked, its failure is not ignored, and its action fails. */
  predicate Fatal(steps: seq<Step>, outs: seq<Outcome>, i: int)
    requires |outs| == |steps|
  {
    0 <= i < |steps| && !steps[i].skip && !steps[i].ignore && outs[i].Err?
  }

  predicate NoFatal(steps: seq<Step>, outs: seq<Outcome>, lo: int, hi: int)
    requires |outs| == |steps|
  {
    forall j :: lo <= j < hi ==> !Fatal(steps, outs, j)
  }

  /** Step `f` is the first step whose failure stops the run. */
  predicate FirstFatal(steps: seq<Step>, outs: seq<Outcome>, f: int)
    requires |outs| == |steps|
  {
    Fatal(steps, outs, f) && NoFatal(steps, outs, 0, f)
  }

  /** The indices in [lo, hi) of the steps that are not skipped, in table order. */
  function Invoked(steps: seq<Step>, lo: nat, hi: nat): seq<nat>
    requires lo <= hi <= |steps|
    decreases hi - lo
  {
    if lo == hi then []
    else if steps[lo].skip then Invoked(steps, lo + 1, hi)
    else [lo] + Invoked(steps, lo + 1, hi)
  }

  /** `Invoked` lists every step in range that is not skipped, once each, in increasing order. */
  lemma {:induction false} InvokedInOrder(steps: seq<Step>, lo: nat, hi: nat)
    requires lo <= hi <= |steps|
    ensures forall a, b :: 0 <= a < b < |Invoked(steps, lo, hi)| ==> Invoked(steps, lo, hi)[a] < Invoked(steps, lo, hi)[b]
    ensures forall k :: k in Invoked(steps, lo, hi) <==> lo <= k < hi && !steps[k].skip
    decreases hi - lo
  {
    if lo < hi {
      InvokedInOrder(steps, lo + 1, hi);
      var rest := Invoked(steps, lo + 1, hi);
      if !steps[lo].skip {
        var r := Invoked(steps, lo, hi);
        assert r == [lo] + rest;
        forall a, b | 0 <= a < b < |r|
          ensures r[a] < r[b]
        {
          assert r[b] == rest[b - 1] && rest[b - 1] in rest;
          if a > 0 {
            assert r[a] == rest[a - 1] && rest[a - 1] < rest[b - 1];
          }
        }
      }
    }
  }

  lemma InvokedUnfold(steps: seq<Step>, lo: nat, hi: nat)
    requires lo < hi <= |steps|
    ensures Invoked(steps, lo, hi) == (if steps[lo].skip then [] else [lo]) + Invoked(steps, lo + 1, hi)
  {
  }

  /** The run of the steps from index `i` on, one step at a time. */
  function RunFrom(steps: seq<Step>, outs: seq<Outcome>, i: nat): RunResult
    requires |outs| == |steps| && i <= |steps|
    decreases |steps| - i
  {
    if i == |steps| then RunResult(Ok, [])
    else if steps[i].skip then RunFrom(steps, outs, i + 1)
    else if steps[i].ignore then
      var rest := RunFrom(steps, outs, i + 1);
      RunResult(rest.outcome, [i] + rest.trace)
    else if outs[i].Err? then
      RunResult(Err(Wrap(steps[i].name, outs[i].msg)), [i])
    else
      var rest := RunFrom(steps, outs, i + 1);
      RunResult(rest.outcome, [i] + rest.trace)
  }

  function Run(steps: seq<Step>, outs: seq<Outcome>): RunResult
    requires |outs| == |steps|
  {
    RunFrom(steps, outs, 0)
  }

  /** The runner loop: skip, invoke, ignore, or stop at the first counted error. */
  method RunAll(steps: seq<Step>, outs: seq<Outcome>) returns (r: Outcome, trace: seq<nat>)
    requires |outs| == |steps|
    ensures RunResult(r, trace) == Run(steps, outs)
  {
    trace := [];
    for i := 0 to |steps|
      invariant Run(steps, outs) == RunResult(RunFrom(steps, outs, i).outcome, trace + RunFrom(steps, outs, i).trace)
    {
      if steps[i].skip {
        continue;
      }
      var err := outs[i];
      ghost var rest := RunFrom(steps, outs, i + 1);
      assert trace + ([i] + rest.trace) == (trace + [i]) + rest.trace;
      trace := trace + [i];
      if steps[i].ignore {
        continue;
      }
      if err.Err? {
        r := Err(Wrap(steps[i].name, err.msg));
        return;
      }
    }
    r := Ok;
  }

  lemma {:induction false} RunFromCharacterized(steps: seq<Step>, outs: seq<Outcome>, i: nat)
    requires |outs| == |steps| && i <= |steps|
    ensures NoFatal(steps, outs, i, |steps|) ==>
              RunFrom(steps, outs, i) == RunResult(Ok, Invoked(steps, i, |steps|))
    ensures forall f :: i <= f && Fatal(steps, outs, f) && NoFatal(steps, outs, i, f) ==>
              RunFrom(steps, outs, i) == RunResult(Err(Wrap(steps[f].name, outs[f].msg)), Invoked(steps, i, f + 1))
    decreases |steps| - i
  {
    if i < |steps| {
      RunFromCharacterized(steps, outs, i + 1);
      if Fatal(steps, outs, i) {
        assert Invoked(steps, i, i + 1) == [i] + Invoked(steps, i + 1, i + 1);
        forall f | i <= f && Fatal(steps, outs, f) && NoFatal(steps, outs, i, f)
          ensures f == i
        {
        }
      } else {
        forall f | i <= f && Fatal(steps, outs, f) && NoFatal(steps, outs, i, f)
          ensures i + 1 <= f && NoFatal(steps, outs, i + 1, f)
        {
        }
      }
    }
  }

  /** Some failure is counted exactly when there is a first one. */
  lemma {:induction false} FirstFatalExists(steps: seq<Step>, outs: seq<Outcome>, hi: nat)
    requires |outs| == |steps| && hi <= |steps|
    requires !NoFatal(steps, outs, 0, hi)
    ensures exists f :: f < hi && FirstFatal(steps, outs, f)
  {
    if NoFatal(steps, outs, 0, hi - 1) {
      assert FirstFatal(steps, outs, hi - 1);
    } else {
      FirstFatalExists(steps, outs, hi - 1);
    }
  }

  /**
    The run succeeds exactly when no invoked, non-ignored step fails; then every
    step that is not skipped was invoked once, in table order.
  */
  lemma RunSucceedsIff(steps: seq<Step>, outs: seq<Outcome>)
    requires |outs| == |steps|
    ensures Run(steps, outs).outcome.Ok? <==> NoFatal(steps, outs, 0, |steps|)
    ensures NoFatal(steps, outs, 0, |steps|) ==> Run(steps, outs).trace == Invoked(steps, 0, |steps|)
  {
    RunFromCharacterized(steps, outs, 0);
    if !NoFatal(steps, outs, 0, |steps|) {
      FirstFatalExists(steps, outs, |steps|);
    }
  }

  /**
    At the first counted failure the run stops: the error is the step's name
    joined to its cause, that step is the last action invoked, and no later
    step's action is invoked.
  */
  lemma RunFailsFast(steps: seq<Step>, outs: seq<Outcome>, f: nat)
    requires |outs| == |steps| && FirstFatal(steps, outs, f)
    ensures Run(steps, outs) == RunResult(Err(Wrap(steps[f].name, outs[f].msg)), Invoked(steps, 0, f + 1))
    ensures Run(steps, outs).trace != [] && Run(steps, outs).trace[|Run(steps, outs).trace| - 1] == f
    ensures forall k :: k in Run(steps, outs).trace ==> k <= f
  {
    RunFromCharacterized(steps, outs, 0);
    InvokedInOrder(steps, 0, f + 1);
    var t := Run(steps, outs).trace;
    assert f in t;
    assert t[|t| - 1] in t;
  }

  /**
    Whatever the outcomes, the actions invoked are those of steps that are not
    skipped, each at most once and in table order.
  */
  lemma RunTraceInOrder(steps: seq<Step>, outs: seq<Outcome>)
    requires |outs| == |steps|
    ensures forall a, b :: 0 <= a < b < |Run(steps, outs).trace| ==> Run(steps, outs).trace[a] < Run(steps, outs).trace[b]
    ensures forall k :: k in Run(steps, outs).trace ==> k < |steps| && !steps[k].skip
  {
    if NoFatal(steps, outs, 0, |steps|) {
      RunSucceedsIff(steps, outs);
      InvokedInOrder(steps, 0, |steps|);
    } else {
      FirstFatalExists(steps, outs, |steps|);
      var f :| f < |steps| && FirstFatal(steps, outs, f);
      RunFailsFast(steps, outs, f);
      InvokedInOrder(steps, 0, f + 1);
    }
  }

  lemma {:induction false} RunFromUnjudged(steps: seq<Step>, outs: seq<Outcome>, i: nat, o: Outcome, j: nat)
    requires |outs| == |steps| && i < |steps| && j <= |steps|
    requires steps[i].skip || steps[i].ignore
    ensures RunFrom(steps, outs[i := o], j) == RunFrom(steps, outs, j)
    decreases |steps| - j
  {
    if j < |steps| {
      RunFromUnjudged(steps, outs, i, o, j + 1);
    }
  }

  /**
    The outcome of a skipped step, and of an ignore-flagged step, has no
    effect on the run: an ignored step lets it continue whether it succeeded
    or failed.
  */
  lemma UnjudgedOutcomeIrrelevant(steps: seq<Step>, outs: seq<Outcome>, i: nat, o: Outcome)
    requires |outs| == |steps| && i < |steps|
    requires steps[i].skip || steps[i].ignore
    ensures Run(steps, outs[i := o]) == Run(steps, outs)
  {
    RunFromUnjudged(steps, outs, i, o, 0);
  }

  /** A step whose action succeeds is never the step the run stops at. */
  lemma SucceedingStepNeverStops(steps: seq<Step>, outs: seq<Outcome>, i: nat)
    requires |outs| == |steps| && i < |steps| && outs[i] == Ok
    ensures Run(steps, outs).outcome.Err? ==>
              Run(steps, outs).trace != [] && Run(steps, outs).trace[|Run(steps, outs).trace| - 1] != i
  {
    RunSucceedsIff(steps, outs);
    if !NoFatal(steps, outs, 0, |steps|) {
      FirstFatalExists(steps, outs, |steps|);
      var f :| f < |steps| && FirstFatal(steps, outs, f);
      RunFailsFast(steps, outs, f);
    }
  }
}
