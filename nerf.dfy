/**
  The concrete step table of `allFunc`: seven named steps whose skip flags are
  computed from the `--deps`, `--fetch` and `--customkern` command-line
  options, none of them ignore-flagged, and the return behaviour of the kernel
  clone step.
*/
module Nerf {
  import opened Outcomes
  import opened Pipeline

  /** The three boolean command-line options (all default to false). */
  datatype Flags = Flags(deps: bool, fetch: bool, customkern: bool)

  /**
    The step table.  Index 0 "check environment", 1 "cleanup", 2 "install
    depenedencies", 3 "Git clone the kernel", 4 "Git clone coreboot", 5 "build
    the kernel", 6 "build coreboot".
  */
  function Table(flags: Flags): (steps: seq<Step>)
    ensures |steps| == 7
    ensures forall i :: 0 <= i < |steps| ==> !steps[i].ignore
    ensures !steps[0].skip && !steps[6].skip
    ensures !steps[1].skip <==> flags.customkern && flags.fetch
    ensures !steps[2].skip <==> flags.deps
    ensures !steps[3].skip <==> flags.customkern && flags.fetch
    ensures !steps[4].skip <==> flags.fetch
    ensures !steps[5].skip <==> flags.customkern
  {
    [ Step("check environment", false, false),
      Step("cleanup", !flags.customkern || !flags.fetch, false),
      Step("install depenedencies", !flags.deps, false),
      Step("Git clone the kernel", !flags.customkern || !flags.fetch, false),
      Step("Git clone coreboot", !flags.fetch, false),
      Step("build the kernel", !flags.customkern, false),
      Step("build coreboot", false, false) ]
  }

  /** The steps that run under `flags`, as the options describe them. */
  function EnabledSteps(flags: Flags): seq<nat>
  {
    var both := flags.customkern && flags.fetch;
    [0] + ((if both then [1] else [])
    + ((if flags.deps then [2] else [])
    + ((if both then [3] else [])
    + ((if flags.fetch then [4] else [])
    + ((if flags.customkern then [5] else [])
    + [6])))))
  }

  /** When every action succeeds, the run succeeds having invoked exactly the enabled steps, in order. */
  lemma TableRunsEnabledSteps(flags: Flags, outs: seq<Outcome>)
    requires |outs| == 7 && forall i :: 0 <= i < 7 ==> outs[i] == Ok
    ensures Run(Table(flags), outs) == RunResult(Ok, EnabledSteps(flags))
  {
    var steps := Table(flags);
    assert NoFatal(steps, outs, 0, |steps|);
    RunSucceedsIff(steps, outs);
    TableInvokes(flags);
  }

  lemma TableInvokes(flags: Flags)
    ensures Invoked(Table(flags), 0, 7) == EnabledSteps(flags)
  {
    SevenStepsInvoke(Table(flags), flags);
  }

  lemma SevenStepsInvoke(steps: seq<Step>, flags: Flags)
    requires |steps| == 7
    requires !steps[0].skip && !steps[6].skip
    requires !steps[1].skip <==> flags.customkern && flags.fetch
    requires !steps[2].skip <==> flags.deps
    requires !steps[3].skip <==> flags.customkern && flags.fetch
    requires !steps[4].skip <==> flags.fetch
    requires !steps[5].skip <==> flags.customkern
    ensures Invoked(steps, 0, 7) == EnabledSteps(flags)
  {
    InvokedUnfold(steps, 6, 7);
    InvokedUnfold(steps, 5, 7);
    InvokedUnfold(steps, 4, 7);
    InvokedUnfold(steps, 3, 7);
    InvokedUnfold(steps, 2, 7);
    InvokedUnfold(steps, 1, 7);
    InvokedUnfold(steps, 0, 7);
    assert Invoked(steps, 7, 7) == [];
  }

  /** With none of the options given, only "check environment" and "build coreboot" run. */
  lemma DefaultRun(outs: seq<Outcome>)
    requires |outs| == 7 && forall i :: 0 <= i < 7 ==> outs[i] == Ok
    ensures Run(Table(Flags(false, false, false)), outs) == RunResult(Ok, [0, 6])
  {
    TableRunsEnabledSteps(Flags(false, false, false), outs);
  }

  /**
    No step of the table is ignore-flagged, so the run stops at the first
    enabled step whose action fails, reporting that step's name and the cause.
  */
  lemma TableStopsAtFirstFailure(flags: Flags, outs: seq<Outcome>, f: nat)
    requires |outs| == 7 && f < 7
    requires !Table(flags)[f].skip && outs[f].Err?
    requires forall j :: 0 <= j < f && !Table(flags)[j].skip ==> outs[j] == Ok
    ensures Run(Table(flags), outs).outcome == Err(Wrap(Table(flags)[f].name, outs[f].msg))
    ensures forall k :: k in Run(Table(flags), outs).trace ==> k <= f
  {
    RunFailsFast(Table(flags), outs, f);
  }

  /** `kernelGet` reports success even when the clone fails. */
  function KernelGet(clone: Outcome): (r: Outcome)
    ensures r == Ok
  {
    match clone
    case Err(_) => Ok
    case Ok => Ok
  }

  /**
    The kernel clone step never stops the run, whatever the clone does; nor does
    the dependency step when `depinstall` returns (it returns only nil).
  */
  lemma KernelAndDepsNeverStopRun(flags: Flags, outs: seq<Outcome>, clone: Outcome)
    requires |outs| == 7 && outs[3] == KernelGet(clone) && outs[2] == Ok
    ensures Run(Table(flags), outs).outcome.Err? ==>
              var t := Run(Table(flags), outs).trace;
              t != [] && t[|t| - 1] != 2 && t[|t| - 1] != 3
  {
    SucceedingStepNeverStops(Table(flags), outs, 2);
    SucceedingStepNeverStops(Table(flags), outs, 3);
  }
}
