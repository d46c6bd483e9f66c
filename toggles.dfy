/** The two toggle loops the Thrasher can run beside `do_thrash`, one loop
    iteration as a step function: the noscrub toggle walks a four-state cycle
    that sets and unsets the `noscrub` and `nodeep-scrub` cluster flags, and the
    op-tracker toggle flips `osd_enable_op_tracker` between "false" and "true". */
module Toggles {
  import opened Cluster

  // -----------------------------------------------------------------------
  // do_noscrub_toggle

  /** `scrub_state`: which of the two flags the loop has set. */
  datatype ScrubState = Unflagged | NoScrub | BothFlags | NoDeepScrub

  /** The flags set in the cluster while the loop is in `s`. */
  function FlagsOf(s: ScrubState): set<string>
  {
    match s
    case Unflagged => {}
    case NoScrub => {"noscrub"}
    case BothFlags => {"noscrub", "nodeep-scrub"}
    case NoDeepScrub => {"nodeep-scrub"}
  }

  /** One iteration: the flag command it sends in state `s`. */
  function ScrubCommand(s: ScrubState): Command
  {
    match s
    case Unflagged => OsdSetFlag("noscrub")
    case NoScrub => OsdSetFlag("nodeep-scrub")
    case BothFlags => OsdUnsetFlag("noscrub")
    case NoDeepScrub => OsdUnsetFlag("nodeep-scrub")
  }

  /** One iteration: the state it moves to. */
  function NextScrubState(s: ScrubState): ScrubState
  {
    match s
    case Unflagged => NoScrub
    case NoScrub => BothFlags
    case BothFlags => NoDeepScrub
    case NoDeepScrub => Unflagged
  }

  /** The effect of flag commands on the cluster's flag set; other commands leave it alone. */
  function ApplyFlags(flags: set<string>, cmds: seq<Command>): set<string>
  {
    if cmds == [] then flags
    else
      var before := ApplyFlags(flags, cmds[..|cmds| - 1]);
      match cmds[|cmds| - 1]
      case OsdSetFlag(f) => before + {f}
      case OsdUnsetFlag(f) => before - {f}
      case _ => before
  }

  /** The state after `n` iterations, starting from "none". */
  function ScrubStateAfter(n: nat): ScrubState
  {
    if n == 0 then Unflagged else NextScrubState(ScrubStateAfter(n - 1))
  }

  /** The commands of the first `n` iterations. */
  function ScrubTrace(n: nat): seq<Command>
  {
    if n == 0 then [] else ScrubTrace(n - 1) + [ScrubCommand(ScrubStateAfter(n - 1))]
  }

  /** The two unsets the loop sends once it stops. */
  const ScrubCleanup: seq<Command> := [OsdUnsetFlag("noscrub"), OsdUnsetFlag("nodeep-scrub")]

  /** Each iteration sends exactly one flag command, and the state named by the
      loop always matches the flags those commands leave set. */
  lemma {:induction false} ScrubTraceTracksState(n: nat)
    ensures |ScrubTrace(n)| == n
    ensures ApplyFlags({}, ScrubTrace(n)) == FlagsOf(ScrubStateAfter(n))
  {
    if n > 0 {
      ScrubTraceTracksState(n - 1);
      var t := ScrubTrace(n);
      assert t[..|t| - 1] == ScrubTrace(n - 1);
    }
  }

  /** The cycle none -> noscrub -> both -> nodeep-scrub -> none has period four. */
  lemma ScrubPeriod(n: nat)
    ensures ScrubStateAfter(n + 4) == ScrubStateAfter(n)
  {
    var s1 := ScrubStateAfter(n + 1);
    var s2 := ScrubStateAfter(n + 2);
    var s3 := ScrubStateAfter(n + 3);
    assert s1 == NextScrubState(ScrubStateAfter(n)) && s2 == NextScrubState(s1) && s3 == NextScrubState(s2);
  }

  /** After every whole number of cycles the loop is back at "none", with no flag set. */
  lemma {:induction false} ScrubCycle(n: nat)
    ensures ScrubStateAfter(4 * n) == Unflagged
  {
    if n > 0 {
      ScrubCycle(n - 1);
      ScrubPeriod(4 * (n - 1));
    }
  }

  /** However many iterations ran, both flags are clear after the final unsets. */
  lemma ScrubFlagsClearedAtEnd(n: nat)
    ensures ApplyFlags({}, ScrubTrace(n) + ScrubCleanup) == {}
  {
    ScrubTraceTracksState(n);
    var t := ScrubTrace(n) + ScrubCleanup;
    assert t[..|t| - 1][..|t| - 2] == ScrubTrace(n);
    assert t[..|t| - 1] == ScrubTrace(n) + [OsdUnsetFlag("noscrub")];
  }

  // -----------------------------------------------------------------------
  // do_optrack_toggle

  /** One iteration of the op-tracker toggle: "true" becomes "false", anything else "true". */
  function OptrackFlip(s: string): string
  {
    if s == "true" then "false" else "true"
  }

  /** The value sent in iteration `k` (from 0); the loop starts from "true". */
  function OptrackValue(k: nat): string
  {
    if k == 0 then OptrackFlip("true") else OptrackFlip(OptrackValue(k - 1))
  }

  /** The `injectargs` of one iteration, sent to every OSD. */
  function OptrackCommand(value: string): Command
  {
    InjectArgs("osd", Every, "osd_enable_op_tracker", TextValue(value))
  }

  /** The commands of the first `n` iterations. */
  function OptrackTrace(n: nat): seq<Command>
  {
    if n == 0 then [] else OptrackTrace(n - 1) + [OptrackCommand(OptrackValue(n - 1))]
  }

  /** The values alternate, starting with "false": even iterations disable op
      tracking and odd ones enable it again. */
  lemma {:induction false} OptrackAlternates(k: nat)
    ensures OptrackValue(k) == if k % 2 == 0 then "false" else "true"
  {
    if k > 0 {
      OptrackAlternates(k - 1);
    }
  }

  /** Iteration `k` of the trace sends the `k`-th value. */
  lemma {:induction false} OptrackTraceValues(n: nat)
    ensures |OptrackTrace(n)| == n
    ensures forall k :: 0 <= k < n ==> OptrackTrace(n)[k] == OptrackCommand(OptrackValue(k))
  {
    if n > 0 {
      OptrackTraceValues(n - 1);
    }
  }
}
