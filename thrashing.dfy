/** The Thrasher's bookkeeping: the four OSD lists it moves ids between
    (`in_osds`/`out_osds` and `live_osds`/`dead_osds`), the set of pools whose
    pgp_num still has to catch up with pg_num, and the settings it saves and
    restores. Every cluster command goes through its `CephManager`'s trace. */
module Thrashing {
  import opened Cluster
  import opened Lists
  import opened Actions
  import opened Manager
  import opened Toggles

  /** A daemon option the Thrasher changed at start and restores at the end. */
  datatype SavedOption = SavedOption(service: string, option: string, value: OptValue)

  /** The commands `kill_osd` sends for `osd` (`markedOut`: it was in and `mark_out` was set). */
  function KillCommands(osd: int, markDown: bool, markedOut: bool): seq<Command>
  {
    [OsdKill(osd)]
    + (if markDown then [OsdMarkDown(osd)] else [])
    + (if markedOut then [OsdMarkOut(osd)] else [])
  }

  /** The commands `revive_osd` sends: the restart, then, when read errors are
      being injected and `osd` is the chosen victim, the two error-rate settings. */
  function ReviveCommands(osd: int, timeout: int, randomEio: real, rerrOsd: Option<int>): seq<Command>
  {
    [OsdRevive(osd, timeout)] + ReadErrorCommands(osd, randomEio, rerrOsd)
  }

  function ReadErrorCommands(osd: int, randomEio: real, rerrOsd: Option<int>): seq<Command>
  {
    if randomEio > 0.0 && rerrOsd == Some(osd)
    then [SetConfig(osd, "filestore_debug_random_read_err", RealValue(randomEio)),
          SetConfig(osd, "bluestore_debug_random_read_err", RealValue(randomEio))]
    else []
  }

  /** The commands `all_up_in` sends after `all_up`: full weight and full primary
      affinity for every live OSD, in list order. */
  function FullyInCommands(live: seq<int>): seq<Command>
  {
    if live == [] then []
    else FullyInCommands(live[..|live| - 1])
         + [OsdReweight(live[|live| - 1], 1), OsdPrimaryAffinity(live[|live| - 1], 1)]
  }

  /** Two commands per live OSD, in list order: full weight at index 2k and full
      primary affinity at 2k + 1. */
  lemma {:induction false} FullyInCommandsEach(live: seq<int>)
    ensures |FullyInCommands(live)| == 2 * |live|
    ensures forall k :: 0 <= k < |live| ==>
      && FullyInCommands(live)[2 * k] == OsdReweight(live[k], 1)
      && FullyInCommands(live)[2 * k + 1] == OsdPrimaryAffinity(live[k], 1)
  {
    if live != [] {
      var init := live[..|live| - 1];
      FullyInCommandsEach(init);
      forall k | 0 <= k < |live|
        ensures FullyInCommands(live)[2 * k] == OsdReweight(live[k], 1)
        ensures FullyInCommands(live)[2 * k + 1] == OsdPrimaryAffinity(live[k], 1)
      {
        if k < |init| {
          assert live[k] == init[k];
        }
      }
    }
  }

  /** The `injectargs` commands that reset (`value` "0.0") or set the read-error rate of one OSD. */
  function EioCommands(osd: int, value: OptValue): seq<Command>
  {
    [InjectArgs("osd", One(osd), "filestore_debug_random_read_err", value),
     InjectArgs("osd", One(osd), "bluestore_debug_random_read_err", value)]
  }

  /** The commands of reviving the OSDs of `revived`, one after the other. */
  function ReviveTrace(revived: seq<int>, timeout: int, randomEio: real, rerrOsd: Option<int>): seq<Command>
  {
    if revived == [] then []
    else ReviveTrace(revived[..|revived| - 1], timeout, randomEio, rerrOsd)
         + ReviveCommands(revived[|revived| - 1], timeout, randomEio, rerrOsd)
  }

  /** One more revive adds its commands at the end of the trace. */
  lemma ReviveTraceSnoc(revived: seq<int>, victim: int, timeout: int, randomEio: real, rerrOsd: Option<int>)
    ensures ReviveTrace(revived + [victim], timeout, randomEio, rerrOsd)
         == ReviveTrace(revived, timeout, randomEio, rerrOsd) + ReviveCommands(victim, timeout, randomEio, rerrOsd)
  {
    assert (revived + [victim])[..|revived|] == revived;
  }

  /** A run of revives `revived`, from the dead list `dead0`, the live list
      `live0` and the command log `issued0`, leaves the lists `dead`, `live` and
      the log `issued`. */
  ghost predicate RevivedFrom(dead0: seq<int>, live0: seq<int>, issued0: seq<Command>, revived: seq<int>,
                              dead: seq<int>, live: seq<int>, issued: seq<Command>,
                              timeout: int, randomEio: real, rerrOsd: Option<int>)
  {
    && multiset(dead) + multiset(revived) == multiset(dead0)
    && |dead| + |revived| == |dead0|
    && live == live0 + revived
    && issued == issued0 + ReviveTrace(revived, timeout, randomEio, rerrOsd)
  }

  /** One more revive of a dead OSD extends the run. */
  lemma RevivedFromStep(dead0: seq<int>, live0: seq<int>, issued0: seq<Command>, revived: seq<int>,
                        dead: seq<int>, live: seq<int>, issued: seq<Command>,
                        timeout: int, randomEio: real, rerrOsd: Option<int>, victim: int)
    requires RevivedFrom(dead0, live0, issued0, revived, dead, live, issued, timeout, randomEio, rerrOsd)
    requires victim in dead
    ensures RevivedFrom(dead0, live0, issued0, revived + [victim],
                        RemoveFirst(dead, victim), live + [victim],
                        issued + ReviveCommands(victim, timeout, randomEio, rerrOsd),
                        timeout, randomEio, rerrOsd)
  {
    var rest := RemoveFirst(dead, victim);
    assert multiset(rest) + multiset(revived + [victim]) == multiset(dead0)
        && |rest| + |revived + [victim]| == |dead0| by {
      RemoveFirstCount(dead, victim);
      assert multiset(revived + [victim]) == multiset(revived) + multiset{victim};
    }
    assert live + [victim] == live0 + (revived + [victim]);
    var step := ReviveCommands(victim, timeout, randomEio, rerrOsd);
    assert issued + step == issued0 + ReviveTrace(revived + [victim], timeout, randomEio, rerrOsd) by {
      ReviveTraceSnoc(revived, victim, timeout, randomEio, rerrOsd);
      var trace := ReviveTrace(revived, timeout, randomEio, rerrOsd);
      assert issued + step == issued0 + (trace + step);
    }
  }

  /** Every OSD of `revived` gets its restart command. */
  lemma {:induction false} ReviveTraceRevivesEach(revived: seq<int>, timeout: int, randomEio: real, rerrOsd: Option<int>)
    ensures forall x :: x in revived ==> OsdRevive(x, timeout) in ReviveTrace(revived, timeout, randomEio, rerrOsd)
    ensures |ReviveTrace(revived, timeout, randomEio, rerrOsd)| >= |revived|
  {
    if revived != [] {
      var init := revived[..|revived| - 1];
      var last := revived[|revived| - 1];
      ReviveTraceRevivesEach(init, timeout, randomEio, rerrOsd);
      var t := ReviveTrace(revived, timeout, randomEio, rerrOsd);
      assert t == ReviveTrace(init, timeout, randomEio, rerrOsd) + ReviveCommands(last, timeout, randomEio, rerrOsd);
      forall x | x in revived ensures OsdRevive(x, timeout) in t {
        if x !in init {
          assert revived == init + [last];
          assert t[|ReviveTrace(init, timeout, randomEio, rerrOsd)|] == OsdRevive(x, timeout);
        }
      }
    }
  }

  /** The commands of marking the OSDs of `marked` in, one after the other. */
  function MarkInTrace(marked: seq<int>): (cmds: seq<Command>)
    ensures |cmds| == |marked| && forall k :: 0 <= k < |marked| ==> cmds[k] == OsdMarkIn(marked[k])
  {
    if marked == [] then [] else MarkInTrace(marked[..|marked| - 1]) + [OsdMarkIn(marked[|marked| - 1])]
  }

  /** A run of mark-ins `marked`, from the out list `out0`, the in list `in0`
      and the command log `issued0`, leaves the lists `out`, `inn` and the log
      `issued`. */
  ghost predicate MarkedFrom(out0: seq<int>, in0: seq<int>, issued0: seq<Command>, marked: seq<int>,
                             out: seq<int>, inn: seq<int>, issued: seq<Command>)
  {
    && multiset(out) + multiset(marked) == multiset(out0)
    && |out| + |marked| == |out0|
    && inn == in0 + marked
    && issued == issued0 + MarkInTrace(marked)
  }

  /** One more mark-in of an out OSD extends the run. */
  lemma MarkedFromStep(out0: seq<int>, in0: seq<int>, issued0: seq<Command>, marked: seq<int>,
                       out: seq<int>, inn: seq<int>, issued: seq<Command>, victim: int)
    requires MarkedFrom(out0, in0, issued0, marked, out, inn, issued)
    requires victim in out
    ensures MarkedFrom(out0, in0, issued0, marked + [victim],
                       RemoveFirst(out, victim), inn + [victim], issued + [OsdMarkIn(victim)])
  {
    RemoveFirstCount(out, victim);
    assert multiset(marked + [victim]) == multiset(marked) + multiset{victim};
    assert (marked + [victim])[..|marked|] == marked;
    assert MarkInTrace(marked + [victim]) == MarkInTrace(marked) + [OsdMarkIn(victim)];
    assert issued + [OsdMarkIn(victim)] == issued0 + (MarkInTrace(marked) + [OsdMarkIn(victim)]);
  }

  /** The read-error reset of the shutdown: "0.0" for the error victim, when
      errors are injected and the victim was chosen. */
  function ResetCommands(randomEio: real, rerrOsd: Option<int>): seq<Command>
  {
    if randomEio > 0.0 && rerrOsd.Some? then EioCommands(rerrOsd.value, TextValue("0.0")) else []
  }

  /** The forced `fix_pgp_num` of one pool at shutdown: nothing when its recorded
      pg_num is not positive, else the pgp_num update, retried on EAGAIN. */
  function PgpFix(pool: string, pools: map<string, int>, eagainsFor: string -> nat): seq<Command>
  {
    if pool in pools && pools[pool] > 0
    then Repeat(PoolSet(pool, "pgp_num", IntValue(pools[pool])), SetAttempts(eagainsFor(pool)))
    else []
  }

  /** The commands of the shutdown's pgp_num catch-up over the pools of `order`. */
  function DrainTrace(order: seq<string>, pools: map<string, int>, eagainsFor: string -> nat): seq<Command>
  {
    if order == [] then []
    else DrainTrace(order[..|order| - 1], pools, eagainsFor) + PgpFix(order[|order| - 1], pools, eagainsFor)
  }

  /** The pools of `order` whose catch-up succeeds. */
  function CaughtUp(order: seq<string>, pools: map<string, int>, eagainsFor: string -> nat): set<string>
  {
    set p | p in order && p in pools && pools[p] > 0 && eagainsFor(p) <= MaxEagainTries
  }

  /** Every pool of `order` that has PGs gets its pgp_num set to its pg_num. */
  lemma {:induction false} DrainTraceSetsEach(order: seq<string>, pools: map<string, int>, eagainsFor: string -> nat)
    ensures forall p :: p in order && p in pools && pools[p] > 0 ==>
      PoolSet(p, "pgp_num", IntValue(pools[p])) in DrainTrace(order, pools, eagainsFor)
  {
    if order != [] {
      var init := order[..|order| - 1];
      var last := order[|order| - 1];
      DrainTraceSetsEach(init, pools, eagainsFor);
      var t := DrainTrace(order, pools, eagainsFor);
      assert t == DrainTrace(init, pools, eagainsFor) + PgpFix(last, pools, eagainsFor);
      forall p | p in order && p in pools && pools[p] > 0
        ensures PoolSet(p, "pgp_num", IntValue(pools[p])) in t
      {
        if p !in init {
          assert order == init + [last];
          assert t[|DrainTrace(init, pools, eagainsFor)|] == PoolSet(p, "pgp_num", IntValue(pools[p]));
        }
      }
    }
  }

  /** The `injectargs` commands that put saved options back, in order. */
  function RestoreCommands(saved: seq<SavedOption>): seq<Command>
  {
    if saved == [] then []
    else [InjectArgs(saved[0].service, Every, saved[0].option, saved[0].value)]
         + RestoreCommands(saved[1..])
  }

  class Thrasher {
    const manager: CephManager
    const cfg: ThrashConfig
    const settings: Settings
    var inOsds: seq<int>
    var outOsds: seq<int>
    var liveOsds: seq<int>
    var deadOsds: seq<int>
    /** The OSDs of the cluster (the lists at start-up), for stating the partition. */
    ghost const osds: set<int>
    /** `rerrosd`: the OSD read errors are injected into, once `do_thrash` has chosen it. */
    var rerrOsd: Option<int>
    /** `pools_to_fix_pgp_num`. */
    var poolsToFix: set<string>
    var savedOptions: seq<SavedOption>

    /** in/out and live/dead each partition the cluster's OSDs. */
    ghost predicate Valid()
      reads this
    {
      Partitions(inOsds, outOsds, osds) && Partitions(liveOsds, deadOsds, osds)
    }

    /** The constructor: the four lists come from `get_osd_status`; the monitor's
        down-out interval (`monValue`, read with `get_config`) is saved and set to 0. */
    constructor (m: CephManager, config: ThrashConfig,
                 in0: seq<int>, out0: seq<int>, live0: seq<int>, dead0: seq<int>,
                 monValue: OptValue)
      modifies m
      ensures manager == m && cfg == config
      ensures settings == SettingsOf(config, |in0| + |out0|)
      ensures inOsds == in0 && outOsds == out0 && liveOsds == live0 && deadOsds == dead0
      ensures osds == Elems(in0 + out0)
      ensures rerrOsd == None && poolsToFix == {}
      ensures savedOptions == [SavedOption("mon", "mon_osd_down_out_interval", monValue)]
      ensures m.issued == old(m.issued) + [InjectArgs("mon", Every, "mon_osd_down_out_interval", IntValue(0))]
      ensures m.pools == old(m.pools) && m.nextPoolId == old(m.nextPoolId)
      ensures NoDup(in0 + out0) && NoDup(live0 + dead0) && Elems(live0 + dead0) == Elems(in0 + out0) ==> Valid()
    {
      manager := m;
      cfg := config;
      settings := SettingsOf(config, |in0| + |out0|);
      inOsds, outOsds, liveOsds, deadOsds := in0, out0, live0, dead0;
      osds := Elems(in0 + out0);
      rerrOsd := None;
      poolsToFix := {};
      savedOptions := [SavedOption("mon", "mon_osd_down_out_interval", monValue)];
      new;
      m.Issue(InjectArgs("mon", Every, "mon_osd_down_out_interval", IntValue(0)));
      if NoDup(in0 + out0) && NoDup(live0 + dead0) && Elems(live0 + dead0) == Elems(in0 + out0) {
        NoDupMultiset(in0 + out0);
        NoDupMultiset(live0 + dead0);
        assert multiset(in0 + out0) == multiset(in0) + multiset(out0);
        assert multiset(live0 + dead0) == multiset(live0) + multiset(dead0);
      }
    }

    /** `kill_osd` (the list moves and commands; the objectstore-tool test is not
        modelled): take `osd`, or any live OSD, out of `live_osds`, append it to
        `dead_osds`, kill it, optionally mark it down, and mark it out when asked
        and it is in. */
    method KillOsd(osd: Option<int>, markDown: bool, markOut: bool)
      returns (victim: int, outcome: Outcome)
      modifies this, manager
      ensures osd.Some? ==> victim == osd.value
      ensures osd.None? && old(liveOsds) != [] ==> victim in old(liveOsds)
      ensures outcome == (if osd.None? && old(liveOsds) == [] then Raised(IndexError)
                          else if victim !in old(liveOsds) then Raised(ValueError)
                          else Done)
      ensures outcome.Raised? ==> unchanged(this) && unchanged(manager)
      ensures outcome.Done? ==>
        && liveOsds == RemoveFirst(old(liveOsds), victim)
        && deadOsds == old(deadOsds) + [victim]
        && var markedOut := markOut && victim in old(inOsds);
        && (markedOut ==> inOsds == RemoveFirst(old(inOsds), victim) && outOsds == old(outOsds) + [victim])
        && (!markedOut ==> inOsds == old(inOsds) && outOsds == old(outOsds))
        && manager.issued == old(manager.issued) + KillCommands(victim, markDown, markedOut)
      ensures rerrOsd == old(rerrOsd) && poolsToFix == old(poolsToFix) && savedOptions == old(savedOptions)
      ensures manager.pools == old(manager.pools) && manager.nextPoolId == old(manager.nextPoolId)
      ensures old(Valid()) ==> Valid()
    {
      if osd.None? {
        if liveOsds == [] {
          return 0, Raised(IndexError);
        }
        var k :| 0 <= k < |liveOsds|;
        victim := liveOsds[k];
      } else {
        victim := osd.value;
      }
      if victim !in liveOsds {
        return victim, Raised(ValueError);
      }
      Kill(victim, markDown, markOut);
      outcome := Done;
    }

    /** The part of `kill_osd` after choosing, for an OSD that is live. */
    method Kill(victim: int, markDown: bool, markOut: bool)
      requires victim in liveOsds
      modifies this, manager
      ensures liveOsds == RemoveFirst(old(liveOsds), victim) && deadOsds == old(deadOsds) + [victim]
      ensures var markedOut := markOut && victim in old(inOsds);
        && (markedOut ==> inOsds == RemoveFirst(old(inOsds), victim) && outOsds == old(outOsds) + [victim])
        && (!markedOut ==> inOsds == old(inOsds) && outOsds == old(outOsds))
        && manager.issued == old(manager.issued) + KillCommands(victim, markDown, markedOut)
      ensures rerrOsd == old(rerrOsd) && poolsToFix == old(poolsToFix) && savedOptions == old(savedOptions)
      ensures manager.pools == old(manager.pools) && manager.nextPoolId == old(manager.nextPoolId)
      ensures old(Valid()) ==> Valid()
    {
      if Valid() {
        MoveKeepsPartition(liveOsds, deadOsds, osds, victim);
      }
      liveOsds := RemoveFirst(liveOsds, victim);
      deadOsds := deadOsds + [victim];
      manager.Issue(OsdKill(victim));
      if markDown {
        manager.Issue(OsdMarkDown(victim));
      }
      if markOut && victim in inOsds {
        var _, _ := OutOsd(Some(victim));
      }
    }

    /** `revive_osd`: restart `osd`, or any dead OSD, move it from `dead_osds` to
        `live_osds`, and re-apply the read-error rate when it is the error victim.
        The restart is sent before the list is checked. */
    method ReviveOsd(osd: Option<int>) returns (victim: int, outcome: Outcome)
      modifies this, manager
      ensures osd.Some? ==> victim == osd.value
      ensures osd.None? && old(deadOsds) != [] ==> victim in old(deadOsds)
      ensures outcome == (if osd.None? && old(deadOsds) == [] then Raised(IndexError)
                          else if victim !in old(deadOsds) then Raised(ValueError)
                          else if settings.randomEio > 0.0 && rerrOsd.None? then Raised(AttributeError)
                          else Done)
      ensures outcome == Raised(IndexError) ==> unchanged(this) && unchanged(manager)
      ensures outcome == Raised(ValueError) ==>
        unchanged(this) && manager.issued == old(manager.issued) + [OsdRevive(victim, settings.reviveTimeout)]
      ensures outcome == Done || outcome == Raised(AttributeError) ==>
        && deadOsds == RemoveFirst(old(deadOsds), victim)
        && liveOsds == old(liveOsds) + [victim]
        && manager.issued == old(manager.issued) + ReviveCommands(victim, settings.reviveTimeout, settings.randomEio, rerrOsd)
      ensures inOsds == old(inOsds) && outOsds == old(outOsds)
      ensures rerrOsd == old(rerrOsd) && poolsToFix == old(poolsToFix) && savedOptions == old(savedOptions)
      ensures manager.pools == old(manager.pools) && manager.nextPoolId == old(manager.nextPoolId)
      ensures old(Valid()) ==> Valid()
    {
      if osd.None? {
        if deadOsds == [] {
          return 0, Raised(IndexError);
        }
        var k :| 0 <= k < |deadOsds|;
        victim := deadOsds[k];
      } else {
        victim := osd.value;
      }
      manager.Issue(OsdRevive(victim, settings.reviveTimeout));
      if victim !in deadOsds {
        return victim, Raised(ValueError);
      }
      outcome := BringBack(victim);
    }

    /** The part of `revive_osd` after the restart, for an OSD that is dead. */
    method BringBack(victim: int) returns (outcome: Outcome)
      requires victim in deadOsds
      modifies this, manager
      ensures outcome == (if settings.randomEio > 0.0 && rerrOsd.None? then Raised(AttributeError) else Done)
      ensures deadOsds == RemoveFirst(old(deadOsds), victim) && liveOsds == old(liveOsds) + [victim]
      ensures manager.issued == old(manager.issued) + ReadErrorCommands(victim, settings.randomEio, rerrOsd)
      ensures inOsds == old(inOsds) && outOsds == old(outOsds)
      ensures rerrOsd == old(rerrOsd) && poolsToFix == old(poolsToFix) && savedOptions == old(savedOptions)
      ensures manager.pools == old(manager.pools) && manager.nextPoolId == old(manager.nextPoolId)
      ensures old(Valid()) ==> Valid()
    {
      if Valid() {
        MoveKeepsPartition(deadOsds, liveOsds, osds, victim);
      }
      deadOsds := RemoveFirst(deadOsds, victim);
      liveOsds := liveOsds + [victim];
      if settings.randomEio > 0.0 {
        if rerrOsd.None? {
          return Raised(AttributeError);
        }
        if victim == rerrOsd.value {
          manager.Issue(SetConfig(victim, "filestore_debug_random_read_err", RealValue(settings.randomEio)));
          manager.Issue(SetConfig(victim, "bluestore_debug_random_read_err", RealValue(settings.randomEio)));
        }
      }
      outcome := Done;
    }

    /** `out_osd`: mark `osd`, or any in OSD, out and move it from `in_osds` to
        `out_osds`. The mark-out is sent before the list is checked. */
    method OutOsd(osd: Option<int>) returns (victim: int, outcome: Outcome)
      modifies this, manager
      ensures osd.Some? ==> victim == osd.value
      ensures osd.None? && old(inOsds) != [] ==> victim in old(inOsds)
      ensures outcome == (if osd.None? && old(inOsds) == [] then Raised(IndexError)
                          else if victim !in old(inOsds) then Raised(ValueError)
                          else Done)
      ensures outcome == Raised(IndexError) ==> unchanged(this) && unchanged(manager)
      ensures outcome == Raised(ValueError) ==>
        unchanged(this) && manager.issued == old(manager.issued) + [OsdMarkOut(victim)]
      ensures outcome.Done? ==>
        && inOsds == RemoveFirst(old(inOsds), victim)
        && outOsds == old(outOsds) + [victim]
        && manager.issued == old(manager.issued) + [OsdMarkOut(victim)]
      ensures liveOsds == old(liveOsds) && deadOsds == old(deadOsds)
      ensures rerrOsd == old(rerrOsd) && poolsToFix == old(poolsToFix) && savedOptions == old(savedOptions)
      ensures manager.pools == old(manager.pools) && manager.nextPoolId == old(manager.nextPoolId)
      ensures old(Valid()) ==> Valid()
    {
      if osd.None? {
        if inOsds == [] {
          return 0, Raised(IndexError);
        }
        var k :| 0 <= k < |inOsds|;
        victim := inOsds[k];
      } else {
        victim := osd.value;
      }
      manager.Issue(OsdMarkOut(victim));
      if victim !in inOsds {
        return victim, Raised(ValueError);
      }
      if Valid() {
        MoveKeepsPartition(inOsds, outOsds, osds, victim);
      }
      inOsds := RemoveFirst(inOsds, victim);
      outOsds := outOsds + [victim];
      outcome := Done;
    }

    /** `in_osd`: for `osd`, or any out OSD, that is dead only revive it (the
        in/out lists stay as they are); otherwise move it from `out_osds` to
        `in_osds` and mark it in. */
    method InOsd(osd: Option<int>) returns (victim: int, outcome: Outcome)
      modifies this, manager
      ensures osd.Some? ==> victim == osd.value
      ensures osd.None? && old(outOsds) != [] ==> victim in old(outOsds)
      ensures osd.None? && old(outOsds) == [] ==> outcome == Raised(IndexError) && unchanged(this) && unchanged(manager)
      ensures !(osd.None? && old(outOsds) == []) && victim in old(deadOsds) ==>
        && inOsds == old(inOsds) && outOsds == old(outOsds)
        && outcome == (if settings.randomEio > 0.0 && rerrOsd.None? then Raised(AttributeError) else Done)
        && deadOsds == RemoveFirst(old(deadOsds), victim)
        && liveOsds == old(liveOsds) + [victim]
        && manager.issued == old(manager.issued) + ReviveCommands(victim, settings.reviveTimeout, settings.randomEio, rerrOsd)
      ensures !(osd.None? && old(outOsds) == []) && victim !in old(deadOsds) ==>
        && liveOsds == old(liveOsds) && deadOsds == old(deadOsds)
        && outcome == (if victim in old(outOsds) then Done else Raised(ValueError))
        && (outcome.Raised? ==> unchanged(this) && unchanged(manager))
        && (outcome.Done? ==>
              inOsds == old(inOsds) + [victim] && outOsds == RemoveFirst(old(outOsds), victim)
              && manager.issued == old(manager.issued) + [OsdMarkIn(victim)])
      ensures rerrOsd == old(rerrOsd) && poolsToFix == old(poolsToFix) && savedOptions == old(savedOptions)
      ensures manager.pools == old(manager.pools) && manager.nextPoolId == old(manager.nextPoolId)
      ensures old(Valid()) ==> Valid()
    {
      if osd.None? {
        if outOsds == [] {
          return 0, Raised(IndexError);
        }
        var k :| 0 <= k < |outOsds|;
        victim := outOsds[k];
      } else {
        victim := osd.value;
      }
      if victim in deadOsds {
        victim, outcome := ReviveOsd(Some(victim));
        return;
      }
      if victim !in outOsds {
        return victim, Raised(ValueError);
      }
      MarkIn(victim);
      outcome := Done;
    }

    /** The part of `in_osd` for an OSD that is out and not dead. */
    method MarkIn(victim: int)
      requires victim in outOsds
      modifies this, manager
      ensures inOsds == old(inOsds) + [victim] && outOsds == RemoveFirst(old(outOsds), victim)
      ensures manager.issued == old(manager.issued) + [OsdMarkIn(victim)]
      ensures liveOsds == old(liveOsds) && deadOsds == old(deadOsds)
      ensures rerrOsd == old(rerrOsd) && poolsToFix == old(poolsToFix) && savedOptions == old(savedOptions)
      ensures manager.pools == old(manager.pools) && manager.nextPoolId == old(manager.nextPoolId)
      ensures old(Valid()) ==> Valid()
    {
      if Valid() {
        MoveKeepsPartition(outOsds, inOsds, osds, victim);
      }
      outOsds := RemoveFirst(outOsds, victim);
      inOsds := inOsds + [victim];
      manager.Issue(OsdMarkIn(victim));
    }

    /** `all_up`: revive dead OSDs until none is left, then mark out OSDs in until
        none is left. `revived` and `marked` are the OSDs in the order the random
        choices took them. It can only fail by reading `rerrosd` before it is set,
        which happens at the first revive. The first loop is the clean-up
        revive loop of `do_thrash` with `max_dead` 0. */
    method AllUp() returns (outcome: Outcome, revived: seq<int>, marked: seq<int>)
      modifies this, manager
      ensures outcome == (if settings.randomEio > 0.0 && rerrOsd.None? && old(deadOsds) != []
                          then Raised(AttributeError) else Done)
      ensures outcome.Raised? ==>
        |revived| == 1 && marked == [] && deadOsds == RemoveFirst(old(deadOsds), revived[0])
      ensures outcome.Done? ==> deadOsds == [] && outOsds == []
      ensures outcome.Done? ==>
        multiset(revived) == multiset(old(deadOsds)) && multiset(marked) == multiset(old(outOsds))
      ensures multiset(deadOsds) + multiset(revived) == multiset(old(deadOsds))
      ensures multiset(outOsds) + multiset(marked) == multiset(old(outOsds))
      ensures old(deadOsds) == [] ==> revived == []
      ensures old(outOsds) == [] ==> marked == []
      ensures liveOsds == old(liveOsds) + revived && inOsds == old(inOsds) + marked
      ensures manager.issued == old(manager.issued)
        + ReviveTrace(revived, settings.reviveTimeout, settings.randomEio, rerrOsd) + MarkInTrace(marked)
      ensures outcome.Done? && old(Valid()) ==>
        multiset(liveOsds) == multiset(osds) && multiset(inOsds) == multiset(osds)
      ensures rerrOsd == old(rerrOsd) && poolsToFix == old(poolsToFix) && savedOptions == old(savedOptions)
      ensures manager.pools == old(manager.pools) && manager.nextPoolId == old(manager.nextPoolId)
      ensures old(Valid()) ==> Valid()
    {
      marked := [];
      outcome, revived := ReviveDownTo(0);
      if outcome.Raised? {
        return;
      }
      marked := MarkAllIn();
    }

    /** The second loop of `all_up`: with no OSD dead, `in_osd` marks a random out
        OSD in until none is out. */
    method MarkAllIn() returns (marked: seq<int>)
      requires deadOsds == []
      modifies this, manager
      ensures outOsds == [] && multiset(marked) == multiset(old(outOsds))
      ensures inOsds == old(inOsds) + marked
      ensures manager.issued == old(manager.issued) + MarkInTrace(marked)
      ensures liveOsds == old(liveOsds) && deadOsds == []
      ensures rerrOsd == old(rerrOsd) && poolsToFix == old(poolsToFix) && savedOptions == old(savedOptions)
      ensures manager.pools == old(manager.pools) && manager.nextPoolId == old(manager.nextPoolId)
      ensures old(Valid()) ==> Valid()
    {
      marked := [];
      while |outOsds| > 0
        invariant deadOsds == [] && liveOsds == old(liveOsds)
        invariant MarkedSince(old(outOsds), old(inOsds), old(manager.issued), marked)
        invariant rerrOsd == old(rerrOsd) && poolsToFix == old(poolsToFix) && savedOptions == old(savedOptions)
        invariant manager.pools == old(manager.pools) && manager.nextPoolId == old(manager.nextPoolId)
        decreases |outOsds|
      {
        var victim := MarkAnyIn(old(outOsds), old(inOsds), old(manager.issued), marked);
        marked := marked + [victim];
      }
      assert multiset(inOsds) + multiset(outOsds) == multiset(old(inOsds)) + multiset(old(outOsds));
    }

    /** How far a run of `in_osd()` calls starting from the lists `out0`, `in0`
        and the command log `issued0` has got: `marked` left the out list,
        joined the in list in that order, and each was marked in. */
    ghost predicate MarkedSince(out0: seq<int>, in0: seq<int>, issued0: seq<Command>, marked: seq<int>)
      reads this, manager
    {
      MarkedFrom(out0, in0, issued0, marked, outOsds, inOsds, manager.issued)
    }

    /** One `in_osd()` with no OSD dead: a random out OSD moves to the in list;
        the run `marked` grows by it. */
    method MarkAnyIn(ghost out0: seq<int>, ghost in0: seq<int>, ghost issued0: seq<Command>, ghost marked: seq<int>)
      returns (victim: int)
      requires outOsds != [] && deadOsds == [] && MarkedSince(out0, in0, issued0, marked)
      modifies this, manager
      ensures victim in old(outOsds)
      ensures MarkedSince(out0, in0, issued0, marked + [victim])
      ensures liveOsds == old(liveOsds) && deadOsds == []
      ensures rerrOsd == old(rerrOsd) && poolsToFix == old(poolsToFix) && savedOptions == old(savedOptions)
      ensures manager.pools == old(manager.pools) && manager.nextPoolId == old(manager.nextPoolId)
    {
      var o;
      victim, o := InOsd(None);
      MarkedFromStep(out0, in0, issued0, marked, old(outOsds), old(inOsds), old(manager.issued), victim);
    }

    /** `all_up_in`: `all_up`, then full weight and primary affinity for every live OSD. */
    method AllUpIn() returns (outcome: Outcome, revived: seq<int>, marked: seq<int>)
      modifies this, manager
      ensures outcome == (if settings.randomEio > 0.0 && rerrOsd.None? && old(deadOsds) != []
                          then Raised(AttributeError) else Done)
      ensures outcome.Raised? ==>
        |revived| == 1 && marked == [] && deadOsds == RemoveFirst(old(deadOsds), revived[0])
      ensures outcome.Done? ==> deadOsds == [] && outOsds == []
      ensures outcome.Done? ==>
        multiset(revived) == multiset(old(deadOsds)) && multiset(marked) == multiset(old(outOsds))
      ensures multiset(deadOsds) + multiset(revived) == multiset(old(deadOsds))
      ensures multiset(outOsds) + multiset(marked) == multiset(old(outOsds))
      ensures old(deadOsds) == [] ==> revived == []
      ensures old(outOsds) == [] ==> marked == []
      ensures liveOsds == old(liveOsds) + revived && inOsds == old(inOsds) + marked
      ensures manager.issued == old(manager.issued)
        + ReviveTrace(revived, settings.reviveTimeout, settings.randomEio, rerrOsd) + MarkInTrace(marked)
        + (if outcome.Done? then FullyInCommands(liveOsds) else [])
      ensures rerrOsd == old(rerrOsd) && poolsToFix == old(poolsToFix) && savedOptions == old(savedOptions)
      ensures manager.pools == old(manager.pools) && manager.nextPoolId == old(manager.nextPoolId)
      ensures old(Valid()) ==> Valid()
    {
      outcome, revived, marked := AllUp();
      if outcome.Raised? {
        return;
      }
      FullyIn();
    }

    /** The loop of `all_up_in` after `all_up`: full weight and full primary
        affinity for each live OSD. */
    method FullyIn()
      modifies manager
      ensures manager.issued == old(manager.issued) + FullyInCommands(liveOsds)
      ensures manager.pools == old(manager.pools) && manager.nextPoolId == old(manager.nextPoolId)
    {
      var live := liveOsds;
      ghost var before := manager.issued;
      for i := 0 to |live|
        modifies manager
        invariant manager.issued == before + FullyInCommands(live[..i])
        invariant manager.pools == old(manager.pools) && manager.nextPoolId == old(manager.nextPoolId)
      {
        assert live[..i + 1][..i] == live[..i];
        manager.Issue(OsdReweight(live[i], 1));
        manager.Issue(OsdPrimaryAffinity(live[i], 1));
      }
      assert live[..|live|] == live;
    }

    /** The clean-up step of the `do_thrash` loop: revive random dead OSDs while
        more than `maxDead` are dead; `revived` lists them in the order chosen.
        With a negative `maxDead` it runs out of dead OSDs and `random.choice`
        raises IndexError. */
    method ReviveDownTo(maxDead: int) returns (outcome: Outcome, revived: seq<int>)
      modifies this, manager
      ensures outcome == (if settings.randomEio > 0.0 && rerrOsd.None? && |old(deadOsds)| > maxDead
                            && old(deadOsds) != [] then Raised(AttributeError)
                          else if maxDead < 0 then Raised(IndexError)
                          else Done)
      ensures outcome == Raised(AttributeError) ==>
        |revived| == 1 && deadOsds == RemoveFirst(old(deadOsds), revived[0])
      ensures outcome.Done? ==> |deadOsds| == if |old(deadOsds)| > maxDead then maxDead else |old(deadOsds)|
      ensures multiset(deadOsds) + multiset(revived) == multiset(old(deadOsds))
      ensures liveOsds == old(liveOsds) + revived
      ensures manager.issued == old(manager.issued)
        + ReviveTrace(revived, settings.reviveTimeout, settings.randomEio, rerrOsd)
      ensures inOsds == old(inOsds) && outOsds == old(outOsds)
      ensures rerrOsd == old(rerrOsd) && poolsToFix == old(poolsToFix) && savedOptions == old(savedOptions)
      ensures manager.pools == old(manager.pools) && manager.nextPoolId == old(manager.nextPoolId)
      ensures old(Valid()) ==> Valid()
    {
      revived := [];
      if |deadOsds| > maxDead && deadOsds != [] && settings.randomEio > 0.0 && rerrOsd.None? {
        // the first revive already fails, after changing the lists
        var victim;
        victim, outcome := ReviveAny(old(deadOsds), old(liveOsds), old(manager.issued), revived);
        revived := [victim];
        return;
      }
      while |deadOsds| > maxDead
        invariant settings.randomEio > 0.0 && rerrOsd.None? ==>
          revived == [] && (|deadOsds| <= maxDead || deadOsds == [])
        invariant revived != [] ==> |deadOsds| >= maxDead
        invariant RevivedSince(old(deadOsds), old(liveOsds), old(manager.issued), revived)
        invariant inOsds == old(inOsds) && outOsds == old(outOsds)
        invariant rerrOsd == old(rerrOsd) && poolsToFix == old(poolsToFix) && savedOptions == old(savedOptions)
        invariant manager.pools == old(manager.pools) && manager.nextPoolId == old(manager.nextPoolId)
        decreases |deadOsds|
      {
        if deadOsds == [] {
          return Raised(IndexError), revived;
        }
        var victim, _ := ReviveAny(old(deadOsds), old(liveOsds), old(manager.issued), revived);
        revived := revived + [victim];
      }
      outcome := Done;
      assert multiset(liveOsds) + multiset(deadOsds) == multiset(old(liveOsds)) + multiset(old(deadOsds));
    }

    /** How far a run of revives starting from the lists `dead0`, `live0` and the
        command log `issued0` has got: `revived` left the dead list, joined the
        live list in that order, and each sent its revive commands. */
    ghost predicate RevivedSince(dead0: seq<int>, live0: seq<int>, issued0: seq<Command>, revived: seq<int>)
      reads this, manager
    {
      RevivedFrom(dead0, live0, issued0, revived, deadOsds, liveOsds, manager.issued,
                  settings.reviveTimeout, settings.randomEio, rerrOsd)
    }

    /** One `revive_osd()`: a random dead OSD comes back; the run of revives
        `revived` grows by it. */
    method ReviveAny(ghost dead0: seq<int>, ghost live0: seq<int>, ghost issued0: seq<Command>, ghost revived: seq<int>)
      returns (victim: int, outcome: Outcome)
      requires deadOsds != [] && RevivedSince(dead0, live0, issued0, revived)
      modifies this, manager
      ensures victim in old(deadOsds)
      ensures outcome == (if settings.randomEio > 0.0 && rerrOsd.None? then Raised(AttributeError) else Done)
      ensures deadOsds == RemoveFirst(old(deadOsds), victim)
      ensures RevivedSince(dead0, live0, issued0, revived + [victim])
      ensures inOsds == old(inOsds) && outOsds == old(outOsds)
      ensures rerrOsd == old(rerrOsd) && poolsToFix == old(poolsToFix) && savedOptions == old(savedOptions)
      ensures manager.pools == old(manager.pools) && manager.nextPoolId == old(manager.nextPoolId)
    {
      victim, outcome := ReviveOsd(None);
      RevivedFromStep(dead0, live0, issued0, revived, old(deadOsds), old(liveOsds), old(manager.issued),
                      settings.reviveTimeout, settings.randomEio, rerrOsd, victim);
    }

    /** `choose_action`: build the table for the current list sizes and walk it
        with the draw `val`. An OSD-moving action is only ever chosen while its
        list is above the configured minimum. */
    method ChooseAction(val: real) returns (choice: Option<Action>)
      ensures choice == Walk(BuildTable(cfg, settings, |inOsds|, |outOsds|, |liveOsds|, |deadOsds|), val)
      ensures choice == Some(Action.OutOsd) ==> |inOsds| > settings.minIn
      ensures choice == Some(Action.KillOsd) ==> |liveOsds| > cfg.minLive.GetOr(2) && ChanceDown(cfg) > 0.0
      ensures choice == Some(Action.InOsd) ==> |outOsds| > cfg.minOut.GetOr(0)
      ensures choice == Some(Action.ReviveOsd) ==> |deadOsds| > cfg.minDead.GetOr(0)
    {
      var table := BuildTable(cfg, settings, |inOsds|, |outOsds|, |liveOsds|, |deadOsds|);
      choice := PickAction(table, val);
      WalkPicksFromTable(table, val);
      TableGuards(cfg, settings, |inOsds|, |outOsds|, |liveOsds|, |deadOsds|);
    }

    /** What an OSD move `a` run with its default arguments (any OSD of the right
        list; no mark-down or mark-out on kill) did, `victim` being the OSD it took:
        the list move and the commands of `out_osd`, `kill_osd`, `in_osd` or
        `revive_osd`, and nothing done to the pools. */
    twostate predicate OsdMoved(a: Action, victim: int, outcome: Outcome)
      reads this, manager
    {
      && manager.pools == old(manager.pools) && poolsToFix == old(poolsToFix)
      && (a.OutOsd? ==>
            && outcome == (if old(inOsds) == [] then Raised(IndexError) else Done)
            && liveOsds == old(liveOsds) && deadOsds == old(deadOsds)
            && (outcome.Raised? ==> unchanged(this) && unchanged(manager))
            && (outcome.Done? ==>
                  && victim in old(inOsds) && inOsds == RemoveFirst(old(inOsds), victim)
                  && outOsds == old(outOsds) + [victim]
                  && manager.issued == old(manager.issued) + [OsdMarkOut(victim)]))
      && (a.KillOsd? ==>
            && outcome == (if old(liveOsds) == [] then Raised(IndexError) else Done)
            && inOsds == old(inOsds) && outOsds == old(outOsds)
            && (outcome.Raised? ==> unchanged(this) && unchanged(manager))
            && (outcome.Done? ==>
                  && victim in old(liveOsds) && liveOsds == RemoveFirst(old(liveOsds), victim)
                  && deadOsds == old(deadOsds) + [victim]
                  && manager.issued == old(manager.issued) + KillCommands(victim, false, false)))
      && (a.InOsd? ==>
            && (old(outOsds) == [] ==> outcome == Raised(IndexError) && unchanged(this) && unchanged(manager))
            && (old(outOsds) != [] ==> victim in old(outOsds))
            && (old(outOsds) != [] && victim in old(deadOsds) ==>
                  && outcome == (if settings.randomEio > 0.0 && rerrOsd.None? then Raised(AttributeError) else Done)
                  && inOsds == old(inOsds) && outOsds == old(outOsds)
                  && deadOsds == RemoveFirst(old(deadOsds), victim) && liveOsds == old(liveOsds) + [victim]
                  && manager.issued == old(manager.issued)
                     + ReviveCommands(victim, settings.reviveTimeout, settings.randomEio, rerrOsd))
            && (old(outOsds) != [] && victim !in old(deadOsds) ==>
                  && outcome == Done
                  && inOsds == old(inOsds) + [victim] && outOsds == RemoveFirst(old(outOsds), victim)
                  && liveOsds == old(liveOsds) && deadOsds == old(deadOsds)
                  && manager.issued == old(manager.issued) + [OsdMarkIn(victim)]))
      && (a.ReviveOsd? ==>
            && outcome == (if old(deadOsds) == [] then Raised(IndexError)
                           else if settings.randomEio > 0.0 && rerrOsd.None? then Raised(AttributeError)
                           else Done)
            && inOsds == old(inOsds) && outOsds == old(outOsds)
            && (old(deadOsds) == [] ==> unchanged(this) && unchanged(manager))
            && (old(deadOsds) != [] ==>
                  && victim in old(deadOsds) && deadOsds == RemoveFirst(old(deadOsds), victim)
                  && liveOsds == old(liveOsds) + [victim]
                  && manager.issued == old(manager.issued)
                     + ReviveCommands(victim, settings.reviveTimeout, settings.randomEio, rerrOsd)))
    }

    /** What a pool action `a` run on a drawn pool did, with the cluster's answers
        `creating` and `eagains`: `pool` is the pool drawn and `r` what
        `grow_pool`, `shrink_pool` or `fix_pgp_num` returned, an error being
        raised. The OSD lists are not touched. */
    twostate predicate PoolActed(a: Action, pool: string, new r: Result<bool>, outcome: Outcome, creating: nat, eagains: nat)
      reads this, manager
    {
      && outcome == (if r.Err? then Raised(r.fault) else Done)
      && (old(manager.pools) == map[] ==> r == Err(ValueError) && unchanged(this) && unchanged(manager))
      && (old(manager.pools) != map[] ==> pool in old(manager.pools))
      && inOsds == old(inOsds) && outOsds == old(outOsds) && liveOsds == old(liveOsds) && deadOsds == old(deadOsds)
      && (a.GrowPool? && old(manager.pools) != map[] ==>
            var grown := old(manager.pools)[pool] + cfg.poolGrowBy.GetOr(10);
            && r == (if creating > 0 || grown > settings.maxPgs then Ok(false)
                     else if eagains > MaxEagainTries then Err(EagainTimeout)
                     else Ok(true))
            && (creating == 0 && grown <= settings.maxPgs ==>
                  manager.issued == old(manager.issued)
                    + Repeat(PoolSet(pool, "pg_num", IntValue(grown)), SetAttempts(eagains)))
            && (!(creating == 0 && grown <= settings.maxPgs) ==> manager.issued == old(manager.issued))
            && (r == Ok(true) ==>
                  manager.pools == old(manager.pools)[pool := grown] && poolsToFix == old(poolsToFix) + {pool})
            && (r != Ok(true) ==> manager.pools == old(manager.pools) && poolsToFix == old(poolsToFix)))
      && (a.ShrinkPool? && old(manager.pools) != map[] ==>
            var shrunk := old(manager.pools)[pool] - cfg.poolShrinkBy.GetOr(10);
            && r == (if creating > 0 || shrunk < settings.minPgs then Ok(false)
                     else if eagains > MaxEagainTries then Err(EagainTimeout)
                     else Ok(true))
            && (creating == 0 && shrunk >= settings.minPgs ==>
                  manager.issued == old(manager.issued)
                    + Repeat(PoolSet(pool, "pg_num", IntValue(shrunk)), SetAttempts(eagains)))
            && (!(creating == 0 && shrunk >= settings.minPgs) ==> manager.issued == old(manager.issued))
            && (r == Ok(true) ==>
                  manager.pools == old(manager.pools)[pool := shrunk] && poolsToFix == old(poolsToFix) + {pool})
            && (r != Ok(true) ==> manager.pools == old(manager.pools) && poolsToFix == old(poolsToFix)))
      && (a.FixPgpNum? && old(manager.pools) != map[] ==>
            && r == (if creating > 0 then Ok(false) else if eagains > MaxEagainTries then Err(EagainTimeout) else Ok(true))
            && manager.pools == old(manager.pools)
            && (creating == 0 ==>
                  manager.issued == old(manager.issued)
                    + Repeat(PoolSet(pool, "pgp_num", IntValue(old(manager.pools)[pool])), SetAttempts(eagains)))
            && (creating > 0 ==> manager.issued == old(manager.issued))
            && poolsToFix == (if r == Ok(true) then old(poolsToFix) - {pool} else old(poolsToFix)))
    }

    /** One pass of the `do_thrash` loop after the clean-up: `self.choose_action()()`.
        The draw `val` picks an action from the table; `choose_action` returns None
        when the draw falls past every weight, and calling it raises TypeError.
        The OSD moves and the pool actions run as `MoveOsd` and `ActOnPool` say;
        the remaining actions are only table entries here and change nothing. */
    method ThrashStep(val: real, creating: nat, eagains: nat)
      returns (choice: Option<Action>, victim: int, pool: string, r: Result<bool>, outcome: Outcome)
      modifies this, manager
      ensures choice == Walk(BuildTable(cfg, settings, |old(inOsds)|, |old(outOsds)|, |old(liveOsds)|, |old(deadOsds)|), val)
      ensures choice.None? ==> outcome == Raised(TypeError) && unchanged(this) && unchanged(manager)
      ensures choice.Some? && MovesOsd(choice.value) ==> OsdMoved(choice.value, victim, outcome)
      ensures choice.Some? && ActsOnPool(choice.value) ==> PoolActed(choice.value, pool, r, outcome, creating, eagains)
      ensures choice.Some? && !MovesOsd(choice.value) && !ActsOnPool(choice.value) ==>
        outcome == Done && unchanged(this) && unchanged(manager)
      ensures rerrOsd == old(rerrOsd) && savedOptions == old(savedOptions)
      ensures manager.nextPoolId == old(manager.nextPoolId)
      ensures old(Valid()) ==> Valid()
    {
      choice := ChooseAction(val);
      if choice.None? {
        victim, pool, r := 0, "", Ok(false);
        outcome := Raised(TypeError);
      } else {
        victim, pool, r, outcome := RunAction(choice.value, creating, eagains);
      }
    }

    /** Calling the action `choose_action` returned: an OSD move or a pool action
        runs, the other actions are only table entries here and change nothing. */
    method RunAction(a: Action, creating: nat, eagains: nat)
      returns (victim: int, pool: string, r: Result<bool>, outcome: Outcome)
      modifies this, manager
      ensures MovesOsd(a) ==> OsdMoved(a, victim, outcome)
      ensures ActsOnPool(a) ==> PoolActed(a, pool, r, outcome, creating, eagains)
      ensures !MovesOsd(a) && !ActsOnPool(a) ==> outcome == Done && unchanged(this) && unchanged(manager)
      ensures rerrOsd == old(rerrOsd) && savedOptions == old(savedOptions)
      ensures manager.nextPoolId == old(manager.nextPoolId)
      ensures old(Valid()) ==> Valid()
    {
      victim, pool, r := 0, "", Ok(false);
      if MovesOsd(a) {
        assert !ActsOnPool(a);
        victim, outcome := MoveOsd(a);
      } else if ActsOnPool(a) {
        pool, r, outcome := ActOnPool(a, creating, eagains);
      } else {
        outcome := Done;
      }
    }

    /** The OSD moves of the action table, run with their default arguments. */
    method MoveOsd(a: Action) returns (victim: int, outcome: Outcome)
      requires MovesOsd(a)
      modifies this, manager
      ensures OsdMoved(a, victim, outcome)
      ensures rerrOsd == old(rerrOsd) && savedOptions == old(savedOptions)
      ensures manager.nextPoolId == old(manager.nextPoolId)
      ensures old(Valid()) ==> Valid()
    {
      match a {
        case OutOsd =>
          victim, outcome := OutOsd(None);
        case KillOsd =>
          victim, outcome := KillOsd(None, false, false);
        case InOsd =>
          victim, outcome := InOsd(None);
        case ReviveOsd =>
          victim, outcome := ReviveOsd(None);
      }
    }

    /** The pool actions of the action table, on a drawn pool; a raised error
        becomes the outcome. */
    method ActOnPool(a: Action, creating: nat, eagains: nat) returns (pool: string, r: Result<bool>, outcome: Outcome)
      requires ActsOnPool(a)
      modifies this, manager
      ensures PoolActed(a, pool, r, outcome, creating, eagains)
      ensures rerrOsd == old(rerrOsd) && savedOptions == old(savedOptions)
      ensures manager.nextPoolId == old(manager.nextPoolId)
      ensures old(Valid()) ==> Valid()
    {
      match a {
        case GrowPool =>
          pool, r := GrowPool(creating, eagains);
        case ShrinkPool =>
          pool, r := ShrinkPool(creating, eagains);
        case FixPgpNum =>
          pool, r := FixPgpNum(None, creating, eagains);
      }
      outcome := if r.Err? then Raised(r.fault) else Done;
    }

    /** `grow_pool`: grow any pool by `pool_grow_by` within `max_pgs`, and remember
        it in `pools_to_fix_pgp_num` when that succeeded. `creating` is the number
        of PGs being created and `eagains` the cluster's EAGAIN answers. */
    method GrowPool(creating: nat, eagains: nat) returns (pool: string, r: Result<bool>)
      modifies this, manager
      ensures old(manager.pools) == map[] ==> r == Err(ValueError) && unchanged(this) && unchanged(manager)
      ensures old(manager.pools) != map[] ==>
        && pool in old(manager.pools)
        && r == (if creating > 0 || old(manager.pools)[pool] + cfg.poolGrowBy.GetOr(10) > settings.maxPgs then Ok(false)
                 else if eagains > MaxEagainTries then Err(EagainTimeout)
                 else Ok(true))
      ensures r == Ok(true) ==>
        manager.pools == old(manager.pools)[pool := old(manager.pools)[pool] + cfg.poolGrowBy.GetOr(10)]
        && poolsToFix == old(poolsToFix) + {pool}
      ensures r != Ok(true) ==> manager.pools == old(manager.pools) && poolsToFix == old(poolsToFix)
      ensures old(manager.pools) != map[] && creating == 0
              && old(manager.pools)[pool] + cfg.poolGrowBy.GetOr(10) <= settings.maxPgs ==>
        manager.issued == old(manager.issued)
          + Repeat(PoolSet(pool, "pg_num", IntValue(old(manager.pools)[pool] + cfg.poolGrowBy.GetOr(10))),
                   SetAttempts(eagains))
      ensures !(old(manager.pools) != map[] && creating == 0
                && old(manager.pools)[pool] + cfg.poolGrowBy.GetOr(10) <= settings.maxPgs) ==>
        manager.issued == old(manager.issued)
      ensures manager.nextPoolId == old(manager.nextPoolId)
      ensures inOsds == old(inOsds) && outOsds == old(outOsds) && liveOsds == old(liveOsds) && deadOsds == old(deadOsds)
      ensures rerrOsd == old(rerrOsd) && savedOptions == old(savedOptions)
    {
      var got := manager.GetPool();
      if got.Err? {
        return "", Err(got.fault);
      }
      pool := got.value;
      r := manager.ExpandPool(pool, cfg.poolGrowBy.GetOr(10), settings.maxPgs, creating, eagains);
      if r == Ok(true) {
        poolsToFix := poolsToFix + {pool};
      }
    }

    /** `shrink_pool`: shrink any pool by `pool_shrink_by` within `min_pgs`, and
        remember it in `pools_to_fix_pgp_num` when that succeeded. */
    method ShrinkPool(creating: nat, eagains: nat) returns (pool: string, r: Result<bool>)
      modifies this, manager
      ensures old(manager.pools) == map[] ==> r == Err(ValueError) && unchanged(this) && unchanged(manager)
      ensures old(manager.pools) != map[] ==>
        && pool in old(manager.pools)
        && r == (if creating > 0 || old(manager.pools)[pool] - cfg.poolShrinkBy.GetOr(10) < settings.minPgs then Ok(false)
                 else if eagains > MaxEagainTries then Err(EagainTimeout)
                 else Ok(true))
      ensures r == Ok(true) ==>
        manager.pools == old(manager.pools)[pool := old(manager.pools)[pool] - cfg.poolShrinkBy.GetOr(10)]
        && poolsToFix == old(poolsToFix) + {pool}
      ensures r != Ok(true) ==> manager.pools == old(manager.pools) && poolsToFix == old(poolsToFix)
      ensures old(manager.pools) != map[] && creating == 0
              && old(manager.pools)[pool] - cfg.poolShrinkBy.GetOr(10) >= settings.minPgs ==>
        manager.issued == old(manager.issued)
          + Repeat(PoolSet(pool, "pg_num", IntValue(old(manager.pools)[pool] - cfg.poolShrinkBy.GetOr(10))),
                   SetAttempts(eagains))
      ensures !(old(manager.pools) != map[] && creating == 0
                && old(manager.pools)[pool] - cfg.poolShrinkBy.GetOr(10) >= settings.minPgs) ==>
        manager.issued == old(manager.issued)
      ensures manager.nextPoolId == old(manager.nextPoolId)
      ensures inOsds == old(inOsds) && outOsds == old(outOsds) && liveOsds == old(liveOsds) && deadOsds == old(deadOsds)
      ensures rerrOsd == old(rerrOsd) && savedOptions == old(savedOptions)
    {
      var got := manager.GetPool();
      if got.Err? {
        return "", Err(got.fault);
      }
      pool := got.value;
      r := manager.ContractPool(pool, cfg.poolShrinkBy.GetOr(10), settings.minPgs, creating, eagains);
      if r == Ok(true) {
        poolsToFix := poolsToFix + {pool};
      }
    }

    /** `fix_pgp_num`: catch a pool's pgp_num up with its pg_num; `pool` given
        means forced, otherwise any pool, not forced. A pool that was caught up
        leaves `pools_to_fix_pgp_num`. */
    method FixPgpNum(pool: Option<string>, creating: nat, eagains: nat) returns (target: string, r: Result<bool>)
      modifies this, manager
      ensures pool.Some? ==> target == pool.value
      ensures pool.None? && old(manager.pools) == map[] ==> r == Err(ValueError) && unchanged(this) && unchanged(manager)
      ensures pool.None? && old(manager.pools) != map[] ==> target in old(manager.pools)
      ensures !(pool.None? && old(manager.pools) == map[]) ==>
        r == (if target !in old(manager.pools) then Err(AssertionError)
              else if pool.None? && creating > 0 then Ok(false)
              else if eagains > MaxEagainTries then Err(EagainTimeout)
              else Ok(true))
      ensures r == Ok(true) || r == Err(EagainTimeout) ==>
        manager.issued == old(manager.issued)
                          + Repeat(PoolSet(target, "pgp_num", IntValue(old(manager.pools)[target])), SetAttempts(eagains))
      ensures !(r == Ok(true) || r == Err(EagainTimeout)) ==> manager.issued == old(manager.issued)
      ensures poolsToFix == if r == Ok(true) then old(poolsToFix) - {target} else old(poolsToFix)
      ensures manager.pools == old(manager.pools) && manager.nextPoolId == old(manager.nextPoolId)
      ensures inOsds == old(inOsds) && outOsds == old(outOsds) && liveOsds == old(liveOsds) && deadOsds == old(deadOsds)
      ensures rerrOsd == old(rerrOsd) && savedOptions == old(savedOptions)
      ensures old(manager.issued) <= manager.issued
    {
      var force: bool;
      if pool.None? {
        var got := manager.GetPool();
        if got.Err? {
          return "", Err(got.fault);
        }
        target, force := got.value, false;
      } else {
        target, force := pool.value, true;
      }
      r := manager.SetPoolPgpNum(target, force, creating, eagains);
      if r == Ok(true) {
        poolsToFix := poolsToFix - {target};
      }
    }

    /** The start of `do_thrash`: the first live OSD becomes the read-error victim
        (IndexError when none is live), and gets the error rate when it is positive. */
    method StartThrash() returns (outcome: Outcome)
      modifies this, manager
      ensures old(liveOsds) == [] ==> outcome == Raised(IndexError) && unchanged(this) && unchanged(manager)
      ensures old(liveOsds) != [] ==>
        && outcome == Done
        && rerrOsd == Some(old(liveOsds)[0])
        && manager.issued == old(manager.issued)
             + (if settings.randomEio > 0.0 then EioCommands(old(liveOsds)[0], RealValue(settings.randomEio)) else [])
      ensures inOsds == old(inOsds) && outOsds == old(outOsds) && liveOsds == old(liveOsds) && deadOsds == old(deadOsds)
      ensures poolsToFix == old(poolsToFix) && savedOptions == old(savedOptions)
      ensures manager.pools == old(manager.pools) && manager.nextPoolId == old(manager.nextPoolId)
    {
      if liveOsds == [] {
        return Raised(IndexError);
      }
      rerrOsd := Some(liveOsds[0]);
      if settings.randomEio > 0.0 {
        manager.Issue(InjectArgs("osd", One(liveOsds[0]), "filestore_debug_random_read_err", RealValue(settings.randomEio)));
        manager.Issue(InjectArgs("osd", One(liveOsds[0]), "bluestore_debug_random_read_err", RealValue(settings.randomEio)));
      }
      outcome := Done;
    }

    /** The end of `do_thrash`: bring every OSD up and in, reset the read-error
        rate, catch up pgp_num of every remembered pool that still has PGs, clear
        the set, restore the saved options, and make every OSD fully in.
        `eagainsFor(p)` is how many EAGAIN answers the pgp_num update of `p` gets;
        `revived`, `marked` and `order` are the orders the random and set
        iterations took. */
    method FinishThrash(eagainsFor: string -> nat)
      returns (outcome: Outcome, revived: seq<int>, marked: seq<int>, order: seq<string>)
      modifies this, manager
      ensures settings.randomEio > 0.0 && rerrOsd.None? ==> outcome == Raised(AttributeError)
      ensures !(settings.randomEio > 0.0 && rerrOsd.None?)
              && (forall p :: p in old(poolsToFix) ==> eagainsFor(p) <= MaxEagainTries)
              ==> outcome == Done
      ensures outcome.Raised? ==>
        outcome.fault == (if settings.randomEio > 0.0 && rerrOsd.None? then AttributeError else EagainTimeout)
      ensures manager.issued == old(manager.issued)
        + ReviveTrace(revived, settings.reviveTimeout, settings.randomEio, rerrOsd) + MarkInTrace(marked)
        + ResetCommands(settings.randomEio, rerrOsd)
        + DrainTrace(order, old(manager.pools), eagainsFor)
        + (if outcome.Done? then RestoreCommands(old(savedOptions)) + FullyInCommands(liveOsds) else [])
      ensures outcome.Done? ==> deadOsds == [] && outOsds == [] && poolsToFix == {} && savedOptions == []
      ensures outcome.Done? ==>
        && multiset(revived) == multiset(old(deadOsds)) && multiset(marked) == multiset(old(outOsds))
        && NoDup(order) && Elems(order) == old(poolsToFix)
      ensures liveOsds == old(liveOsds) + revived && inOsds == old(inOsds) + marked
      ensures rerrOsd == old(rerrOsd)
      ensures manager.pools == old(manager.pools) && manager.nextPoolId == old(manager.nextPoolId)
      ensures old(Valid()) ==> Valid()
    {
      order := [];
      outcome, revived, marked := AllUp();
      if outcome.Raised? {
        return;
      }
      outcome := ResetReadErrors();
      if outcome.Raised? {
        return;
      }
      outcome, order := CloseDown(eagainsFor);
    }

    /** The rest of the end of `do_thrash`, once every OSD is up and in: the
        pgp_num catch-up, the saved options back, and `all_up_in`. */
    method CloseDown(eagainsFor: string -> nat) returns (outcome: Outcome, order: seq<string>)
      requires deadOsds == [] && outOsds == []
      modifies this, manager
      ensures (forall p :: p in old(poolsToFix) ==> eagainsFor(p) <= MaxEagainTries) ==> outcome == Done
      ensures outcome.Raised? ==> outcome.fault == EagainTimeout
      ensures manager.issued == old(manager.issued) + DrainTrace(order, old(manager.pools), eagainsFor)
        + (if outcome.Done? then RestoreCommands(old(savedOptions)) + FullyInCommands(liveOsds) else [])
      ensures outcome.Done? ==> poolsToFix == {} && savedOptions == [] && NoDup(order) && Elems(order) == old(poolsToFix)
      ensures inOsds == old(inOsds) && outOsds == [] && liveOsds == old(liveOsds) && deadOsds == []
      ensures rerrOsd == old(rerrOsd)
      ensures manager.pools == old(manager.pools) && manager.nextPoolId == old(manager.nextPoolId)
    {
      outcome, order := DrainPoolsToFix(eagainsFor);
      ghost var drained := manager.issued;
      assert drained == old(manager.issued) + DrainTrace(order, old(manager.pools), eagainsFor);
      if outcome.Raised? {
        assert drained + [] == drained;
        return;
      }
      PutBack();
      ghost var tail := RestoreCommands(old(savedOptions)) + FullyInCommands(liveOsds);
      assert manager.issued == drained + tail;
    }

    /** The last two steps of `do_thrash`, once every OSD is up and in: the saved
        options go back, then `all_up_in` (which only sets full weight and
        affinity, since nothing is down or out). */
    method PutBack()
      requires deadOsds == [] && outOsds == []
      modifies this, manager
      ensures manager.issued == old(manager.issued) + RestoreCommands(old(savedOptions)) + FullyInCommands(liveOsds)
      ensures savedOptions == []
      ensures inOsds == old(inOsds) && outOsds == [] && liveOsds == old(liveOsds) && deadOsds == []
      ensures rerrOsd == old(rerrOsd) && poolsToFix == old(poolsToFix)
      ensures manager.pools == old(manager.pools) && manager.nextPoolId == old(manager.nextPoolId)
    {
      RestoreSavedOptions();
      var outcome, again, more := AllUpIn();
    }

    /** The read-error reset at the end of `do_thrash`: when errors were being
        injected, the victim's error rates go back to "0.0". */
    method ResetReadErrors() returns (outcome: Outcome)
      modifies manager
      ensures outcome == (if settings.randomEio > 0.0 && rerrOsd.None? then Raised(AttributeError) else Done)
      ensures outcome.Raised? ==> unchanged(manager)
      ensures outcome.Done? ==> manager.issued == old(manager.issued) + ResetCommands(settings.randomEio, rerrOsd)
      ensures manager.pools == old(manager.pools) && manager.nextPoolId == old(manager.nextPoolId)
    {
      if settings.randomEio > 0.0 {
        if rerrOsd.None? {
          return Raised(AttributeError);
        }
        manager.Issue(InjectArgs("osd", One(rerrOsd.value), "filestore_debug_random_read_err", TextValue("0.0")));
        manager.Issue(InjectArgs("osd", One(rerrOsd.value), "bluestore_debug_random_read_err", TextValue("0.0")));
      }
      outcome := Done;
    }

    /** The pgp_num catch-up at the end of `do_thrash`: every remembered pool that
        still has PGs gets a forced `fix_pgp_num`; then the set is cleared.
        `order` is the order the set's iteration took; on EagainTimeout it ends
        with the pool that raised. */
    method DrainPoolsToFix(eagainsFor: string -> nat) returns (outcome: Outcome, order: seq<string>)
      modifies this, manager
      ensures (forall p :: p in old(poolsToFix) ==> eagainsFor(p) <= MaxEagainTries) ==> outcome == Done
      ensures outcome.Raised? ==>
        && outcome.fault == EagainTimeout && order != []
        && var p := order[|order| - 1];
           p in old(manager.pools) && old(manager.pools)[p] > 0 && eagainsFor(p) > MaxEagainTries
      ensures NoDup(order) && Elems(order) <= old(poolsToFix)
      ensures outcome.Done? ==> Elems(order) == old(poolsToFix)
      ensures manager.issued == old(manager.issued) + DrainTrace(order, old(manager.pools), eagainsFor)
      ensures poolsToFix == if outcome.Done? then {} else old(poolsToFix) - CaughtUp(order, old(manager.pools), eagainsFor)
      ensures outcome.Done? ==>
        forall p :: p in old(poolsToFix) && old(manager.GetPoolPgNum(p)) > 0 ==>
          PoolSet(p, "pgp_num", IntValue(old(manager.pools)[p])) in manager.issued
      ensures inOsds == old(inOsds) && outOsds == old(outOsds) && liveOsds == old(liveOsds) && deadOsds == old(deadOsds)
      ensures rerrOsd == old(rerrOsd) && savedOptions == old(savedOptions)
      ensures manager.pools == old(manager.pools) && manager.nextPoolId == old(manager.nextPoolId)
    {
      var todo := poolsToFix;
      order := [];
      while todo != {}
        invariant todo == old(poolsToFix) - Elems(order)
        invariant DrainedSince(old(poolsToFix), old(manager.pools), old(manager.issued), order, eagainsFor)
        invariant inOsds == old(inOsds) && outOsds == old(outOsds) && liveOsds == old(liveOsds) && deadOsds == old(deadOsds)
        invariant rerrOsd == old(rerrOsd) && savedOptions == old(savedOptions)
        invariant manager.nextPoolId == old(manager.nextPoolId)
        decreases todo
      {
        var pool :| pool in todo;
        var o := FixNext(old(poolsToFix), old(manager.pools), old(manager.issued), order, pool, eagainsFor);
        todo := todo - {pool};
        order := order + [pool];
        if o.Raised? {
          return o, order;
        }
      }
      DrainTraceSetsEach(order, old(manager.pools), eagainsFor);
      poolsToFix := {};
      outcome := Done;
    }

    /** How far the shutdown's pgp_num catch-up over the set `todo0` has got,
        from the pool table `pools0` and the command log `issued0`: the pools of
        `order` were visited once each, sent their updates, and those that
        caught up left the set. */
    ghost predicate DrainedSince(todo0: set<string>, pools0: map<string, int>, issued0: seq<Command>,
                                 order: seq<string>, eagainsFor: string -> nat)
      reads this, manager
    {
      && NoDup(order) && Elems(order) <= todo0
      && manager.pools == pools0
      && manager.issued == issued0 + DrainTrace(order, pools0, eagainsFor)
      && poolsToFix == todo0 - CaughtUp(order, pools0, eagainsFor)
    }

    /** One pool of the catch-up: a forced `fix_pgp_num` when it still has PGs. */
    method FixNext(ghost todo0: set<string>, ghost pools0: map<string, int>, ghost issued0: seq<Command>,
                   ghost order: seq<string>, pool: string, eagainsFor: string -> nat)
      returns (outcome: Outcome)
      requires pool in todo0 && pool !in order
      requires DrainedSince(todo0, pools0, issued0, order, eagainsFor)
      modifies this, manager
      ensures outcome == (if pool in pools0 && pools0[pool] > 0 && eagainsFor(pool) > MaxEagainTries
                          then Raised(EagainTimeout) else Done)
      ensures DrainedSince(todo0, pools0, issued0, order + [pool], eagainsFor)
      ensures inOsds == old(inOsds) && outOsds == old(outOsds) && liveOsds == old(liveOsds) && deadOsds == old(deadOsds)
      ensures rerrOsd == old(rerrOsd) && savedOptions == old(savedOptions)
      ensures manager.nextPoolId == old(manager.nextPoolId)
    {
      AppendFresh(order, pool);
      assert (order + [pool])[..|order|] == order;
      assert CaughtUp(order + [pool], pools0, eagainsFor)
          == CaughtUp(order, pools0, eagainsFor)
             + (if pool in pools0 && pools0[pool] > 0 && eagainsFor(pool) <= MaxEagainTries then {pool} else {});
      assert DrainTrace(order + [pool], pools0, eagainsFor)
          == DrainTrace(order, pools0, eagainsFor) + PgpFix(pool, pools0, eagainsFor);
      ghost var pre := manager.issued;
      outcome := Done;
      if manager.GetPoolPgNum(pool) > 0 {
        var _, r := FixPgpNum(Some(pool), 0, eagainsFor(pool));
        if r.Err? {
          outcome := Raised(r.fault);
        }
      }
      assert manager.issued == pre + PgpFix(pool, pools0, eagainsFor);
    }

    /** `do_noscrub_toggle`, stopped after `rounds` iterations: one flag command
        per iteration around the four-state cycle, then both flags unset. */
    method DoNoscrubToggle(rounds: nat)
      modifies manager
      ensures manager.issued == old(manager.issued) + ScrubTrace(rounds) + ScrubCleanup
      ensures manager.pools == old(manager.pools) && manager.nextPoolId == old(manager.nextPoolId)
    {
      var state := Unflagged;
      var i := 0;
      while i < rounds
        invariant 0 <= i <= rounds
        invariant state == ScrubStateAfter(i)
        invariant manager.issued == old(manager.issued) + ScrubTrace(i)
        invariant manager.pools == old(manager.pools) && manager.nextPoolId == old(manager.nextPoolId)
      {
        if state == Unflagged {
          manager.Issue(OsdSetFlag("noscrub"));
          state := NoScrub;
        } else if state == NoScrub {
          manager.Issue(OsdSetFlag("nodeep-scrub"));
          state := BothFlags;
        } else if state == BothFlags {
          manager.Issue(OsdUnsetFlag("noscrub"));
          state := NoDeepScrub;
        } else {
          manager.Issue(OsdUnsetFlag("nodeep-scrub"));
          state := Unflagged;
        }
        i := i + 1;
      }
      manager.Issue(OsdUnsetFlag("noscrub"));
      manager.Issue(OsdUnsetFlag("nodeep-scrub"));
    }

    /** `do_optrack_toggle`, stopped after `rounds` iterations: each iteration
        flips the state and sends it to every OSD (a failed send is ignored). */
    method DoOptrackToggle(rounds: nat)
      modifies manager
      ensures manager.issued == old(manager.issued) + OptrackTrace(rounds)
      ensures manager.pools == old(manager.pools) && manager.nextPoolId == old(manager.nextPoolId)
    {
      var state := "true";
      var i := 0;
      while i < rounds
        invariant 0 <= i <= rounds
        invariant state == if i == 0 then "true" else OptrackValue(i - 1)
        invariant manager.issued == old(manager.issued) + OptrackTrace(i)
        invariant manager.pools == old(manager.pools) && manager.nextPoolId == old(manager.nextPoolId)
      {
        if state == "true" {
          state := "false";
        } else {
          state := "true";
        }
        manager.Issue(InjectArgs("osd", Every, "osd_enable_op_tracker", TextValue(state)));
        i := i + 1;
      }
    }

    /** Put every saved option back with `injectargs` to all daemons, then forget them. */
    method RestoreSavedOptions()
      modifies this, manager
      ensures manager.issued == old(manager.issued) + RestoreCommands(old(savedOptions))
      ensures forall k :: 0 <= k < |old(savedOptions)| ==>
        InjectArgs(old(savedOptions)[k].service, Every, old(savedOptions)[k].option, old(savedOptions)[k].value)
        in manager.issued
      ensures savedOptions == []
      ensures inOsds == old(inOsds) && outOsds == old(outOsds) && liveOsds == old(liveOsds) && deadOsds == old(deadOsds)
      ensures rerrOsd == old(rerrOsd) && poolsToFix == old(poolsToFix)
      ensures manager.pools == old(manager.pools) && manager.nextPoolId == old(manager.nextPoolId)
    {
      var saved := savedOptions;
      for i := 0 to |saved|
        modifies manager
        invariant manager.issued == old(manager.issued) + RestoreCommands(saved[..i])
        invariant manager.pools == old(manager.pools) && manager.nextPoolId == old(manager.nextPoolId)
      {
        RestoreCommandsSnoc(saved[..i], saved[i]);
        assert saved[..i + 1] == saved[..i] + [saved[i]];
        manager.Issue(InjectArgs(saved[i].service, Every, saved[i].option, saved[i].value));
      }
      assert saved[..|saved|] == saved;
      RestoreCommandsEach(saved);
      savedOptions := [];
    }
  }

  lemma {:induction false} RestoreCommandsSnoc(saved: seq<SavedOption>, s: SavedOption)
    ensures RestoreCommands(saved + [s]) == RestoreCommands(saved) + [InjectArgs(s.service, Every, s.option, s.value)]
  {
    if saved != [] {
      assert (saved + [s])[1..] == saved[1..] + [s];
      RestoreCommandsSnoc(saved[1..], s);
    }
  }

  /** Restoring sends one `injectargs` per saved option, with its saved value. */
  lemma {:induction false} RestoreCommandsEach(saved: seq<SavedOption>)
    ensures |RestoreCommands(saved)| == |saved|
    ensures forall k :: 0 <= k < |saved| ==>
      RestoreCommands(saved)[k] == InjectArgs(saved[k].service, Every, saved[k].option, saved[k].value)
  {
    if saved != [] {
      RestoreCommandsEach(saved[1..]);
    }
  }
}
