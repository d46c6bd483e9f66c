/** The Thrasher's configuration and its action selection: which actions
    `choose_action` puts in the table for the current OSD counts, with what
    weights, and the subtract-and-compare walk that picks one of them for a
    random draw in `[0, total]`. Weights are exact reals here. */
module Actions {
  import opened Cluster

  /** A config value that YAML may give as an integer or as a float. */
  datatype Chance = IntChance(i: int) | FloatChance(r: real)

  /** The config keys the modelled code reads; `None` is an absent key, which
      takes the default written in the code. */
  datatype ThrashConfig = ThrashConfig(
    reviveTimeout: Option<int>,            // revive_timeout (360)
    powercycle: Option<bool>,              // powercycle (adds 120 to the revive timeout)
    minIn: Option<int>,                    // min_in (4)
    minOut: Option<int>,                   // min_out (0)
    minLive: Option<int>,                  // min_live (2)
    minDead: Option<int>,                  // min_dead (0)
    maxDead: Option<int>,                  // max_dead (0)
    chanceDown: Option<Chance>,            // chance_down (0.4; an integer is a percentage)
    chanceTestBackfillFull: Option<real>,  // chance_test_backfill_full (0)
    thrashPrimaryAffinity: Option<bool>,   // thrash_primary_affinity (True)
    reweightOsd: Option<real>,             // reweight_osd (.5)
    chancePgnumGrow: Option<real>,         // chance_pgnum_grow (0)
    chancePgnumShrink: Option<real>,       // chance_pgnum_shrink (0)
    chancePgpnumFix: Option<real>,         // chance_pgpnum_fix (0)
    chanceTestMinSize: Option<real>,       // chance_test_min_size (0)
    chanceThrashClusterFull: Option<real>, // chance_thrash_cluster_full (.05)
    chanceThrashPgUpmap: Option<real>,     // chance_thrash_pg_upmap (1.0)
    chanceThrashPgUpmapItems: Option<real>,// chance_thrash_pg_upmap_items: never read, see SettingsOf
    chanceForceRecovery: Option<real>,     // chance_force_recovery (0.3)
    chanceInjectPauseShort: Option<real>,  // chance_inject_pause_short (1)
    chanceInjectPauseLong: Option<real>,   // chance_inject_pause_long (0)
    pauseShort: Option<int>,               // pause_short (3)
    pauseLong: Option<int>,                // pause_long (80)
    pauseCheckAfter: Option<int>,          // pause_check_after (70)
    poolGrowBy: Option<int>,               // pool_grow_by (10)
    poolShrinkBy: Option<int>,             // pool_shrink_by (10)
    maxPgsPerPoolOsd: Option<int>,         // max_pgs_per_pool_osd (1200)
    minPgsPerPoolOsd: Option<int>,         // min_pgs_per_pool_osd (1)
    randomEio: Option<real>                // random_eio (absent: no read errors injected)
  )

  /** What the Thrasher's constructor derives from the config once. */
  datatype Settings = Settings(
    reviveTimeout: int,
    minIn: int,
    chanceThrashClusterFull: real,
    chanceThrashPgUpmap: real,
    chanceThrashPgUpmapItems: real,
    chanceForceRecovery: real,
    randomEio: real,
    maxPgs: int,
    minPgs: int)

  /** The constructor's reads, for a cluster of `numOsds` OSDs (in plus out).
      As written, the upmap-items chance is read from the `chance_thrash_pg_upmap`
      key, so it always equals the upmap chance. */
  function SettingsOf(cfg: ThrashConfig, numOsds: nat): (st: Settings)
    ensures st.chanceThrashPgUpmapItems == st.chanceThrashPgUpmap
    ensures st.maxPgs == cfg.maxPgsPerPoolOsd.GetOr(1200) * numOsds
    ensures st.minPgs == cfg.minPgsPerPoolOsd.GetOr(1) * numOsds
  {
    Settings(
      reviveTimeout := cfg.reviveTimeout.GetOr(360) + (if cfg.powercycle.GetOr(false) then 120 else 0),
      minIn := cfg.minIn.GetOr(4),
      chanceThrashClusterFull := cfg.chanceThrashClusterFull.GetOr(0.05),
      chanceThrashPgUpmap := cfg.chanceThrashPgUpmap.GetOr(1.0),
      chanceThrashPgUpmapItems := cfg.chanceThrashPgUpmap.GetOr(1.0),
      chanceForceRecovery := cfg.chanceForceRecovery.GetOr(0.3),
      randomEio := cfg.randomEio.GetOr(0.0),
      maxPgs := cfg.maxPgsPerPoolOsd.GetOr(1200) * numOsds,
      minPgs := cfg.minPgsPerPoolOsd.GetOr(1) * numOsds)
  }

  /** The upmap-items key has no effect: two configs that differ only there give
      the same settings. */
  lemma UpmapItemsKeyIgnored(cfg: ThrashConfig, items: Option<real>, numOsds: nat)
    ensures SettingsOf(cfg.(chanceThrashPgUpmapItems := items), numOsds) == SettingsOf(cfg, numOsds)
  {
  }

  /** `chance_down` as used: an integer is a percentage and is divided by 100. */
  function ChanceDown(cfg: ThrashConfig): real
  {
    match cfg.chanceDown.GetOr(FloatChance(0.4))
    case IntChance(n) => n as real / 100.0
    case FloatChance(r) => r
  }

  /** The Thrasher operations `choose_action` can return. */
  datatype Action =
    | OutOsd | KillOsd | InOsd | ReviveOsd
    | PrimaryAffinity | ReweightOsdOrByUtil
    | GrowPool | ShrinkPool | FixPgpNum
    | TestPoolMinSize | TestBackfillFull | ThrashClusterFull
    | ThrashPgUpmap | ThrashPgUpmapItems | ForceCancelRecovery
    | InjectPause(key: string, duration: int, checkAfter: int, shouldBeDown: bool)

  datatype Entry = Entry(action: Action, weight: real)

  /** The two fault points `choose_action` offers pause injections for. */
  const PauseKeys: seq<string> := ["heartbeat_inject_failure", "filestore_inject_stall"]

  /** The short and the long pause for one fault point. */
  function PauseEntries(cfg: ThrashConfig, key: string): seq<Entry>
  {
    [Entry(InjectPause(key, cfg.pauseShort.GetOr(3), 0, false), cfg.chanceInjectPauseShort.GetOr(1.0)),
     Entry(InjectPause(key, cfg.pauseLong.GetOr(80), cfg.pauseCheckAfter.GetOr(70), true),
           cfg.chanceInjectPauseLong.GetOr(0.0))]
  }

  /** The pause scenarios as intended: each fault point with its own pair. */
  function PauseScenarios(cfg: ThrashConfig, keys: seq<string>): seq<Entry>
  {
    if keys == [] then [] else PauseEntries(cfg, keys[0]) + PauseScenarios(cfg, keys[1..])
  }

  /** The pause scenarios as written: the lambdas read the loop variable `key`
      when they are called, after the loop has finished, so every pair pauses
      the LAST fault point. */
  function PauseScenariosAsWritten(cfg: ThrashConfig, keys: seq<string>): seq<Entry>
  {
    if keys == [] then [] else LateBound(cfg, |keys|, keys[|keys| - 1])
  }

  function LateBound(cfg: ThrashConfig, n: nat, key: string): seq<Entry>
  {
    if n == 0 then [] else PauseEntries(cfg, key) + LateBound(cfg, n - 1, key)
  }

  /** Whether some pause entry targets fault point `key`. */
  predicate PausesKey(table: seq<Entry>, key: string)
  {
    exists k :: 0 <= k < |table| && table[k].action.InjectPause? && table[k].action.key == key
  }

  /** As written, `heartbeat_inject_failure` is offered in the table (with both
      weights) yet no call ever pauses it; the intended list pauses each key. */
  lemma HeartbeatPauseLost(cfg: ThrashConfig)
    ensures !PausesKey(PauseScenariosAsWritten(cfg, PauseKeys), "heartbeat_inject_failure")
    ensures PausesKey(PauseScenarios(cfg, PauseKeys), "heartbeat_inject_failure")
    ensures PausesKey(PauseScenarios(cfg, PauseKeys), "filestore_inject_stall")
    ensures Weights(PauseScenariosAsWritten(cfg, PauseKeys)) == Weights(PauseScenarios(cfg, PauseKeys))
  {
    PauseScenariosAsWrittenOfKeys(cfg);
    PauseScenariosOfKeys(cfg);
    var intended := PauseScenarios(cfg, PauseKeys);
    assert intended[0].action.key == "heartbeat_inject_failure";
    assert intended[2].action.key == "filestore_inject_stall";
  }

  /** The intended list spelled out: both pauses of each fault point, in order. */
  lemma PauseScenariosOfKeys(cfg: ThrashConfig)
    ensures PauseScenarios(cfg, PauseKeys)
         == PauseEntries(cfg, "heartbeat_inject_failure") + PauseEntries(cfg, "filestore_inject_stall")
  {
    var tail := PauseKeys[1..];
    assert tail == ["filestore_inject_stall"] && tail[1..] == [];
    assert PauseScenarios(cfg, tail) == PauseEntries(cfg, "filestore_inject_stall") + PauseScenarios(cfg, []);
  }

  /** The list as written spelled out: both pairs pause the last fault point. */
  lemma PauseScenariosAsWrittenOfKeys(cfg: ThrashConfig)
    ensures PauseScenariosAsWritten(cfg, PauseKeys)
         == PauseEntries(cfg, "filestore_inject_stall") + PauseEntries(cfg, "filestore_inject_stall")
  {
    var last := PauseEntries(cfg, "filestore_inject_stall");
    assert LateBound(cfg, 1, "filestore_inject_stall") == last + LateBound(cfg, 0, "filestore_inject_stall");
  }

  /** The weights of a table, in order. */
  function Weights(table: seq<Entry>): (w: seq<real>)
    ensures |w| == |table| && forall k :: 0 <= k < |table| ==> w[k] == table[k].weight
  {
    if table == [] then [] else [table[0].weight] + Weights(table[1..])
  }

  /** The actions of a table, in order. */
  function ActionsOf(table: seq<Entry>): (acts: seq<Action>)
    ensures |acts| == |table| && forall k :: 0 <= k < |table| ==> acts[k] == table[k].action
  {
    if table == [] then [] else [table[0].action] + ActionsOf(table[1..])
  }

  lemma ActionsOfAppend(a: seq<Entry>, b: seq<Entry>)
    ensures ActionsOf(a + b) == ActionsOf(a) + ActionsOf(b)
  {
  }

  /** The table `choose_action` builds for the current list sizes: first the
      actions that move OSDs between the lists, each guarded by its list's size,
      then the rest, which do not depend on the lists. */
  function BuildTable(cfg: ThrashConfig, st: Settings, nIn: nat, nOut: nat, nLive: nat, nDead: nat)
    : seq<Entry>
  {
    OsdEntries(cfg, st, nIn, nOut, nLive, nDead) + OtherEntries(cfg, st)
  }

  function OsdEntries(cfg: ThrashConfig, st: Settings, nIn: nat, nOut: nat, nLive: nat, nDead: nat)
    : seq<Entry>
  {
    var down := ChanceDown(cfg);
    Guarded(nIn > st.minIn, Entry(OutOsd, 1.0))
    + Guarded(nLive > cfg.minLive.GetOr(2) && down > 0.0, Entry(KillOsd, down))
    + Guarded(nOut > cfg.minOut.GetOr(0), Entry(InOsd, 1.7))
    + Guarded(nDead > cfg.minDead.GetOr(0), Entry(ReviveOsd, 1.0))
  }

  /** The entries after the guarded ones, as written: the fixed actions, then the
      pause scenarios with their late-bound fault point. */
  function OtherEntries(cfg: ThrashConfig, st: Settings): seq<Entry>
  {
    FixedEntries(cfg, st) + PauseScenariosAsWritten(cfg, PauseKeys)
  }

  /** The table as intended: the same, but each pause pair pausing its own fault point. */
  function IntendedTable(cfg: ThrashConfig, st: Settings, nIn: nat, nOut: nat, nLive: nat, nDead: nat)
    : seq<Entry>
  {
    OsdEntries(cfg, st, nIn, nOut, nLive, nDead) + FixedEntries(cfg, st) + PauseScenarios(cfg, PauseKeys)
  }

  /** The actions between the guarded OSD moves and the pause scenarios. */
  function FixedEntries(cfg: ThrashConfig, st: Settings): seq<Entry>
  {
    (if cfg.thrashPrimaryAffinity.GetOr(true) then [Entry(PrimaryAffinity, 1.0)] else [])
    + [Entry(ReweightOsdOrByUtil, cfg.reweightOsd.GetOr(0.5)),
       Entry(GrowPool, cfg.chancePgnumGrow.GetOr(0.0)),
       Entry(ShrinkPool, cfg.chancePgnumShrink.GetOr(0.0)),
       Entry(FixPgpNum, cfg.chancePgpnumFix.GetOr(0.0)),
       Entry(TestPoolMinSize, cfg.chanceTestMinSize.GetOr(0.0)),
       Entry(TestBackfillFull, cfg.chanceTestBackfillFull.GetOr(0.0))]
    + (if st.chanceThrashClusterFull > 0.0 then [Entry(ThrashClusterFull, st.chanceThrashClusterFull)] else [])
    + (if st.chanceThrashPgUpmap > 0.0 then [Entry(ThrashPgUpmap, st.chanceThrashPgUpmap)] else [])
    + (if st.chanceThrashPgUpmapItems > 0.0
       then [Entry(ThrashPgUpmapItems, st.chanceThrashPgUpmapItems)] else [])
    + (if st.chanceForceRecovery > 0.0 then [Entry(ForceCancelRecovery, st.chanceForceRecovery)] else [])
  }

  /** The actions that move an OSD between the in/out or live/dead lists. */
  predicate MovesOsd(a: Action)
  {
    a.OutOsd? || a.KillOsd? || a.InOsd? || a.ReviveOsd?
  }

  /** The actions that work on a pool of the table. */
  predicate ActsOnPool(a: Action)
  {
    a.GrowPool? || a.ShrinkPool? || a.FixPgpNum?
  }

  /** No entry of `table` moves an OSD. */
  predicate NoneMoves(table: seq<Entry>)
  {
    forall k :: 0 <= k < |table| ==> !MovesOsd(table[k].action)
  }

  lemma NoneMovesAppend(a: seq<Entry>, b: seq<Entry>)
    requires NoneMoves(a) && NoneMoves(b)
    ensures NoneMoves(a + b)
  {
  }

  /** No entry after the guarded ones moves an OSD. */
  lemma OtherEntriesMoveNoOsd(cfg: ThrashConfig, st: Settings)
    ensures NoneMoves(OtherEntries(cfg, st))
  {
    var q1 := if cfg.thrashPrimaryAffinity.GetOr(true) then [Entry(PrimaryAffinity, 1.0)] else [];
    var q2 := [Entry(ReweightOsdOrByUtil, cfg.reweightOsd.GetOr(0.5)),
       Entry(GrowPool, cfg.chancePgnumGrow.GetOr(0.0)),
       Entry(ShrinkPool, cfg.chancePgnumShrink.GetOr(0.0)),
       Entry(FixPgpNum, cfg.chancePgpnumFix.GetOr(0.0)),
       Entry(TestPoolMinSize, cfg.chanceTestMinSize.GetOr(0.0)),
       Entry(TestBackfillFull, cfg.chanceTestBackfillFull.GetOr(0.0))];
    var q3 := if st.chanceThrashClusterFull > 0.0 then [Entry(ThrashClusterFull, st.chanceThrashClusterFull)] else [];
    var q4 := if st.chanceThrashPgUpmap > 0.0 then [Entry(ThrashPgUpmap, st.chanceThrashPgUpmap)] else [];
    var q5 := if st.chanceThrashPgUpmapItems > 0.0
       then [Entry(ThrashPgUpmapItems, st.chanceThrashPgUpmapItems)] else [];
    var q6 := if st.chanceForceRecovery > 0.0 then [Entry(ForceCancelRecovery, st.chanceForceRecovery)] else [];
    var q7 := PauseScenariosAsWritten(cfg, PauseKeys);
    PauseScenariosAsWrittenOfKeys(cfg);
    assert NoneMoves(q7);
    NoneMovesAppend(q1, q2);
    NoneMovesAppend(q1 + q2, q3);
    NoneMovesAppend(q1 + q2 + q3, q4);
    NoneMovesAppend(q1 + q2 + q3 + q4, q5);
    NoneMovesAppend(q1 + q2 + q3 + q4 + q5, q6);
    NoneMovesAppend(q1 + q2 + q3 + q4 + q5 + q6, q7);
  }

  /** The OSD-moving actions join the table exactly when their list is larger than
      its configured minimum (and, for killing, when `chance_down` is positive,
      an integer `chance_down` counting as a percentage). */
  lemma TableGuards(cfg: ThrashConfig, st: Settings, nIn: nat, nOut: nat, nLive: nat, nDead: nat)
    ensures var acts := ActionsOf(BuildTable(cfg, st, nIn, nOut, nLive, nDead));
      && (OutOsd in acts <==> nIn > st.minIn)
      && (KillOsd in acts <==> nLive > cfg.minLive.GetOr(2) && ChanceDown(cfg) > 0.0)
      && (InOsd in acts <==> nOut > cfg.minOut.GetOr(0))
      && (ReviveOsd in acts <==> nDead > cfg.minDead.GetOr(0))
    ensures cfg.chanceDown.Some? && cfg.chanceDown.value.IntChance? ==>
      ChanceDown(cfg) == cfg.chanceDown.value.i as real / 100.0
  {
    var moves := ActionsOf(OsdEntries(cfg, st, nIn, nOut, nLive, nDead));
    var others := ActionsOf(OtherEntries(cfg, st));
    ActionsOfAppend(OsdEntries(cfg, st, nIn, nOut, nLive, nDead), OtherEntries(cfg, st));
    OsdEntriesGuards(cfg, st, nIn, nOut, nLive, nDead);
    OtherEntriesMoveNoOsd(cfg, st);
    assert OutOsd !in others && KillOsd !in others && InOsd !in others && ReviveOsd !in others;
  }

  /** The guards of the OSD-moving part, one per action. */
  lemma OsdEntriesGuards(cfg: ThrashConfig, st: Settings, nIn: nat, nOut: nat, nLive: nat, nDead: nat)
    ensures var acts := ActionsOf(OsdEntries(cfg, st, nIn, nOut, nLive, nDead));
      && (OutOsd in acts <==> nIn > st.minIn)
      && (KillOsd in acts <==> nLive > cfg.minLive.GetOr(2) && ChanceDown(cfg) > 0.0)
      && (InOsd in acts <==> nOut > cfg.minOut.GetOr(0))
      && (ReviveOsd in acts <==> nDead > cfg.minDead.GetOr(0))
  {
    var down := ChanceDown(cfg);
    FourGuarded(nIn > st.minIn, nLive > cfg.minLive.GetOr(2) && down > 0.0,
                nOut > cfg.minOut.GetOr(0), nDead > cfg.minDead.GetOr(0),
                Entry(OutOsd, 1.0), Entry(KillOsd, down), Entry(InOsd, 1.7), Entry(ReviveOsd, 1.0));
  }

  /** The actions of four guarded entries are those whose guard holds. */
  lemma FourGuarded(g1: bool, g2: bool, g3: bool, g4: bool, e1: Entry, e2: Entry, e3: Entry, e4: Entry)
    ensures forall a :: (a in ActionsOf(Guarded(g1, e1) + Guarded(g2, e2) + Guarded(g3, e3) + Guarded(g4, e4))
      <==> (g1 && a == e1.action) || (g2 && a == e2.action) || (g3 && a == e3.action) || (g4 && a == e4.action))
  {
    var p1, p2, p3, p4 := Guarded(g1, e1), Guarded(g2, e2), Guarded(g3, e3), Guarded(g4, e4);
    ActionsOfAppend(p1 + p2 + p3, p4);
    ActionsOfAppend(p1 + p2, p3);
    ActionsOfAppend(p1, p2);
    GuardedActions(g1, e1);
    GuardedActions(g2, e2);
    GuardedActions(g3, e3);
    GuardedActions(g4, e4);
  }

  /** The one-entry table `[e]` when `c` holds, the empty one otherwise. */
  function Guarded(c: bool, e: Entry): seq<Entry>
  {
    if c then [e] else []
  }

  lemma GuardedActions(c: bool, e: Entry)
    ensures forall a :: a in ActionsOf(Guarded(c, e)) <==> c && a == e.action
  {
  }

  // -----------------------------------------------------------------------
  // the weighted walk

  predicate NonNegative(table: seq<Entry>)
  {
    forall k :: 0 <= k < |table| ==> table[k].weight >= 0.0
  }

  /** All weight-valued config keys are non-negative. */
  predicate WeightsNonNegative(cfg: ThrashConfig)
  {
    && cfg.reweightOsd.GetOr(0.5) >= 0.0
    && cfg.chancePgnumGrow.GetOr(0.0) >= 0.0
    && cfg.chancePgnumShrink.GetOr(0.0) >= 0.0
    && cfg.chancePgpnumFix.GetOr(0.0) >= 0.0
    && cfg.chanceTestMinSize.GetOr(0.0) >= 0.0
    && cfg.chanceTestBackfillFull.GetOr(0.0) >= 0.0
    && cfg.chanceInjectPauseShort.GetOr(1.0) >= 0.0
    && cfg.chanceInjectPauseLong.GetOr(0.0) >= 0.0
  }

  /** With non-negative config weights every table entry weighs at least zero:
      the guarded entries are only added when positive. */
  lemma TableNonNegative(cfg: ThrashConfig, st: Settings, nIn: nat, nOut: nat, nLive: nat, nDead: nat)
    requires WeightsNonNegative(cfg)
    ensures NonNegative(BuildTable(cfg, st, nIn, nOut, nLive, nDead))
  {
    var moves := OsdEntries(cfg, st, nIn, nOut, nLive, nDead);
    var others := OtherEntries(cfg, st);
    assert NonNegative(moves);
    OtherEntriesNonNegative(cfg, st);
    assert BuildTable(cfg, st, nIn, nOut, nLive, nDead) == moves + others;
  }

  lemma OtherEntriesNonNegative(cfg: ThrashConfig, st: Settings)
    requires WeightsNonNegative(cfg)
    ensures NonNegative(OtherEntries(cfg, st))
  {
    PauseScenariosAsWrittenOfKeys(cfg);
  }

  /** Sum of the weights. */
  function Total(table: seq<Entry>): real
  {
    if table == [] then 0.0 else table[0].weight + Total(table[1..])
  }

  /** Sum of the weights of the first `i` entries. */
  function Upto(table: seq<Entry>, i: nat): real
    requires i <= |table|
  {
    Total(table[..i])
  }

  /** The walk of `choose_action`: return the first action whose weight exceeds
      what is left of the draw, subtracting each weight passed over. */
  function Walk(table: seq<Entry>, val: real): Option<Action>
  {
    if table == [] then None
    else if val < table[0].weight then Some(table[0].action)
    else Walk(table[1..], val - table[0].weight)
  }

  /** The position the walk stops at. */
  function WalkIndex(table: seq<Entry>, val: real): (r: Option<nat>)
    ensures r.Some? ==> r.value < |table|
  {
    if table == [] then None
    else if val < table[0].weight then Some(0)
    else match WalkIndex(table[1..], val - table[0].weight)
      case None => None
      case Some(j) => Some(j + 1)
  }

  lemma {:induction false} WalkAtIndex(table: seq<Entry>, val: real)
    ensures Walk(table, val) == match WalkIndex(table, val)
                                case None => None
                                case Some(i) => Some(table[i].action)
  {
    if table != [] && val >= table[0].weight {
      WalkAtIndex(table[1..], val - table[0].weight);
    }
  }

  lemma {:induction false} UptoStep(table: seq<Entry>, i: nat)
    requires 0 < |table| && i < |table|
    ensures Upto(table, i + 1) == table[0].weight + Upto(table[1..], i)
  {
    assert table[..i + 1][1..] == table[1..][..i];
  }

  lemma {:induction false} UptoMonotone(table: seq<Entry>, i: nat, j: nat)
    requires NonNegative(table) && i <= j <= |table|
    ensures Upto(table, i) <= Upto(table, j)
    decreases j
  {
    if i < j {
      UptoMonotone(table, i, j - 1);
      UptoLast(table, j - 1);
    }
  }

  lemma {:induction false} UptoLast(table: seq<Entry>, i: nat)
    requires i < |table|
    ensures Upto(table, i + 1) == Upto(table, i) + table[i].weight
    decreases i
  {
    if i > 0 {
      UptoStep(table, i);
      UptoLast(table[1..], i - 1);
      UptoStep(table, i - 1);
    } else {
      assert table[..1][1..] == [];
    }
  }

  /** For a draw `val >= 0` over non-negative weights, the walk stops at entry `i`
      exactly when `val` lies in that entry's band `[Upto(i), Upto(i+1))`; so a
      zero-weight entry is never chosen, every entry of weight `w` owns a band of
      width `w`, and nothing is chosen exactly when `val` reaches the total. */
  lemma {:induction false} WalkIndexBand(table: seq<Entry>, val: real)
    requires NonNegative(table) && 0.0 <= val
    ensures WalkIndex(table, val).None? <==> val >= Total(table)
    ensures WalkIndex(table, val).Some? ==>
      var i := WalkIndex(table, val).value;
      Upto(table, i) <= val < Upto(table, i + 1) && table[i].weight > 0.0
  {
    if table != [] {
      if val < table[0].weight {
        assert table[..0] == [] && table[..1][1..] == [];
        TotalNonNegative(table[1..]);
      } else {
        WalkIndexBand(table[1..], val - table[0].weight);
        match WalkIndex(table[1..], val - table[0].weight)
        case None =>
        case Some(j) =>
          UptoStep(table, j);
          UptoStep(table, j + 1);
      }
    }
  }

  lemma {:induction false} TotalNonNegative(table: seq<Entry>)
    requires NonNegative(table)
    ensures Total(table) >= 0.0
  {
    if table != [] {
      TotalNonNegative(table[1..]);
    }
  }

  /** The band of each entry is unique: if `val` lies in band `i`, the walk stops at `i`. */
  lemma WalkIndexUnique(table: seq<Entry>, val: real, i: nat)
    requires NonNegative(table) && 0.0 <= val
    requires i < |table| && Upto(table, i) <= val < Upto(table, i + 1)
    ensures WalkIndex(table, val) == Some(i)
  {
    WalkIndexBand(table, val);
    UptoMonotone(table, i + 1, |table|);
    assert table[..|table|] == table;
    var j := WalkIndex(table, val).value;
    if j < i {
      UptoMonotone(table, j + 1, i);
    } else if i < j {
      UptoMonotone(table, i + 1, j);
    }
  }

  /** What the walk returns is one of the table's actions. */
  lemma WalkPicksFromTable(table: seq<Entry>, val: real)
    ensures Walk(table, val).Some? ==> Walk(table, val).value in ActionsOf(table)
  {
    WalkAtIndex(table, val);
  }

  /** The walk's position depends only on the weights. */
  lemma {:induction false} WalkIndexWeights(t: seq<Entry>, u: seq<Entry>, val: real)
    requires Weights(t) == Weights(u)
    ensures WalkIndex(t, val) == WalkIndex(u, val)
  {
    if t != [] {
      assert t[0].weight == Weights(t)[0] == Weights(u)[0] == u[0].weight;
      assert Weights(t[1..]) == Weights(t)[1..] == Weights(u)[1..] == Weights(u[1..]);
      WalkIndexWeights(t[1..], u[1..], val - t[0].weight);
    }
  }

  lemma {:induction false} WeightsAppend(a: seq<Entry>, b: seq<Entry>)
    ensures Weights(a + b) == Weights(a) + Weights(b)
  {
    if a != [] {
      assert (a + b)[1..] == a[1..] + b;
      WeightsAppend(a[1..], b);
    }
  }

  /** Correcting the pause list changes no probability: for every draw, the
      table as written and the intended table stop at the same entry, and
      they differ at most in the fault point of a pause entry. */
  lemma CorrectionKeepsChoice(cfg: ThrashConfig, st: Settings, nIn: nat, nOut: nat, nLive: nat, nDead: nat, val: real)
    ensures var t := BuildTable(cfg, st, nIn, nOut, nLive, nDead);
      var u := IntendedTable(cfg, st, nIn, nOut, nLive, nDead);
      |t| == |u| && WalkIndex(t, val) == WalkIndex(u, val)
      && forall k :: 0 <= k < |t| && t[k] != u[k] ==>
           t[k].action.InjectPause? && u[k].action == t[k].action.(key := "heartbeat_inject_failure")
  {
    var head := OsdEntries(cfg, st, nIn, nOut, nLive, nDead) + FixedEntries(cfg, st);
    var written := PauseScenariosAsWritten(cfg, PauseKeys);
    var intended := PauseScenarios(cfg, PauseKeys);
    PauseScenariosAsWrittenOfKeys(cfg);
    PauseScenariosOfKeys(cfg);
    HeartbeatPauseLost(cfg);
    var t := BuildTable(cfg, st, nIn, nOut, nLive, nDead);
    var u := IntendedTable(cfg, st, nIn, nOut, nLive, nDead);
    assert t == head + written;
    assert u == head + intended;
    WeightsAppend(head, written);
    WeightsAppend(head, intended);
    WalkIndexWeights(t, u, val);
  }

  /** The selection loop of `choose_action`: walk the table in order, subtracting
      weights from the draw, and return the first action whose weight exceeds what
      is left; `None` when the draw outlasts the table. */
  method PickAction(table: seq<Entry>, val: real) returns (choice: Option<Action>)
    ensures choice == Walk(table, val)
    ensures NonNegative(table) && 0.0 <= val ==> (choice.None? <==> val >= Total(table))
    ensures NonNegative(table) && 0.0 <= val && choice.Some? ==>
      exists i :: 0 <= i < |table| && table[i].action == choice.value && table[i].weight > 0.0
                  && Upto(table, i) <= val < Upto(table, i + 1)
  {
    var rest := val;
    var i := 0;
    while i < |table|
      invariant 0 <= i <= |table|
      invariant Walk(table, val) == Walk(table[i..], rest)
    {
      if rest < table[i].weight {
        choice := Some(table[i].action);
        break;
      }
      rest := rest - table[i].weight;
      i := i + 1;
    }
    if i == |table| {
      choice := None;
    }
    WalkAtIndex(table, val);
    if NonNegative(table) && 0.0 <= val {
      WalkIndexBand(table, val);
    }
  }
}
