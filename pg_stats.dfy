/** The CephManager helpers that read placement-group statistics: the state
    histogram, the `get_num_*` counters, the choice of PGs whose forced
    recovery is cancelled, the retry schedule of `wait_for_pg_stats` and the
    paging of `list_unfound`. The statistics and every answer of the cluster
    are inputs; `random.random() > 0.5` is the coin `coin(k)` of the k-th draw. */
module PgStats {
  import opened Cluster
  import opened Text

  /** One entry of `pg dump`: the PG's id and its `+`-joined state. */
  datatype PgStat = PgStat(pgid: string, state: string)

  // -----------------------------------------------------------------------
  // compile_pg_status

  /** The state tokens of all PGs, PG by PG, in order. */
  function Tokens(pgs: seq<PgStat>): seq<string>
  {
    if pgs == [] then [] else Tokens(pgs[..|pgs| - 1]) + Split(pgs[|pgs| - 1].state, '+')
  }

  /** `hist` counts every token of `ms` and holds no other key. */
  ghost predicate IsHistogram(hist: map<string, nat>, ms: multiset<string>)
  {
    (forall t :: t in hist <==> t in ms) && (forall t :: t in hist ==> hist[t] == ms[t])
  }

  /** Counting one more token keeps the histogram exact. */
  lemma HistogramStep(hist: map<string, nat>, ms: multiset<string>, t: string)
    requires IsHistogram(hist, ms)
    ensures t in hist ==> IsHistogram(hist[t := hist[t] + 1], ms + multiset{t})
    ensures t !in hist ==> IsHistogram(hist[t := 0][t := 0 + 1], ms + multiset{t})
  {
  }

  /** `compile_pg_status`: the histogram of the state tokens of `pgs`. */
  method CompilePgStatus(pgs: seq<PgStat>) returns (hist: map<string, nat>)
    ensures IsHistogram(hist, multiset(Tokens(pgs)))
  {
    hist := map[];
    for i := 0 to |pgs|
      invariant IsHistogram(hist, multiset(Tokens(pgs[..i])))
    {
      assert pgs[..i + 1][..i] == pgs[..i];
      assert Tokens(pgs[..i + 1]) == Tokens(pgs[..i]) + Split(pgs[i].state, '+');
      hist := CountTokens(hist, multiset(Tokens(pgs[..i])), Split(pgs[i].state, '+'));
    }
    assert pgs[..|pgs|] == pgs;
  }

  /** The inner loop of `compile_pg_status`: count the tokens of one state. */
  method CountTokens(hist0: map<string, nat>, ghost ms: multiset<string>, parts: seq<string>) returns (hist: map<string, nat>)
    requires IsHistogram(hist0, ms)
    ensures IsHistogram(hist, ms + multiset(parts))
  {
    hist := hist0;
    for j := 0 to |parts|
      invariant IsHistogram(hist, ms + multiset(parts[..j]))
    {
      assert parts[..j + 1] == parts[..j] + [parts[j]];
      HistogramStep(hist, ms + multiset(parts[..j]), parts[j]);
      if parts[j] !in hist {
        hist := hist[parts[j] := 0];
      }
      hist := hist[parts[j] := hist[parts[j]] + 1];
    }
    assert parts[..|parts|] == parts;
  }

  /** Each token of the state of PG `i` is among the tokens of `pgs`. */
  lemma {:induction false} TokenOfPg(pgs: seq<PgStat>, i: int, t: string)
    requires 0 <= i < |pgs| && t in Split(pgs[i].state, '+')
    ensures t in Tokens(pgs)
  {
    var init := pgs[..|pgs| - 1];
    if i < |pgs| - 1 {
      assert pgs[i] == init[i];
      TokenOfPg(init, i, t);
    }
  }

  /** Every state yields at least one token, so there are at least as many
      tokens as PGs. */
  lemma {:induction false} TokensAtLeastPgs(pgs: seq<PgStat>)
    ensures |Tokens(pgs)| >= |pgs|
  {
    if pgs != [] {
      TokensAtLeastPgs(pgs[..|pgs| - 1]);
    }
  }

  /** Hence the histogram has an entry for every token of every PG state. */
  lemma HistogramCoversStates(pgs: seq<PgStat>, hist: map<string, nat>, i: int, t: string)
    requires IsHistogram(hist, multiset(Tokens(pgs)))
    requires 0 <= i < |pgs| && t in Split(pgs[i].state, '+')
    ensures t in hist && hist[t] >= 1
  {
    TokenOfPg(pgs, i, t);
    assert t in multiset(Tokens(pgs));
  }

  // -----------------------------------------------------------------------
  // get_num_creating, get_num_active_clean, ... : the PG-state predicates

  /** Which `get_num_*` counter. */
  datatype PgCount = Creating | ActiveClean | ActiveRecovered | Active | Down | ActiveDown

  /** The test each counter applies to a PG's state; Python's `s.count(w)` is
      truthy exactly when `w` occurs in `s`. */
  predicate Counted(kind: PgCount, state: string)
  {
    var has := (w: string) => ContainsSub(state, w);
    match kind
    case Creating => has("creating")
    case ActiveClean => has("active") && has("clean") && !has("stale")
    case ActiveRecovered => has("active") && !has("recover") && !has("backfilling") && !has("stale")
    case Active => has("active") && !has("stale")
    case Down => (has("down") && !has("stale")) || (has("incomplete") && !has("stale"))
    case ActiveDown =>
      (has("active") && !has("stale")) || (has("down") && !has("stale")) || (has("incomplete") && !has("stale"))
  }

  /** The number of PGs the counter accepts. */
  function CountOf(kind: PgCount, pgs: seq<PgStat>): (n: nat)
    ensures n <= |pgs|
  {
    if pgs == [] then 0
    else CountOf(kind, pgs[..|pgs| - 1]) + (if Counted(kind, pgs[|pgs| - 1].state) then 1 else 0)
  }

  /** `get_num_*`: the counting loop over the PG statistics. */
  method GetNum(kind: PgCount, pgs: seq<PgStat>) returns (num: nat)
    ensures num == CountOf(kind, pgs)
  {
    num := 0;
    for i := 0 to |pgs|
      invariant num == CountOf(kind, pgs[..i])
    {
      assert pgs[..i + 1][..i] == pgs[..i];
      if Counted(kind, pgs[i].state) {
        num := num + 1;
      }
    }
    assert pgs[..|pgs|] == pgs;
  }

  /** The counter reaches the number of PGs in the dump exactly when it accepts
      every PG of the dump. (`is_clean` and its siblings compare the counter with
      `get_num_pgs`, the count `ceph status` reports; this is their meaning when
      that count is the dump's.) */
  lemma {:induction false} CountAllIff(kind: PgCount, pgs: seq<PgStat>)
    ensures CountOf(kind, pgs) == |pgs| <==> forall i :: 0 <= i < |pgs| ==> Counted(kind, pgs[i].state)
  {
    if pgs != [] {
      var init := pgs[..|pgs| - 1];
      CountAllIff(kind, init);
      if forall i :: 0 <= i < |pgs| ==> Counted(kind, pgs[i].state) {
        forall i | 0 <= i < |init| ensures Counted(kind, init[i].state) {
          assert init[i] == pgs[i];
        }
      }
      if CountOf(kind, pgs) == |pgs| {
        forall i | 0 <= i < |pgs| ensures Counted(kind, pgs[i].state) {
          if i < |init| {
            assert init[i] == pgs[i];
          }
        }
      }
    }
  }

  /** A counter whose test implies another's never counts more PGs. */
  lemma {:induction false} CountMonotone(k1: PgCount, k2: PgCount, pgs: seq<PgStat>)
    requires forall i :: 0 <= i < |pgs| ==> Counted(k1, pgs[i].state) ==> Counted(k2, pgs[i].state)
    ensures CountOf(k1, pgs) <= CountOf(k2, pgs)
  {
    if pgs != [] {
      var init := pgs[..|pgs| - 1];
      forall i | 0 <= i < |init| ensures Counted(k1, init[i].state) ==> Counted(k2, init[i].state) {
        assert init[i] == pgs[i];
      }
      CountMonotone(k1, k2, init);
    }
  }

  /** The state tests nest: active+clean and active+recovered PGs are active,
      active PGs and down PGs are exactly the active-or-down PGs. */
  lemma CountedNesting(state: string)
    ensures Counted(ActiveClean, state) ==> Counted(Active, state)
    ensures Counted(ActiveRecovered, state) ==> Counted(Active, state)
    ensures Counted(ActiveDown, state) <==> Counted(Active, state) || Counted(Down, state)
  {
  }

  /** The counters are ordered accordingly, and active-or-down counts no more
      than active plus down. */
  lemma {:induction false} CountOrder(pgs: seq<PgStat>)
    ensures CountOf(ActiveClean, pgs) <= CountOf(Active, pgs)
    ensures CountOf(ActiveRecovered, pgs) <= CountOf(Active, pgs)
    ensures CountOf(Active, pgs) <= CountOf(ActiveDown, pgs)
    ensures CountOf(Down, pgs) <= CountOf(ActiveDown, pgs)
    ensures CountOf(ActiveDown, pgs) <= CountOf(Active, pgs) + CountOf(Down, pgs)
  {
    if pgs != [] {
      CountOrder(pgs[..|pgs| - 1]);
      CountedNesting(pgs[|pgs| - 1].state);
    }
  }

  // -----------------------------------------------------------------------
  // get_pgids_to_cancel_force

  /** The state token of a forced PG. */
  function ForcedToken(backfill: bool): string
  {
    if backfill then "forced_backfill" else "forced_recovery"
  }

  /** The PG's state holds `wanted` as one of its `+`-separated tokens. */
  predicate HasToken(pg: PgStat, wanted: string)
  {
    wanted in Split(pg.state, '+')
  }

  /** The ids picked from `pgs` and the number of coins drawn, starting at draw
      `first`: a coin is drawn only for a PG that holds `wanted` (the `and`
      short-circuits), and the PG is picked when its coin comes up. */
  function CancelPicks(pgs: seq<PgStat>, wanted: string, coin: nat -> bool, first: nat): (r: (seq<string>, nat))
    ensures |r.0| <= |pgs|
    ensures forall x :: x in r.0 ==> exists i :: 0 <= i < |pgs| && pgs[i].pgid == x && HasToken(pgs[i], wanted)
  {
    if pgs == [] then ([], first)
    else
      var (ids, next) := CancelPicks(pgs[..|pgs| - 1], wanted, coin, first);
      var pg := pgs[|pgs| - 1];
      assert forall x :: x in ids ==> exists i :: 0 <= i < |pgs| - 1 && pgs[i].pgid == x && HasToken(pgs[i], wanted);
      if HasToken(pg, wanted) then
        if coin(next) then (ids + [pg.pgid], next + 1) else (ids, next + 1)
      else (ids, next)
  }

  /** The number of PGs in `pgs` that hold `wanted`. */
  function Holding(pgs: seq<PgStat>, wanted: string): nat
  {
    if pgs == [] then 0 else Holding(pgs[..|pgs| - 1], wanted) + (if HasToken(pgs[|pgs| - 1], wanted) then 1 else 0)
  }

  /** The ids of the PGs in `pgs` that hold `wanted`, in order. */
  function HoldingIds(pgs: seq<PgStat>, wanted: string): seq<string>
  {
    if pgs == [] then []
    else HoldingIds(pgs[..|pgs| - 1], wanted) + (if HasToken(pgs[|pgs| - 1], wanted) then [pgs[|pgs| - 1].pgid] else [])
  }

  /** `get_pgids_to_cancel_force`: the loop over the PG statistics. */
  method PgidsToCancelForce(pgs: seq<PgStat>, backfill: bool, coin: nat -> bool) returns (pgids: seq<string>, draws: nat)
    ensures (pgids, draws) == CancelPicks(pgs, ForcedToken(backfill), coin, 0)
  {
    var wanted := ForcedToken(backfill);
    pgids := [];
    draws := 0;
    for i := 0 to |pgs|
      invariant (pgids, draws) == CancelPicks(pgs[..i], wanted, coin, 0)
    {
      assert pgs[..i + 1][..i] == pgs[..i];
      var status := Split(pgs[i].state, '+');
      if wanted in status {
        var heads := coin(draws);
        draws := draws + 1;
        if heads {
          pgids := pgids + [pgs[i].pgid];
        }
      }
    }
    assert pgs[..|pgs|] == pgs;
  }

  /** One coin is drawn per PG holding the forced token, whatever the coins say. */
  lemma {:induction false} CancelDraws(pgs: seq<PgStat>, wanted: string, coin: nat -> bool, first: nat)
    ensures CancelPicks(pgs, wanted, coin, first).1 == first + Holding(pgs, wanted)
  {
    if pgs != [] {
      CancelDraws(pgs[..|pgs| - 1], wanted, coin, first);
    }
  }

  /** When every coin comes up, exactly the forced PGs are picked, in order;
      when none does, no PG is picked. */
  lemma {:induction false} CancelExtremes(pgs: seq<PgStat>, wanted: string, first: nat)
    ensures CancelPicks(pgs, wanted, _ => true, first).0 == HoldingIds(pgs, wanted)
    ensures CancelPicks(pgs, wanted, _ => false, first).0 == []
  {
    if pgs != [] {
      CancelExtremes(pgs[..|pgs| - 1], wanted, first);
    }
  }

  // -----------------------------------------------------------------------
  // wait_for_pg_stats

  /** The sleeps, in seconds, after each failed attempt. */
  const PgStatsDelays: seq<nat> := [1, 1, 2, 3, 5, 8, 13, 0]

  function Sum(xs: seq<nat>): nat
  {
    if xs == [] then 0 else Sum(xs[..|xs| - 1]) + xs[|xs| - 1]
  }

  /** The wrapper `wait_for_pg_stats` puts around a check: call it up to eight
      times, sleeping after each AssertionError, and re-raise the last
      AssertionError when all eight fail; any other outcome (a value or
      another exception) ends the retries at once. `attempt(k)` is the outcome
      of the k-th call. */
  method WaitForPgStats<T>(attempt: nat -> Result<T>) returns (r: Result<T>, slept: seq<nat>)
    ensures |slept| <= |PgStatsDelays| && slept == PgStatsDelays[..|slept|]
    ensures forall k :: 0 <= k < |slept| ==> attempt(k) == Err(AssertionError)
    ensures |slept| < |PgStatsDelays| ==> r == attempt(|slept|) && r != Err(AssertionError)
    ensures |slept| == |PgStatsDelays| ==> r == Err(AssertionError)
  {
    slept := [];
    for i := 0 to |PgStatsDelays|
      invariant slept == PgStatsDelays[..i]
      invariant forall k :: 0 <= k < i ==> attempt(k) == Err(AssertionError)
    {
      r := attempt(i);
      if r != Err(AssertionError) {
        return;
      }
      slept := slept + [PgStatsDelays[i]];
    }
    r := Err(AssertionError);
  }

  /** The retries never sleep more than 33 seconds in all. */
  lemma SleepBound(n: nat)
    requires n <= |PgStatsDelays|
    ensures Sum(PgStatsDelays[..n]) <= 33
  {
    var d := PgStatsDelays;
    assert d[..1][..0] == [] && d[..2][..1] == d[..1] && d[..3][..2] == d[..2] && d[..4][..3] == d[..3];
    assert d[..5][..4] == d[..4] && d[..6][..5] == d[..5] && d[..7][..6] == d[..6] && d[..8][..7] == d[..7];
    assert Sum(d[..1]) == 1 && Sum(d[..2]) == 2 && Sum(d[..3]) == 4 && Sum(d[..4]) == 7;
    assert Sum(d[..5]) == 12 && Sum(d[..6]) == 20 && Sum(d[..7]) == 33 && Sum(d[..8]) == 33;
  }

  // -----------------------------------------------------------------------
  // list_pg_unfound

  /** One answer of `pg <id> list_unfound <offset>`: the unfound objects' oids
      and the optional `more` key. */
  datatype UnfoundPage = UnfoundPage(objects: seq<string>, more: Option<int>)

  /** The answer tells the loop to stop: no `more` key, or `more` is 0. */
  predicate Stops(p: UnfoundPage)
  {
    p.more.None? || p.more.value == 0
  }

  ghost predicate HasStop(pages: seq<UnfoundPage>)
  {
    exists k :: 0 <= k < |pages| && Stops(pages[k])
  }

  /** The index of the first answer that stops the loop. */
  function FirstStop(pages: seq<UnfoundPage>): (n: nat)
    requires HasStop(pages)
    ensures n < |pages| && Stops(pages[n])
    ensures forall k :: 0 <= k < n ==> !Stops(pages[k])
  {
    if Stops(pages[0]) then 0
    else
      assert HasStop(pages[1..]) by {
        var k :| 0 <= k < |pages| && Stops(pages[k]);
        assert pages[1..][k - 1] == pages[k];
      }
      var n := FirstStop(pages[1..]);
      assert forall k :: 1 <= k < n + 1 ==> pages[k] == pages[1..][k - 1];
      n + 1
  }

  /** The objects of the given answers, in order. */
  function Concat(pages: seq<UnfoundPage>): seq<string>
  {
    if pages == [] then [] else Concat(pages[..|pages| - 1]) + pages[|pages| - 1].objects
  }

  /** The offset sent with query `k`: `{}` first, then the last oid of the previous answer. */
  function OffsetFor(pages: seq<UnfoundPage>, k: nat): Option<string>
    requires k <= |pages| && (k > 0 ==> pages[k - 1].objects != [])
  {
    if k == 0 then None else Some(pages[k - 1].objects[|pages[k - 1].objects| - 1])
  }

  /** `list_pg_unfound`, where `pages[k]` is the cluster's answer to the k-th
      query. The loop asks until an answer stops it; `sent` is the offsets
      sent. An answer that asks for more but lists no object raises IndexError
      when its last oid is read. */
  method ListPgUnfound(pages: seq<UnfoundPage>) returns (r: Result<UnfoundPage>, sent: seq<Option<string>>)
    requires HasStop(pages)
    ensures 1 <= |sent| <= FirstStop(pages) + 1
    ensures forall k :: 0 <= k < |sent| - 1 ==> pages[k].objects != []
    ensures forall k :: 0 <= k < |sent| ==> sent[k] == OffsetFor(pages, k)
    ensures r.Ok? <==> forall k :: 0 <= k < FirstStop(pages) ==> pages[k].objects != []
    ensures r.Ok? ==> |sent| == FirstStop(pages) + 1 && r.value == UnfoundPage(Concat(pages[..|sent|]), None)
    ensures r.Err? ==> r.fault == IndexError && pages[|sent| - 1].objects == []
  {
    var n := FirstStop(pages);
    var acc: UnfoundPage := pages[0];
    var offset: Option<string> := None;
    var i := 0;
    sent := [];
    while true
      invariant 0 <= i <= n && |sent| == i
      invariant forall k :: 0 <= k < i ==> pages[k].objects != []
      invariant forall k :: 0 <= k < i ==> sent[k] == OffsetFor(pages, k)
      invariant offset == OffsetFor(pages, i)
      invariant i > 0 ==> acc.objects == Concat(pages[..i])
      invariant i == 0 ==> acc == pages[0]
      decreases n - i
    {
      sent := sent + [offset];
      var j := pages[i];
      if i == 0 {
        acc := j;
      } else {
        acc := acc.(objects := acc.objects + j.objects);
      }
      assert pages[..i + 1][..i] == pages[..i];
      assert Concat(pages[..i + 1]) == Concat(pages[..i]) + j.objects;
      assert i == 0 ==> acc.objects == Concat(pages[..i + 1]) by {
        if i == 0 {
          assert pages[..1][..0] == [];
        }
      }
      if Stops(j) {
        assert i == n;
        break;
      }
      if j.objects == [] {
        assert i < n;
        return Err(IndexError), sent;
      }
      offset := Some(j.objects[|j.objects| - 1]);
      i := i + 1;
    }
    r := Ok(acc.(more := None));
  }

  /** Every object of every page read up to the stop is in the result. */
  lemma {:induction false} ConcatKeepsObjects(pages: seq<UnfoundPage>)
    ensures |Concat(pages)| >= 0
    ensures forall k, x :: 0 <= k < |pages| && x in pages[k].objects ==> x in Concat(pages)
  {
    if pages != [] {
      var init := pages[..|pages| - 1];
      ConcatKeepsObjects(init);
      forall k, x | 0 <= k < |pages| && x in pages[k].objects ensures x in Concat(pages) {
        if k < |init| {
          assert init[k] == pages[k];
        }
      }
    }
  }
}
