/** The pool bookkeeping of `CephManager`: the `pools` table (pool name to
    pg_num), the `next_pool_id` counter behind unique pool names, and the
    EAGAIN retry of `set_pool_property`. Every command the manager sends to the
    cluster is appended to `issued`. */
module Manager {
  import opened Cluster
  import opened Text

  /** The exit status `ceph` returns for EAGAIN. */
  const EAGAIN: int := 11

  /** `set_pool_property` gives up once it has counted more than this many EAGAIN answers. */
  const MaxEagainTries: nat := 50

  /** How many `osd pool set` commands `set_pool_property` sends when the cluster
      answers EAGAIN to the first `eagains` of them and something else afterwards. */
  function SetAttempts(eagains: nat): nat
  {
    if eagains > MaxEagainTries then MaxEagainTries + 1 else eagains + 1
  }

  /** `n` copies of one command. */
  function Repeat(c: Command, n: nat): (r: seq<Command>)
    ensures |r| == n && forall k :: 0 <= k < n ==> r[k] == c
  {
    if n == 0 then [] else Repeat(c, n - 1) + [c]
  }

  /** The name `create_pool_with_unique_name` builds from the counter. */
  function UniquePoolName(id: nat): string
  {
    "unique_pool_" + Decimal(id)
  }

  /** Different counter values give different pool names. */
  lemma UniquePoolNamesDistinct(a: nat, b: nat)
    requires a != b
    ensures UniquePoolName(a) != UniquePoolName(b)
  {
    var prefix := "unique_pool_";
    if UniquePoolName(a) == UniquePoolName(b) {
      assert Decimal(a) == UniquePoolName(a)[|prefix|..];
      assert Decimal(b) == UniquePoolName(b)[|prefix|..];
      DecimalInjective(a, b);
    }
  }

  /** One pool of the cluster's pool list at start-up, with the pg_num read for it
      (`None` when reading it failed, because the pool was being deleted). */
  datatype PoolListing = PoolListing(name: string, pgNum: Option<int>)

  /** The table the constructor builds from the pool list: every pool whose pg_num
      could be read, later listings overriding earlier ones. */
  function RecordedPools(listed: seq<PoolListing>): map<string, int>
  {
    if listed == [] then map[]
    else
      var table := RecordedPools(listed[..|listed| - 1]);
      var last := listed[|listed| - 1];
      if last.pgNum.Some? then table[last.name := last.pgNum.value] else table
  }

  /** The commands `create_pool` sends: create (erasure-coded when a non-empty
      profile name is given), then the optional min_size and overwrite settings,
      then enabling the rados application. */
  function CreateCommands(pool: string, pgNum: int, ecProfile: Option<string>,
                          minSize: Option<int>, ecOverwrites: bool): seq<Command>
  {
    var profile := if ecProfile.Some? && ecProfile.value != "" then ecProfile else None;
    [PoolCreate(pool, pgNum, profile)]
    + (if minSize.Some? then [PoolSet(pool, "min_size", IntValue(minSize.value))] else [])
    + (if ecOverwrites then [PoolSet(pool, "allow_ec_overwrites", TextValue("true"))] else [])
    + [PoolApplicationEnable(pool, "rados")]
  }

  class CephManager {
    /** Pool name to the pg_num this manager last set or read. */
    var pools: map<string, int>
    /** Counter behind `unique_pool_N` names. */
    var nextPoolId: nat
    /** Every state-changing command sent to the cluster, oldest first. */
    var issued: seq<Command>

    constructor (listed: seq<PoolListing>)
      ensures pools == RecordedPools(listed)
      ensures nextPoolId == 0 && issued == []
    {
      var table: map<string, int> := map[];
      var i := 0;
      while i < |listed|
        invariant 0 <= i <= |listed|
        invariant table == RecordedPools(listed[..i])
      {
        assert listed[..i + 1][..i] == listed[..i];
        if listed[i].pgNum.Some? {
          table := table[listed[i].name := listed[i].pgNum.value];
        }
        i := i + 1;
      }
      assert listed[..|listed|] == listed;
      pools := table;
      nextPoolId := 0;
      issued := [];
    }

    /** Send one command to the cluster. */
    method Issue(c: Command)
      modifies this
      ensures issued == old(issued) + [c]
      ensures pools == old(pools) && nextPoolId == old(nextPoolId)
    {
      issued := issued + [c];
    }

    /** `get_pool_pg_num`: the recorded pg_num, and 0 for a pool the table does not know. */
    function GetPoolPgNum(pool: string): (n: int)
      reads this
      ensures pool in pools ==> n == pools[pool]
      ensures pool !in pools ==> n == 0
    {
      if pool in pools then pools[pool] else 0
    }

    /** `get_pool`: any pool of the table; ValueError when the table is empty. */
    method GetPool() returns (r: Result<string>)
      ensures r.Ok? ==> r.value in pools
      ensures r.Err? <==> pools == map[]
      ensures r.Err? ==> r.fault == ValueError
    {
      if pools == map[] {
        return Err(ValueError);
      }
      var pool :| pool in pools;
      return Ok(pool);
    }

    /** `create_pool`: refuses (AssertionError) a name already in the table;
        otherwise sends the creation commands and records `pgNum`. */
    method CreatePool(pool: string, pgNum: int, ecProfile: Option<string>,
                      minSize: Option<int>, ecOverwrites: bool) returns (outcome: Outcome)
      modifies this
      ensures nextPoolId == old(nextPoolId)
      ensures outcome == (if pool in old(pools) then Raised(AssertionError) else Done)
      ensures outcome.Raised? ==> pools == old(pools) && issued == old(issued)
      ensures outcome.Done? ==> pools == old(pools)[pool := pgNum] && GetPoolPgNum(pool) == pgNum
      ensures outcome.Done? ==>
        issued == old(issued) + CreateCommands(pool, pgNum, ecProfile, minSize, ecOverwrites)
    {
      if pool in pools {
        return Raised(AssertionError);
      }
      var profile := if ecProfile.Some? && ecProfile.value != "" then ecProfile else None;
      Issue(PoolCreate(pool, pgNum, profile));
      if minSize.Some? {
        Issue(PoolSet(pool, "min_size", IntValue(minSize.value)));
      }
      if ecOverwrites {
        Issue(PoolSet(pool, "allow_ec_overwrites", TextValue("true")));
      }
      Issue(PoolApplicationEnable(pool, "rados"));
      pools := pools[pool := pgNum];
      return Done;
    }

    /** `create_pool_with_unique_name`: takes the next counter value (the counter
        advances even when the creation then fails) and creates `unique_pool_N`. */
    method CreatePoolWithUniqueName(pgNum: int, ecProfile: Option<string>,
                                    minSize: Option<int>, ecOverwrites: bool)
      returns (name: string, outcome: Outcome)
      modifies this
      ensures name == UniquePoolName(old(nextPoolId))
      ensures nextPoolId == old(nextPoolId) + 1
      ensures outcome == (if name in old(pools) then Raised(AssertionError) else Done)
      ensures outcome.Raised? ==> pools == old(pools) && issued == old(issued)
      ensures outcome.Done? ==> pools == old(pools)[name := pgNum]
      ensures outcome.Done? ==>
        issued == old(issued) + CreateCommands(name, pgNum, ecProfile, minSize, ecOverwrites)
    {
      name := UniquePoolName(nextPoolId);
      nextPoolId := nextPoolId + 1;
      outcome := CreatePool(name, pgNum, ecProfile, minSize, ecOverwrites);
    }

    /** `remove_pool`: refuses (AssertionError) an unknown name; otherwise deletes
        exactly that entry and sends the removal. */
    method RemovePool(pool: string) returns (outcome: Outcome)
      modifies this
      ensures nextPoolId == old(nextPoolId)
      ensures outcome == (if pool in old(pools) then Done else Raised(AssertionError))
      ensures outcome.Raised? ==> pools == old(pools) && issued == old(issued)
      ensures outcome.Done? ==> pools == old(pools) - {pool} && GetPoolPgNum(pool) == 0
      ensures outcome.Done? ==> issued == old(issued) + [PoolRemove(pool)]
    {
      if pool !in pools {
        return Raised(AssertionError);
      }
      pools := pools - {pool};
      Issue(PoolRemove(pool));
      return Done;
    }

    /** `set_pool_property`: resend `osd pool set` while the cluster answers EAGAIN,
        and raise once more than 50 EAGAIN answers have been counted. The cluster
        answers EAGAIN to the first `eagains` attempts. Any other answer, even a
        failure status, ends the loop normally. */
    method SetPoolProperty(pool: string, prop: string, val: int, eagains: nat)
      returns (outcome: Outcome)
      modifies this
      ensures pools == old(pools) && nextPoolId == old(nextPoolId)
      ensures issued == old(issued) + Repeat(PoolSet(pool, prop, IntValue(val)), SetAttempts(eagains))
      ensures outcome == (if eagains > MaxEagainTries then Raised(EagainTimeout) else Done)
    {
      var cmd := PoolSet(pool, prop, IntValue(val));
      var tries: nat := 0;
      while true
        invariant tries <= eagains && tries <= MaxEagainTries
        invariant pools == old(pools) && nextPoolId == old(nextPoolId)
        invariant issued == old(issued) + Repeat(cmd, tries)
        decreases MaxEagainTries - tries
      {
        var status := if tries < eagains then EAGAIN else 0;
        Issue(cmd);
        if status != EAGAIN {
          return Done;
        }
        tries := tries + 1;
        if tries > MaxEagainTries {
          return Raised(EagainTimeout);
        }
      }
    }

    /** `expand_pool`: grow a known pool's pg_num by `amount` (the source's `by`) unless PGs are being
        created or the result would exceed `maxPgs`. */
    method ExpandPool(pool: string, amount: int, maxPgs: int, creating: nat, eagains: nat)
      returns (r: Result<bool>)
      modifies this
      ensures nextPoolId == old(nextPoolId)
      ensures pool !in old(pools) ==> r == Err(AssertionError)
      ensures pool in old(pools) ==>
        (r == Ok(false) <==> creating > 0 || old(pools)[pool] + amount > maxPgs)
      ensures pool in old(pools) && creating == 0 && old(pools)[pool] + amount <= maxPgs ==>
        issued == old(issued) + Repeat(PoolSet(pool, "pg_num", IntValue(old(pools)[pool] + amount)),
                                       SetAttempts(eagains))
        && r == (if eagains > MaxEagainTries then Err(EagainTimeout) else Ok(true))
      ensures r == Ok(true) ==>
        pools == old(pools)[pool := old(pools)[pool] + amount]
        && GetPoolPgNum(pool) == old(GetPoolPgNum(pool)) + amount && GetPoolPgNum(pool) <= maxPgs
      ensures r != Ok(true) ==> pools == old(pools)
      ensures r == Ok(false) || r == Err(AssertionError) ==> issued == old(issued)
    {
      if pool !in pools {
        return Err(AssertionError);
      }
      if creating > 0 {
        return Ok(false);
      }
      if pools[pool] + amount > maxPgs {
        return Ok(false);
      }
      var newPgNum := pools[pool] + amount;
      var outcome := SetPoolProperty(pool, "pg_num", newPgNum, eagains);
      if outcome.Raised? {
        return Err(outcome.fault);
      }
      pools := pools[pool := newPgNum];
      return Ok(true);
    }

    /** `contract_pool`: shrink a known pool's pg_num by `amount` (the source's `by`) unless PGs are being
        created or the result would fall below `minPgs`. */
    method ContractPool(pool: string, amount: int, minPgs: int, creating: nat, eagains: nat)
      returns (r: Result<bool>)
      modifies this
      ensures nextPoolId == old(nextPoolId)
      ensures pool !in old(pools) ==> r == Err(AssertionError)
      ensures pool in old(pools) ==>
        (r == Ok(false) <==> creating > 0 || old(pools)[pool] - amount < minPgs)
      ensures pool in old(pools) && creating == 0 && old(pools)[pool] - amount >= minPgs ==>
        issued == old(issued) + Repeat(PoolSet(pool, "pg_num", IntValue(old(pools)[pool] - amount)),
                                       SetAttempts(eagains))
        && r == (if eagains > MaxEagainTries then Err(EagainTimeout) else Ok(true))
      ensures r == Ok(true) ==>
        pools == old(pools)[pool := old(pools)[pool] - amount]
        && GetPoolPgNum(pool) == old(GetPoolPgNum(pool)) - amount && GetPoolPgNum(pool) >= minPgs
      ensures r != Ok(true) ==> pools == old(pools)
      ensures r == Ok(false) || r == Err(AssertionError) ==> issued == old(issued)
    {
      if pool !in pools {
        return Err(AssertionError);
      }
      if creating > 0 {
        return Ok(false);
      }
      var proj := pools[pool] - amount;
      if proj < minPgs {
        return Ok(false);
      }
      var newPgNum := pools[pool] - amount;
      var outcome := SetPoolProperty(pool, "pg_num", newPgNum, eagains);
      if outcome.Raised? {
        return Err(outcome.fault);
      }
      pools := pools[pool := newPgNum];
      return Ok(true);
    }

    /** `set_pool_pgpnum`: set a known pool's pgp_num to its recorded pg_num,
        unless PGs are being created and `force` is off. The table is unchanged. */
    method SetPoolPgpNum(pool: string, force: bool, creating: nat, eagains: nat)
      returns (r: Result<bool>)
      modifies this
      ensures pools == old(pools) && nextPoolId == old(nextPoolId)
      ensures pool !in old(pools) ==> r == Err(AssertionError)
      ensures pool in old(pools) ==> (r == Ok(false) <==> !force && creating > 0)
      ensures r == Ok(false) || r == Err(AssertionError) ==> issued == old(issued)
      ensures pool in old(pools) && (force || creating == 0) ==>
        issued == old(issued) + Repeat(PoolSet(pool, "pgp_num", IntValue(old(pools)[pool])),
                                       SetAttempts(eagains))
        && r == (if eagains > MaxEagainTries then Err(EagainTimeout) else Ok(true))
    {
      if pool !in pools {
        return Err(AssertionError);
      }
      if !force && creating > 0 {
        return Ok(false);
      }
      var outcome := SetPoolProperty(pool, "pgp_num", pools[pool], eagains);
      if outcome.Raised? {
        return Err(outcome.fault);
      }
      return Ok(true);
    }
  }
}
