/** Vocabulary shared by the whole model: optional values, results, the Python
    exceptions the modelled code can raise, and the cluster commands it issues.

    Every call the Python code makes into the cluster (`raw_cluster_cmd`,
    `inject_args`, `set_config`, `kill_osd`, ...) is modelled as one `Command`
    appended to a trace; the cluster's answers, where the code looks at them,
    are inputs of the operation that reads them. */
module Cluster {

  datatype Option<+T> = None | Some(value: T) {
    function GetOr(default: T): T {
      match this
      case Some(v) => v
      case None => default
    }
  }

  /** The Python exceptions raised by the modelled code paths. */
  datatype Fault =
    | ValueError       // list.remove of a missing item, int() of a non-number, sampling an empty pool table
    | IndexError       // random.choice of an empty list, [0] of an empty split
    | AssertionError   // a failed `assert` in CephManager or Thrasher
    | EagainTimeout    // set_pool_property gave up after 50 EAGAIN answers
    | AttributeError   // the Thrasher read `rerrosd` before `do_thrash` had set it
    | TypeError        // `do_thrash` called the None that `choose_action` returned

  datatype Result<+T> = Ok(value: T) | Err(fault: Fault) {
    predicate IsFailure() { Err? }
    function PropagateFailure<U>(): Result<U> requires Err? { Err(fault) }
    function Extract(): T requires Ok? { value }
  }

  /** How a Python method that returns nothing ended: normally or with an exception. */
  datatype Outcome = Done | Raised(fault: Fault)

  /** A configuration value as sent with `injectargs` / `config set`. */
  datatype OptValue = IntValue(i: int) | RealValue(r: real) | TextValue(t: string)

  /** The daemons an `injectargs` is sent to: all of them (`'*'`) or one id. */
  datatype Target = Every | One(id: int)

  /** One command sent to the cluster. */
  datatype Command =
    | OsdKill(osd: int)
    | OsdRevive(osd: int, timeout: int)
    | OsdMarkDown(osd: int)
    | OsdMarkOut(osd: int)
    | OsdMarkIn(osd: int)
    | OsdReweight(osd: int, weight: int)
    | OsdPrimaryAffinity(osd: int, affinity: int)
    | OsdSetFlag(flag: string)
    | OsdUnsetFlag(flag: string)
    | InjectArgs(service: string, who: Target, option: string, value: OptValue)
    | SetConfig(osd: int, option: string, value: OptValue)
    | PoolCreate(pool: string, pgNum: int, ecProfile: Option<string>)
    | PoolSet(pool: string, property: string, value: OptValue)
    | PoolApplicationEnable(pool: string, app: string)
    | PoolRemove(pool: string)
}
