/** rbd-mirror's `image_deleter::ImageRemoveRequest`: the request that drops an
    image's mirroring record. It reads the image's mirror info, marks the record
    DISABLING, removes it, and completes its caller's callback with the result
    of the first step that failed (or of the removal).

    The librados and cls calls are not executed: each step appends the
    operation it issues to `ops`, and the answers the cluster gives (the mirror
    info lookup, the two write results) are the inputs of `Send`. Each
    asynchronous callback is modelled as a direct call of the next handler. */
module ImageDeleter {

  // errno values, as negated in the results
  const ENOENT := 2
  const EEXIST := 17
  const EINVAL := 22

  /** `cls::rbd::MirrorImageState`. */
  datatype MirrorImageState = Disabling | Enabled | Disabled | Creating

  /** `librbd::mirror::PromotionState`. */
  datatype PromotionState = Primary | NonPrimary | Orphan | Unknown

  /** `cls::rbd::MirrorImage`: the mirroring record of an image. */
  datatype MirrorImage = MirrorImage(globalImageId: string, state: MirrorImageState)

  /** What the mirror info lookup answers: its result code and the three values
      it fills in on success. */
  datatype MirrorInfo = MirrorInfo(r: int, image: MirrorImage, promotion: PromotionState, primaryMirrorUuid: string)

  /** The I/O context of the pool and the work queue, as opaque handles. */
  datatype IoCtx = IoCtx(pool: int)
  datatype WorkQueue = WorkQueue(id: int)

  /** The operations the request issues, in the order it issues them. */
  datatype Op =
    | GetMirrorInfoOp(imageId: string)
    | MirrorImageSetOp(imageId: string, image: MirrorImage)
    | MirrorImageRemoveOp(imageId: string)

  /** The steps of the state machine. `GetMirrorImageId` is drawn in the class's
      diagram but no code implements it. */
  datatype Step = GetMirrorImageId | GetMirrorInfoStep | DisableMirrorImageStep | RemoveMirrorImageStep | FinishStep

  /** The order the diagram in the header documents. */
  const DocumentedOrder: seq<Step> := [GetMirrorImageId, GetMirrorInfoStep, DisableMirrorImageStep, RemoveMirrorImageStep, FinishStep]

  /** The order the handlers implement. */
  const ImplementedOrder: seq<Step> := [GetMirrorInfoStep, DisableMirrorImageStep, RemoveMirrorImageStep, FinishStep]

  /** A `Context`: the callback the request completes. */
  class Context {
    /** The codes it has been completed with, in order. */
    var completions: seq<int>

    constructor()
      ensures completions == []
    {
      completions := [];
    }

    method Complete(r: int)
      modifies this
      ensures completions == old(completions) + [r]
    {
      completions := completions + [r];
    }
  }

  // -----------------------------------------------------------------------
  // What one run of the request does, as functions of the cluster's answers

  /** The code the request finishes with: the first negative step result, else
      the removal's own result. */
  function RemoveResult(infoR: int, disableR: int, removeR: int): int
  {
    if infoR < 0 then infoR else if disableR < 0 then disableR else removeR
  }

  /** The operations issued. */
  function Trace(imageId: string, info: MirrorInfo, disableR: int): seq<Op>
  {
    [GetMirrorInfoOp(imageId)]
    + (if info.r < 0 then []
       else [MirrorImageSetOp(imageId, info.image.(state := Disabling))]
            + (if disableR < 0 then [] else [MirrorImageRemoveOp(imageId)]))
  }

  /** The steps taken. */
  function StepsTaken(infoR: int, disableR: int): seq<Step>
  {
    if infoR < 0 then [GetMirrorInfoStep, FinishStep]
    else if disableR < 0 then [GetMirrorInfoStep, DisableMirrorImageStep, FinishStep]
    else ImplementedOrder
  }

  predicate IsWrite(op: Op)
  {
    op.MirrorImageSetOp? || op.MirrorImageRemoveOp?
  }

  // -----------------------------------------------------------------------
  // The request

  class ImageRemoveRequest {
    const ioCtx: IoCtx
    const globalImageId: string
    const imageId: string
    const opWorkQueue: WorkQueue
    const onFinish: Context

    var mirrorImage: MirrorImage
    var promotionState: PromotionState
    var primaryMirrorUuid: string

    /** The operations issued so far. */
    var ops: seq<Op>
    /** The steps run so far. */
    ghost var steps: seq<Step>
    /** `finish` has run and the request has deleted itself. */
    var destroyed: bool

    /** The constructor stores its five arguments unchanged. */
    constructor(ioCtx: IoCtx, globalImageId: string, imageId: string, opWorkQueue: WorkQueue, onFinish: Context)
      ensures this.ioCtx == ioCtx && this.globalImageId == globalImageId && this.imageId == imageId
      ensures this.opWorkQueue == opWorkQueue && this.onFinish == onFinish
      ensures ops == [] && steps == [] && !destroyed
    {
      this.ioCtx := ioCtx;
      this.globalImageId := globalImageId;
      this.imageId := imageId;
      this.opWorkQueue := opWorkQueue;
      this.onFinish := onFinish;
      mirrorImage := MirrorImage("", Disabled);
      promotionState := Unknown;
      primaryMirrorUuid := "";
      ops := [];
      steps := [];
      destroyed := false;
    }

    /** `create`: a new request built by the constructor from the same five arguments. */
    static method Create(ioCtx: IoCtx, globalImageId: string, imageId: string, opWorkQueue: WorkQueue, onFinish: Context)
      returns (req: ImageRemoveRequest)
      ensures fresh(req)
      ensures req.ioCtx == ioCtx && req.globalImageId == globalImageId && req.imageId == imageId
      ensures req.opWorkQueue == opWorkQueue && req.onFinish == onFinish
      ensures req.ops == [] && req.steps == [] && !req.destroyed
    {
      req := new ImageRemoveRequest(ioCtx, globalImageId, imageId, opWorkQueue, onFinish);
    }

    /** `send`: runs the request to its end. The lookup answers `info`; the
        two writes answer `disableR` and `removeR`. */
    method Send(info: MirrorInfo, disableR: int, removeR: int)
      requires !destroyed
      modifies this, onFinish
      ensures destroyed
      ensures onFinish.completions == old(onFinish.completions) + [RemoveResult(info.r, disableR, removeR)]
      ensures ops == old(ops) + Trace(imageId, info, disableR)
      ensures steps == old(steps) + StepsTaken(info.r, disableR)
      ensures info.r >= 0 ==> mirrorImage == info.image.(state := Disabling)
    {
      GetMirrorInfo(info, disableR, removeR);
    }

    /** Issues the mirror info lookup; the lookup fills in the image's record,
        promotion state and primary mirror uuid when it succeeds. */
    method GetMirrorInfo(info: MirrorInfo, disableR: int, removeR: int)
      requires !destroyed
      modifies this, onFinish
      ensures destroyed
      ensures onFinish.completions == old(onFinish.completions) + [RemoveResult(info.r, disableR, removeR)]
      ensures ops == old(ops) + Trace(imageId, info, disableR)
      ensures steps == old(steps) + StepsTaken(info.r, disableR)
      ensures info.r >= 0 ==> mirrorImage == info.image.(state := Disabling)
    {
      steps := steps + [GetMirrorInfoStep];
      ops := ops + [GetMirrorInfoOp(imageId)];
      if info.r >= 0 {
        mirrorImage := info.image;
        promotionState := info.promotion;
        primaryMirrorUuid := info.primaryMirrorUuid;
      }
      HandleGetMirrorInfo(info.r, disableR, removeR);
    }

    /** A negative lookup result (-ENOENT: the image is not mirrored, or any
        other error) finishes with that code; otherwise the record is disabled. */
    method HandleGetMirrorInfo(r: int, disableR: int, removeR: int)
      requires !destroyed
      modifies this, onFinish
      ensures destroyed
      ensures onFinish.completions == old(onFinish.completions) + [RemoveResult(r, disableR, removeR)]
      ensures r < 0 ==> ops == old(ops) && steps == old(steps) + [FinishStep]
      ensures r >= 0 ==> ops == old(ops) + [MirrorImageSetOp(imageId, old(mirrorImage).(state := Disabling))]
                                   + (if disableR < 0 then [] else [MirrorImageRemoveOp(imageId)])
      ensures r >= 0 ==> steps == old(steps) + StepsTaken(0, disableR)[1..]
      ensures r >= 0 ==> mirrorImage == old(mirrorImage).(state := Disabling)
    {
      if r == -ENOENT {
        Finish(r);
        return;
      } else if r < 0 {
        Finish(r);
        return;
      }
      DisableMirrorImage(disableR, removeR);
    }

    /** Marks the record DISABLING and only then issues the write that stores it. */
    method DisableMirrorImage(disableR: int, removeR: int)
      requires !destroyed
      modifies this, onFinish
      ensures destroyed
      ensures onFinish.completions == old(onFinish.completions) + [RemoveResult(0, disableR, removeR)]
      ensures ops == old(ops) + [MirrorImageSetOp(imageId, old(mirrorImage).(state := Disabling))]
                              + (if disableR < 0 then [] else [MirrorImageRemoveOp(imageId)])
      ensures steps == old(steps) + StepsTaken(0, disableR)[1..]
      ensures mirrorImage == old(mirrorImage).(state := Disabling)
    {
      steps := steps + [DisableMirrorImageStep];
      mirrorImage := mirrorImage.(state := Disabling);
      ops := ops + [MirrorImageSetOp(imageId, mirrorImage)];
      HandleDisableMirrorImage(disableR, removeR);
    }

    /** A negative result of the DISABLING write finishes with that code: -ENOENT
        (not mirrored), -EEXIST or -EINVAL (the global image id was reused) or
        any other error; otherwise the record is removed. */
    method HandleDisableMirrorImage(r: int, removeR: int)
      requires !destroyed
      modifies this, onFinish
      ensures destroyed
      ensures onFinish.completions == old(onFinish.completions) + [RemoveResult(0, r, removeR)]
      ensures ops == old(ops) + (if r < 0 then [] else [MirrorImageRemoveOp(imageId)])
      ensures steps == old(steps) + (if r < 0 then [FinishStep] else [RemoveMirrorImageStep, FinishStep])
      ensures mirrorImage == old(mirrorImage)
    {
      if r == -ENOENT {
        Finish(r);
        return;
      } else if r == -EEXIST || r == -EINVAL {
        Finish(r);
        return;
      } else if r < 0 {
        Finish(r);
        return;
      }
      RemoveMirrorImage(removeR);
    }

    /** Issues the write that removes the record. */
    method RemoveMirrorImage(removeR: int)
      requires !destroyed
      modifies this, onFinish
      ensures destroyed
      ensures onFinish.completions == old(onFinish.completions) + [removeR]
      ensures ops == old(ops) + [MirrorImageRemoveOp(imageId)]
      ensures steps == old(steps) + [RemoveMirrorImageStep, FinishStep]
      ensures mirrorImage == old(mirrorImage)
    {
      steps := steps + [RemoveMirrorImageStep];
      ops := ops + [MirrorImageRemoveOp(imageId)];
      HandleRemoveMirrorImage(removeR);
    }

    /** The removal finishes with its own result, whatever it is. */
    method HandleRemoveMirrorImage(r: int)
      requires !destroyed
      modifies this, onFinish
      ensures destroyed
      ensures onFinish.completions == old(onFinish.completions) + [r]
      ensures ops == old(ops) && steps == old(steps) + [FinishStep]
      ensures mirrorImage == old(mirrorImage)
    {
      if r == -ENOENT {
        // the image was not mirrored: only logged
      } else if r < 0 {
        // any other failure: only logged
      }
      Finish(r);
    }

    /** Completes the caller's callback with `r` once, then deletes the request. */
    method Finish(r: int)
      requires !destroyed
      modifies this, onFinish
      ensures destroyed
      ensures onFinish.completions == old(onFinish.completions) + [r]
      ensures ops == old(ops) && steps == old(steps) + [FinishStep]
      ensures mirrorImage == old(mirrorImage)
    {
      steps := steps + [FinishStep];
      onFinish.Complete(r);
      destroyed := true;
    }
  }

  // -----------------------------------------------------------------------
  // Properties of a run

  /** A failed lookup, -ENOENT included, finishes with its own code and issues
      no write. */
  lemma FailedLookupWritesNothing(imageId: string, info: MirrorInfo, disableR: int, removeR: int)
    requires info.r < 0
    ensures RemoveResult(info.r, disableR, removeR) == info.r
    ensures forall k :: 0 <= k < |Trace(imageId, info, disableR)| ==> !IsWrite(Trace(imageId, info, disableR)[k])
  {
  }

  /** A failed DISABLING write finishes with its own code, and the removal is
      never issued. */
  lemma FailedDisableNeverRemoves(imageId: string, info: MirrorInfo, disableR: int, removeR: int)
    requires info.r >= 0 && disableR < 0
    ensures RemoveResult(info.r, disableR, removeR) == disableR
    ensures forall k :: 0 <= k < |Trace(imageId, info, disableR)| ==> !Trace(imageId, info, disableR)[k].MirrorImageRemoveOp?
  {
  }

  /** When both earlier steps succeed, the request finishes with the removal's
      own code, and it issued the lookup, the DISABLING write and the removal. */
  lemma RemoveFinishesWithOwnCode(imageId: string, info: MirrorInfo, disableR: int, removeR: int)
    requires info.r >= 0 && disableR >= 0
    ensures RemoveResult(info.r, disableR, removeR) == removeR
    ensures Trace(imageId, info, disableR)
         == [GetMirrorInfoOp(imageId), MirrorImageSetOp(imageId, info.image.(state := Disabling)), MirrorImageRemoveOp(imageId)]
  {
  }

  /** The request finishes with a negative code exactly when some step failed. */
  lemma ResultNegativeIff(infoR: int, disableR: int, removeR: int)
    ensures RemoveResult(infoR, disableR, removeR) < 0 <==> infoR < 0 || disableR < 0 || removeR < 0
    ensures RemoveResult(infoR, disableR, removeR) in {infoR, disableR, removeR}
  {
  }

  /** The writes come in the fixed order set-DISABLING then remove, each at most
      once, and every write stores the record in the DISABLING state. */
  lemma WritesInOrder(imageId: string, info: MirrorInfo, disableR: int)
    ensures var t := Trace(imageId, info, disableR);
      t[0] == GetMirrorInfoOp(imageId)
      && (forall k :: 1 <= k < |t| ==> IsWrite(t[k]))
      && (forall k :: 0 <= k < |t| && t[k].MirrorImageRemoveOp? ==> k == 2 && t[1].MirrorImageSetOp?)
      && (forall k :: 0 <= k < |t| && t[k].MirrorImageSetOp? ==> k == 1 && t[k].image.state == Disabling)
  {
  }

  /** The lookup is the first operation of every run, and each operation is
      issued at most once. */
  lemma EachOpOnce(imageId: string, info: MirrorInfo, disableR: int)
    ensures var t := Trace(imageId, info, disableR);
      1 <= |t| <= 3 && t[0] == GetMirrorInfoOp(imageId)
      && forall i, j :: 0 <= i < j < |t| ==> t[i] != t[j]
  {
  }

  /** Every run follows the implemented order, which is the documented order
      without the unimplemented image id lookup, and ends in exactly one
      `finish`. */
  lemma StepsFollowImplementedOrder(infoR: int, disableR: int)
    ensures DocumentedOrder[1..] == ImplementedOrder
    ensures var s := StepsTaken(infoR, disableR);
      s[|s| - 1] == FinishStep
      && (forall k :: 0 <= k < |s| - 1 ==> s[k] != FinishStep)
      && s[..|s| - 1] <= ImplementedOrder
      && GetMirrorImageId !in s
  {
  }

  /** A run started on a fresh request completes its callback exactly once and
      leaves the request destroyed. */
  method RunOnce(ioCtx: IoCtx, globalImageId: string, imageId: string, opWorkQueue: WorkQueue,
                 info: MirrorInfo, disableR: int, removeR: int)
    returns (onFinish: Context, req: ImageRemoveRequest)
    ensures fresh(onFinish) && fresh(req)
    ensures onFinish.completions == [RemoveResult(info.r, disableR, removeR)]
    ensures req.destroyed && req.ops == Trace(imageId, info, disableR)
  {
    onFinish := new Context();
    req := ImageRemoveRequest.Create(ioCtx, globalImageId, imageId, opWorkQueue, onFinish);
    req.Send(info, disableR, removeR);
  }
}
