/**
  Who replies to an asynchronous call, and who deletes its handler: the dispatching threads, the thread that enforces
  timeouts, the main loop and the shutdown act in any order. Each step is one section under a lock, or one callback.
 */
module ReplyTimeout {
  import opened Common

  /** Where a handler comes from: a call that is pending, a call that could not be sent, or a reply made locally. */
  datatype Origin = Call(pending: nat) | Failed | Queued

  datatype Handler = Handler(
    origin: Origin,
    executionStarted: bool,
    executionFinished: bool,
    timeoutOccurred: bool,
    hasToBeDeleted: bool,
    replies: nat,
    deletes: nat)

  /** The enforcer between its look at a handler and what it does about it, with `enforceTimeoutMutex_` held. */
  datatype Enforcer = Idle | Judged(pending: nat, started: bool, finished: bool)

  /** Handlers are named by the order of their creation, pending calls by an address that may be reused. */
  datatype State = State(
    handlers: seq<Handler>,
    calls: map<nat, nat>,           // calls that libdbus may still complete
    notified: multiset<nat>,        // onLibdbusPendingCall entered
    replying: multiset<nat>,        // ... about to reply or replying
    skipped: multiset<nat>,         // ... not replying, because the timeout came first
    replied: multiset<nat>,         // ... before its last section
    timeoutMap: map<nat, nat>,
    infinite: set<nat>,             // timeoutInfiniteAsyncHandlers_
    enforcer: Enforcer,
    mainloopTimeouts: multiset<nat>,
    batch: multiset<nat>,           // the main loop's copy of that list
    batchReplied: multiset<nat>,    // ... replied to and not yet deleted
    toDelete: multiset<nat>,        // asyncHandlersToDelete_
    deleting: multiset<nat>,        // copies of that vector in deleteAsyncHandlers
    queue: multiset<nat>,           // replies pushed to the main loop
    lost: multiset<nat>,            // dropped without being deleted
    closed: bool)

  const INIT := State([], map[], multiset{}, multiset{}, multiset{}, multiset{}, map[], {}, Idle,
                      multiset{}, multiset{}, multiset{}, multiset{}, multiset{}, multiset{}, multiset{}, false)

  function New(origin: Origin, hasToBeDeleted: bool): Handler
  {
    Handler(origin, false, false, false, hasToBeDeleted, 0, 0)
  }

  function Replied(a: Handler): Handler { a.(replies := a.replies + 1) }
  function Deleted(a: Handler): Handler { a.(deletes := a.deletes + 1) }

  function With(s: State, h: nat, a: Handler): State
    requires h < |s.handlers|
  {
    s.(handlers := s.handlers[h := a])
  }

  predicate Known(s: State, h: nat)
  {
    h < |s.handlers|
  }

  /** Callbacks of `onLibdbusPendingCall` that are under way for a handler. */
  function Running(s: State, h: nat): nat
  {
    s.notified[h] + s.replying[h] + s.skipped[h] + s.replied[h]
  }

  /** No call uses the address: none is open, and no callback of an earlier one is still running. */
  ghost predicate Unused(s: State, p: nat)
  {
    && p !in s.calls
    && forall h | 0 <= h < |s.handlers| && s.handlers[h].origin == Call(p) :: Running(s, h) == 0
  }

  // ----- the steps: what must hold for each to be taken, and what it does -----

  /** libdbus completes an open call and enters `onLibdbusPendingCall`. */
  ghost predicate CanNotify(s: State, p: nat)
  {
    p in s.calls && Known(s, s.calls[p]) && !s.closed
  }

  ghost function Notify(s: State, p: nat): State
    requires CanNotify(s, p)
  {
    s.(calls := s.calls - {p}, notified := s.notified + multiset{s.calls[p]})
  }

  /** `MsgReplyQueueEntry::process`, which drops the reply when the connection no longer dispatches. */
  ghost predicate CanProcessQueue(s: State, h: nat, accepted: bool)
  {
    h in s.queue && Known(s, h) && (accepted ==> !s.closed)
  }

  ghost function ProcessQueue(s: State, h: nat, accepted: bool): State
    requires CanProcessQueue(s, h, accepted)
  {
    var t := s.(queue := s.queue - multiset{h});
    if accepted then t.(notified := s.notified + multiset{h}) else t.(lost := s.lost + multiset{h})
  }

  /** `MsgReplyQueueEntry::clear` */
  ghost predicate CanClearQueue(s: State, h: nat)
  {
    h in s.queue && Known(s, h)
  }

  ghost function ClearQueue(s: State, h: nat): State
    requires CanClearQueue(s, h)
  {
    With(s, h, Deleted(s.handlers[h])).(queue := s.queue - multiset{h})
  }

  /** The first section of `onLibdbusPendingCall`: the timeout is asked for and the execution marked as started. */
  ghost predicate CanBegin(s: State, h: nat)
  {
    !s.closed && h in s.notified && Known(s, h)
  }

  ghost function Begin(s: State, h: nat): State
    requires CanBegin(s, h)
  {
    var a := s.handlers[h];
    var t := With(s, h, a.(executionStarted := true)).(notified := s.notified - multiset{h});
    if !a.timeoutOccurred then t.(replying := s.replying + multiset{h}) else t.(skipped := s.skipped + multiset{h})
  }

  /** `onDBusMessageReply` has run. */
  ghost predicate CanReply(s: State, h: nat)
  {
    h in s.replying && Known(s, h)
  }

  ghost function Reply(s: State, h: nat): State
    requires CanReply(s, h)
  {
    With(s, h, Replied(s.handlers[h])).(replying := s.replying - multiset{h}, replied := s.replied + multiset{h})
  }

  /** The last section of `onLibdbusPendingCall` after a reply. */
  ghost predicate CanEndReplied(s: State, h: nat)
  {
    h in s.replied && Known(s, h)
  }

  ghost function EndReplied(s: State, h: nat): State
    requires CanEndReplied(s, h)
  {
    var a := s.handlers[h];
    var b := if a.origin.Call? then a.(executionFinished := true) else a;
    With(s, h, if a.hasToBeDeleted then Deleted(b) else b).(replied := s.replied - multiset{h})
  }

  /** The last section of `onLibdbusPendingCall` without a reply. */
  ghost predicate CanEndSkipped(s: State, h: nat)
  {
    h in s.skipped && Known(s, h)
  }

  ghost function EndSkipped(s: State, h: nat): State
    requires CanEndSkipped(s, h)
  {
    var a := s.handlers[h];
    With(s, h, if a.hasToBeDeleted then Deleted(a) else a).(skipped := s.skipped - multiset{h})
  }

  /** The enforcer looks at an expired entry; a call that has not completed is cancelled. */
  ghost predicate CanJudge(s: State, p: nat, cancel: bool)
  {
    s.enforcer.Idle? && p in s.timeoutMap && Known(s, s.timeoutMap[p])
  }

  ghost function Judge(s: State, p: nat, cancel: bool): State
    requires CanJudge(s, p, cancel)
  {
    var h := s.timeoutMap[p];
    var a := s.handlers[h];
    var t := s.(enforcer := Judged(p, a.executionStarted, a.executionFinished));
    if a.executionStarted || a.executionFinished then t
    else With(t, h, a.(timeoutOccurred := true)).(calls := if cancel then s.calls - {p} else s.calls)
  }

  /** The enforcer acts on what it saw; the entry stays while the reply is running. */
  ghost predicate CanSettle(s: State, context: bool)
  {
    s.enforcer.Judged? && s.enforcer.pending in s.timeoutMap && Known(s, s.timeoutMap[s.enforcer.pending])
  }

  ghost function Settle(s: State, context: bool): State
    requires CanSettle(s, context)
  {
    var h := s.timeoutMap[s.enforcer.pending];
    var rest := s.(timeoutMap := s.timeoutMap - {s.enforcer.pending}, enforcer := Idle);
    if s.enforcer.started && !s.enforcer.finished then s.(enforcer := Idle)
    else if s.enforcer.finished then rest.(toDelete := s.toDelete + multiset{h})
    else if context then rest.(mainloopTimeouts := s.mainloopTimeouts + multiset{h})
    else rest.(lost := s.lost + multiset{h})
  }

  /** The enforcer looks at an entry that has not expired. */
  ghost predicate CanCollect(s: State, p: nat)
  {
    s.enforcer.Idle? && p in s.timeoutMap && Known(s, s.timeoutMap[p])
  }

  ghost function Collect(s: State, p: nat): State
    requires CanCollect(s, p)
  {
    var h := s.timeoutMap[p];
    if s.handlers[h].executionFinished then
      s.(timeoutMap := s.timeoutMap - {p}, toDelete := s.toDelete + multiset{h})
    else s
  }

  /** The enforcer looks at a handler without a timeout. */
  ghost predicate CanCollectInfinite(s: State, h: nat)
  {
    h in s.infinite && Known(s, h)
  }

  ghost function CollectInfinite(s: State, h: nat): State
    requires CanCollectInfinite(s, h)
  {
    if s.handlers[h].executionFinished then
      s.(infinite := s.infinite - {h}, toDelete := s.toDelete + multiset{h})
    else s
  }

  /** `singleDispatch` reports a timeout. */
  ghost predicate CanMainReply(s: State, h: nat)
  {
    h in s.batch && Known(s, h)
  }

  ghost function MainReply(s: State, h: nat): State
    requires CanMainReply(s, h)
  {
    With(s, h, Replied(s.handlers[h])).(batch := s.batch - multiset{h}, batchReplied := s.batchReplied + multiset{h})
  }

  /** `singleDispatch` deletes the handler. */
  ghost predicate CanMainDelete(s: State, h: nat)
  {
    h in s.batchReplied && Known(s, h)
  }

  ghost function MainDelete(s: State, h: nat): State
    requires CanMainDelete(s, h)
  {
    With(s, h, Deleted(s.handlers[h])).(batchReplied := s.batchReplied - multiset{h})
  }

  /** `deleteAsyncHandlers` deletes one handler of its copy. */
  ghost predicate CanDelete(s: State, h: nat)
  {
    h in s.deleting && Known(s, h)
  }

  ghost function Delete(s: State, h: nat): State
    requires CanDelete(s, h)
  {
    With(s, h, Deleted(s.handlers[h])).(deleting := s.deleting - multiset{h})
  }

  /** The cancelled enforcer drops an entry; a handler that is replying is left to its callback. */
  ghost predicate CanDropMapped(s: State, p: nat)
  {
    s.closed && s.enforcer.Idle? && p in s.timeoutMap && Known(s, s.timeoutMap[p])
  }

  ghost function DropMapped(s: State, p: nat): State
    requires CanDropMapped(s, p)
  {
    var h := s.timeoutMap[p];
    var a := s.handlers[h];
    var t := s.(timeoutMap := s.timeoutMap - {p});
    if a.executionStarted && !a.executionFinished then With(t, h, a.(hasToBeDeleted := true))
    else t.(toDelete := s.toDelete + multiset{h})
  }

  /** ... and a handler without a timeout. */
  ghost predicate CanDropInfinite(s: State, h: nat)
  {
    s.closed && s.enforcer.Idle? && h in s.infinite && Known(s, h)
  }

  ghost function DropInfinite(s: State, h: nat): State
    requires CanDropInfinite(s, h)
  {
    var a := s.handlers[h];
    var t := s.(infinite := s.infinite - {h});
    if a.executionStarted && !a.executionFinished then With(t, h, a.(hasToBeDeleted := true))
    else t.(toDelete := s.toDelete + multiset{h})
  }

  /** A new call has the address of an entry that is still there: the entry goes and its handler is deleted. */
  ghost predicate CanReplace(s: State, p: nat)
  {
    CanSend(s, p) && p in s.timeoutMap && Known(s, s.timeoutMap[p])
  }

  ghost function Replace(s: State, p: nat): State
    requires CanReplace(s, p)
  {
    var h := s.timeoutMap[p];
    With(s.(timeoutMap := s.timeoutMap - {p}), h, Deleted(s.handlers[h]))
  }

  /** `sendDBusMessageWithReplyAsync`, with or without a timeout. */
  ghost predicate CanSend(s: State, p: nat)
  {
    !s.closed && s.enforcer.Idle? && Unused(s, p)
  }

  ghost function Insert(s: State, p: nat): State
  {
    var n := |s.handlers|;
    s.(handlers := s.handlers + [New(Call(p), false)], calls := s.calls[p := n], timeoutMap := s.timeoutMap[p := n])
  }

  ghost function Send(s: State, p: nat): State
    requires CanSend(s, p)
  {
    if CanReplace(s, p) then Insert(Replace(s, p), p) else Insert(s, p)
  }

  ghost predicate CanSendInfinite(s: State, p: nat)
  {
    !s.closed && Unused(s, p)
  }

  ghost function SendInfinite(s: State, p: nat): State
  {
    var n := |s.handlers|;
    s.(handlers := s.handlers + [New(Call(p), false)], calls := s.calls[p := n], infinite := s.infinite + {n})
  }

  /** A call that could not be sent is answered by the main loop. */
  ghost function SendFailed(s: State): State
  {
    var n := |s.handlers|;
    s.(handlers := s.handlers + [New(Failed, false)], mainloopTimeouts := s.mainloopTimeouts + multiset{n})
  }

  /** `pushDBusMessageReplyToMainLoop` */
  ghost function PushReply(s: State): State
  {
    var n := |s.handlers|;
    s.(handlers := s.handlers + [New(Queued, true)], queue := s.queue + multiset{n})
  }

  /** `singleDispatch` copies the list and clears it. */
  ghost function TakeTimeouts(s: State): State
  {
    s.(mainloopTimeouts := multiset{}, batch := s.batch + s.mainloopTimeouts)
  }

  /** `deleteAsyncHandlers` copies the vector and clears it. */
  ghost function TakeDeletes(s: State): State
  {
    s.(toDelete := multiset{}, deleting := s.deleting + s.toDelete)
  }

  /** The connection is closed, after which libdbus starts no callback. */
  ghost function Close(s: State): State
  {
    s.(closed := true)
  }

  // ----- the invariant -----

  /** All that the state holds about one handler, as numbers of occurrences. */
  datatype View = View(
    a: Handler, open: nat, notified: nat, replying: nat, skipped: nat, replied: nat, mapped: nat, infinite: nat,
    timingOut: nat, judgedFinished: nat, mainloopTimeouts: nat, batch: nat, batchReplied: nat, toDelete: nat,
    deleting: nat, queue: nat,
    lost: nat, closed: bool)
  {
    /** Callbacks of `onLibdbusPendingCall` that are under way. */
    function Running(): nat { notified + replying + skipped + replied }

    function Waiting(): nat { mapped + infinite }

    /** The lists and callbacks that will delete the handler, and the deletions that have been made. */
    function Owners(): nat
    {
      Waiting() + (if a.hasToBeDeleted then Running() else 0) + queue + mainloopTimeouts + batch + batchReplied
      + toDelete + deleting + lost + a.deletes
    }

    /** The replies that have been made and those that will be. */
    function Replies(): nat
    {
      a.replies + replying + timingOut + mainloopTimeouts + batch
      + (if a.timeoutOccurred || closed then 0 else open + notified + queue)
    }

    predicate Sound()
    {
      && Owners() == 1
      && Replies() + lost + (if a.deletes > 0 && a.replies == 0 then 1 else 0) <= 1
      && open + queue + Running() <= 1
      && (a.executionFinished ==> a.executionStarted && a.replies == 1 && open + Running() == 0)
      && (a.executionStarted ==> open + notified + queue == 0)
      && (replying + replied > 0 ==> a.executionStarted && !a.timeoutOccurred && !a.executionFinished)
      && (replying + replied > 0 ==> Waiting() == 1 || a.hasToBeDeleted)
      && (replied + batchReplied > 0 ==> a.replies == 1)
      && (skipped > 0 ==> a.timeoutOccurred && !a.hasToBeDeleted)
      && (Waiting() == 1 && a.timeoutOccurred ==> timingOut == 1)
      && (timingOut > 0 ==> a.timeoutOccurred && mapped == 1)
      && (Waiting() == 1 && !a.executionStarted ==> a.replies == 0)
      && (Waiting() == 1 ==> !a.hasToBeDeleted && a.origin.Call?)
      && (Waiting() == 1 && a.executionStarted && !a.executionFinished && !a.timeoutOccurred ==> replying + replied == 1)
      && (Waiting() == 1 && !a.executionStarted && !a.timeoutOccurred ==> open + notified == 1)
      && (open + notified > 0 && !a.timeoutOccurred && !closed && a.origin.Call? ==> Waiting() == 1)
      && (toDelete + deleting > 0 ==> a.replies == 1 || closed)
      && (a.deletes > 0 ==> a.replies == 1 || closed || a.origin == Queued)
      && (a.origin == Queued ==> a.hasToBeDeleted && !a.timeoutOccurred)
      && (a.hasToBeDeleted && a.origin != Queued ==> closed)
      && (judgedFinished > 0 ==> a.executionFinished)
      && (queue > 0 ==> a.origin == Queued && a.replies == 0)
      && (a.origin == Failed ==> Running() == 0)
    }
  }

  function Look(s: State, h: nat): View
    requires Known(s, h)
  {
    var a := s.handlers[h];
    var mapped := One(a.origin.Call? && a.origin.pending in s.timeoutMap && s.timeoutMap[a.origin.pending] == h);
    View(a,
         One(a.origin.Call? && a.origin.pending in s.calls && s.calls[a.origin.pending] == h),
         s.notified[h], s.replying[h], s.skipped[h], s.replied[h],
         mapped, One(h in s.infinite),
         One(mapped == 1 && s.enforcer.Judged? && s.enforcer.pending == a.origin.pending
             && !s.enforcer.started && !s.enforcer.finished),
         One(mapped == 1 && s.enforcer.Judged? && s.enforcer.pending == a.origin.pending && s.enforcer.finished),
         s.mainloopTimeouts[h], s.batch[h], s.batchReplied[h], s.toDelete[h], s.deleting[h], s.queue[h], s.lost[h],
         s.closed)
  }

  ghost predicate Named(s: State)
  {
    && (forall p | p in s.calls :: Known(s, s.calls[p]) && s.handlers[s.calls[p]].origin == Call(p))
    && (forall p | p in s.timeoutMap :: Known(s, s.timeoutMap[p]) && s.handlers[s.timeoutMap[p]].origin == Call(p))
    && (s.enforcer.Judged? ==> s.enforcer.pending in s.timeoutMap)
    && (forall h: nat | h >= |s.handlers| :: Absent(s, h))
  }

  predicate Absent(s: State, h: nat)
  {
    && Running(s, h) == 0 && h !in s.infinite
    && s.queue[h] + s.mainloopTimeouts[h] + s.batch[h] + s.batchReplied[h] + s.toDelete[h] + s.deleting[h] + s.lost[h] == 0
  }

  /** While a call is open, no callback runs for an earlier call that had the same address. */
  ghost predicate Exclusive(s: State)
  {
    forall p, h | p in s.calls && 0 <= h < |s.handlers| && s.handlers[h].origin == Call(p) && h != s.calls[p] ::
      Running(s, h) == 0
  }

  ghost predicate AllSound(s: State)
  {
    forall h | 0 <= h < |s.handlers| :: Look(s, h).Sound()
  }

  ghost predicate Invariant(s: State)
  {
    Named(s) && Exclusive(s) && AllSound(s)
  }

  // ----- one handler moves -----

  /** Handler `h` becomes `w`; all others stay. */
  ghost predicate Moves(s: State, t: State, h: nat, w: View)
  {
    && Known(s, h) && |t.handlers| == |s.handlers| && Look(t, h) == w
    && forall k | 0 <= k < |s.handlers| && k != h :: Look(t, k) == Look(s, k)
  }

  lemma MovesKeeps(s: State, t: State, h: nat, w: View)
    requires AllSound(s) && Moves(s, t, h, w) && w.Sound()
    ensures AllSound(t)
  {
    hide View.Sound, Look;
    forall k | 0 <= k < |t.handlers| ensures Look(t, k).Sound() {
      assert Look(s, k).Sound();
    }
  }

  lemma LookSound(s: State, h: nat)
    requires AllSound(s) && Known(s, h)
    ensures Look(s, h).Sound()
  {
    hide View.Sound, Look;
  }

  lemma QueuedHere(s: State, h: nat)
    requires Known(s, h) && h in s.queue && Look(s, h).Sound()
    ensures s.handlers[h].origin == Queued
  {
  }

  /** Names stay right when calls and entries only go. */
  ghost predicate Narrows(s: State, t: State)
  {
    && |t.handlers| == |s.handlers|
    && (forall h | 0 <= h < |s.handlers| :: t.handlers[h].origin == s.handlers[h].origin)
    && (forall p | p in t.calls :: p in s.calls && t.calls[p] == s.calls[p])
    && (forall p | p in t.timeoutMap :: p in s.timeoutMap && t.timeoutMap[p] == s.timeoutMap[p])
    && (t.enforcer.Judged? ==> t.enforcer.pending in t.timeoutMap)
    && (forall j: nat | j >= |s.handlers| :: Absent(s, j) ==> Absent(t, j))
    && (forall h | 0 <= h < |s.handlers| && s.handlers[h].origin.Call? ::
          Running(t, h) <= Running(s, h) || s.handlers[h].origin.pending !in t.calls)
  }

  lemma NarrowsKeeps(s: State, t: State)
    requires Named(s) && Exclusive(s) && Narrows(s, t)
    ensures Named(t) && Exclusive(t)
  {
    hide Absent;
    forall p, h | p in t.calls && 0 <= h < |t.handlers| && t.handlers[h].origin == Call(p) && h != t.calls[p]
      ensures Running(t, h) == 0
    {
      assert s.handlers[h].origin == Call(p) && Running(s, h) == 0;
    }
  }

  function MoveNotify(v: View): View
    requires v.open == 1 && v.a.origin.Call? && !v.closed
  {
    v.(open := 0, notified := v.notified + 1)
  }

  lemma NotifyIsSound(v: View)
    requires v.Sound() && v.open == 1 && v.a.origin.Call? && !v.closed
    ensures MoveNotify(v).Sound()
  {
  }

  lemma NotifyMoves(s: State, p: nat)
    requires Named(s) && Exclusive(s) && CanNotify(s, p) && Look(s, s.calls[p]).Sound()
    ensures var v := Look(s, s.calls[p]);
            (v.open == 1 && v.a.origin.Call? && !v.closed) && Moves(s, Notify(s, p), s.calls[p], MoveNotify(v))
  {
    hide View.Sound, Exclusive;
  }

  lemma NotifyNarrows(s: State, p: nat)
    requires Named(s) && CanNotify(s, p) && Look(s, s.calls[p]).Sound()
    ensures Narrows(s, Notify(s, p))
  {
    hide View.Sound, Look;
    var t := Notify(s, p);
    forall h | 0 <= h < |s.handlers| && s.handlers[h].origin.Call?
      ensures Running(t, h) <= Running(s, h) || s.handlers[h].origin.pending !in t.calls
    {
      assert h == s.calls[p] || t.notified[h] == s.notified[h];
    }
  }

  lemma NotifyKeeps(s: State, p: nat)
    requires Invariant(s) && CanNotify(s, p)
    ensures Invariant(Notify(s, p))
  {
    hide View.Sound, Look, Moves, Narrows, Named, Exclusive, MoveNotify, Notify;
    var h := s.calls[p];
    LookSound(s, h);
    NotifyMoves(s, p);
    NotifyIsSound(Look(s, h));
    MovesKeeps(s, Notify(s, p), h, MoveNotify(Look(s, h)));
    NotifyNarrows(s, p);
    NarrowsKeeps(s, Notify(s, p));
  }

  function MoveProcessQueue(v: View, accepted: bool): View
    requires v.queue > 0 && (accepted ==> !v.closed)
  {
    if accepted then v.(queue := v.queue - 1, notified := v.notified + 1) else v.(queue := v.queue - 1, lost := v.lost + 1)
  }

  lemma ProcessQueueIsSound(v: View, accepted: bool)
    requires v.Sound() && v.queue > 0 && (accepted ==> !v.closed)
    ensures MoveProcessQueue(v, accepted).Sound()
  {
  }

  lemma ProcessQueueStays(s: State, h: nat, accepted: bool)
    requires CanProcessQueue(s, h, accepted)
    ensures forall k | 0 <= k < |s.handlers| && k != h :: Look(ProcessQueue(s, h, accepted), k) == Look(s, k)
  {
    if accepted {
    } else {
    }
  }

  lemma ProcessQueueMoves(s: State, h: nat, accepted: bool)
    requires Named(s) && Exclusive(s) && CanProcessQueue(s, h, accepted) && Look(s, h).Sound()
    ensures var v := Look(s, h);
            (v.queue > 0 && (accepted ==> !v.closed))
                && Moves(s, ProcessQueue(s, h, accepted), h, MoveProcessQueue(v, accepted))
  {
    hide View.Sound, Exclusive, Named;
    ProcessQueueStays(s, h, accepted);
    if accepted {
    } else {
    }
  }

  lemma ProcessQueueNarrows(s: State, h: nat, accepted: bool)
    requires Named(s) && CanProcessQueue(s, h, accepted) && Look(s, h).Sound()
    ensures Narrows(s, ProcessQueue(s, h, accepted))
  {
    hide View.Sound, Look;
    QueuedHere(s, h);
  }

  lemma ProcessQueueKeeps(s: State, h: nat, accepted: bool)
    requires Invariant(s) && CanProcessQueue(s, h, accepted)
    ensures Invariant(ProcessQueue(s, h, accepted))
  {
    hide View.Sound, Look, Moves, Narrows, Named, Exclusive, MoveProcessQueue, ProcessQueue;
    LookSound(s, h);
    ProcessQueueMoves(s, h, accepted);
    ProcessQueueIsSound(Look(s, h), accepted);
    MovesKeeps(s, ProcessQueue(s, h, accepted), h, MoveProcessQueue(Look(s, h), accepted));
    ProcessQueueNarrows(s, h, accepted);
    NarrowsKeeps(s, ProcessQueue(s, h, accepted));
  }

  function MoveClearQueue(v: View): View
    requires v.queue > 0
  {
    v.(a := Deleted(v.a), queue := v.queue - 1)
  }

  lemma ClearQueueIsSound(v: View)
    requires v.Sound() && v.queue > 0
    ensures MoveClearQueue(v).Sound()
  {
  }

  lemma ClearQueueStays(s: State, h: nat, k: nat)
    requires CanClearQueue(s, h) && Known(s, k) && k != h
    ensures Look(ClearQueue(s, h), k) == Look(s, k)
  {
  }

  lemma ClearQueueMoves(s: State, h: nat)
    requires Named(s) && Exclusive(s) && CanClearQueue(s, h) && Look(s, h).Sound()
    ensures var v := Look(s, h);
            (v.queue > 0) && Moves(s, ClearQueue(s, h), h, MoveClearQueue(v))
  {
    hide View.Sound, Exclusive, Named;
    forall k | 0 <= k < |s.handlers| && k != h ensures Look(ClearQueue(s, h), k) == Look(s, k) {
      ClearQueueStays(s, h, k);
    }
  }

  lemma ClearQueueNarrows(s: State, h: nat)
    requires Named(s) && CanClearQueue(s, h) && Look(s, h).Sound()
    ensures Narrows(s, ClearQueue(s, h))
  {
    hide View.Sound, Look;
  }

  lemma ClearQueueKeeps(s: State, h: nat)
    requires Invariant(s) && CanClearQueue(s, h)
    ensures Invariant(ClearQueue(s, h))
  {
    hide View.Sound, Look, Moves, Narrows, Named, Exclusive, MoveClearQueue, ClearQueue;
    LookSound(s, h);
    ClearQueueMoves(s, h);
    ClearQueueIsSound(Look(s, h));
    MovesKeeps(s, ClearQueue(s, h), h, MoveClearQueue(Look(s, h)));
    ClearQueueNarrows(s, h);
    NarrowsKeeps(s, ClearQueue(s, h));
  }

  function MoveBegin(v: View): View
    requires v.notified > 0 && !v.closed
  {
    var w := v.(a := v.a.(executionStarted := true), notified := v.notified - 1);
    if v.a.timeoutOccurred then w.(skipped := v.skipped + 1) else w.(replying := v.replying + 1)
  }

  lemma BeginIsSound(v: View)
    requires v.Sound() && v.notified > 0 && !v.closed
    ensures MoveBegin(v).Sound()
  {
  }

  lemma BeginStays(s: State, h: nat)
    requires CanBegin(s, h)
    ensures forall k | 0 <= k < |s.handlers| && k != h :: Look(Begin(s, h), k) == Look(s, k)
  {
    if s.handlers[h].timeoutOccurred {
    } else {
    }
  }

  lemma BeginMoves(s: State, h: nat)
    requires Named(s) && Exclusive(s) && CanBegin(s, h) && Look(s, h).Sound()
    ensures var v := Look(s, h);
            (v.notified > 0 && !v.closed) && Moves(s, Begin(s, h), h, MoveBegin(v))
  {
    hide View.Sound, Exclusive, Named;
    BeginStays(s, h);
    if s.handlers[h].timeoutOccurred {
    } else {
    }
  }

  lemma BeginKeepsNames(s: State, h: nat)
    requires CanBegin(s, h)
    ensures var t := Begin(s, h);
            && t.calls == s.calls && t.timeoutMap == s.timeoutMap && t.enforcer == s.enforcer
            && |t.handlers| == |s.handlers|
  {
  }

  lemma BeginKeepsOrigin(s: State, h: nat, k: nat)
    requires CanBegin(s, h) && Known(s, k)
    ensures var t := Begin(s, h); Known(t, k) && t.handlers[k].origin == s.handlers[k].origin
  {
  }

  lemma BeginKeepsRunning(s: State, h: nat, k: nat)
    requires CanBegin(s, h)
    ensures Running(Begin(s, h), k) == Running(s, k)
  {
    if s.handlers[h].timeoutOccurred {
    } else {
    }
  }

  lemma BeginKeepsAbsent(s: State, h: nat, j: nat)
    requires CanBegin(s, h) && j >= |s.handlers| && Absent(s, j)
    ensures Absent(Begin(s, h), j)
  {
  }

  lemma BeginNarrows(s: State, h: nat)
    requires Named(s) && CanBegin(s, h) && Look(s, h).Sound()
    ensures Narrows(s, Begin(s, h))
  {
    hide View.Sound, Look, Absent, Begin, Running;
    BeginKeepsNames(s, h);
    forall k | 0 <= k < |s.handlers|
      ensures var t := Begin(s, h);
              Known(t, k) && t.handlers[k].origin == s.handlers[k].origin && Running(t, k) <= Running(s, k)
    {
      BeginKeepsOrigin(s, h, k);
      BeginKeepsRunning(s, h, k);
    }
    forall j: nat | j >= |s.handlers| && Absent(s, j) ensures Absent(Begin(s, h), j) {
      BeginKeepsAbsent(s, h, j);
    }
  }

  lemma BeginKeeps(s: State, h: nat)
    requires Invariant(s) && CanBegin(s, h)
    ensures Invariant(Begin(s, h))
  {
    hide View.Sound, Look, Moves, Narrows, Named, Exclusive, MoveBegin, Begin;
    LookSound(s, h);
    BeginMoves(s, h);
    BeginIsSound(Look(s, h));
    MovesKeeps(s, Begin(s, h), h, MoveBegin(Look(s, h)));
    BeginNarrows(s, h);
    NarrowsKeeps(s, Begin(s, h));
  }

  function MoveReply(v: View): View
    requires v.replying > 0
  {
    v.(a := Replied(v.a), replying := v.replying - 1, replied := v.replied + 1)
  }

  lemma ReplyIsSound(v: View)
    requires v.Sound() && v.replying > 0
    ensures MoveReply(v).Sound()
  {
  }

  lemma ReplyStays(s: State, h: nat, k: nat)
    requires CanReply(s, h) && Known(s, k) && k != h
    ensures Look(Reply(s, h), k) == Look(s, k)
  {
  }

  lemma ReplyMoves(s: State, h: nat)
    requires Named(s) && Exclusive(s) && CanReply(s, h) && Look(s, h).Sound()
    ensures var v := Look(s, h);
            (v.replying > 0) && Moves(s, Reply(s, h), h, MoveReply(v))
  {
    hide View.Sound, Exclusive, Named;
    forall k | 0 <= k < |s.handlers| && k != h ensures Look(Reply(s, h), k) == Look(s, k) {
      ReplyStays(s, h, k);
    }
  }

  lemma ReplyNarrows(s: State, h: nat)
    requires Named(s) && CanReply(s, h) && Look(s, h).Sound()
    ensures Narrows(s, Reply(s, h))
  {
    hide View.Sound, Look;
    var t := Reply(s, h);
    forall k | 0 <= k < |s.handlers|
      ensures Running(t, k) <= Running(s, k) && t.handlers[k].origin == s.handlers[k].origin
    {
    }
    forall j: nat | j >= |s.handlers| && Absent(s, j) ensures Absent(t, j) {
    }
  }

  lemma ReplyKeeps(s: State, h: nat)
    requires Invariant(s) && CanReply(s, h)
    ensures Invariant(Reply(s, h))
  {
    hide View.Sound, Look, Moves, Narrows, Named, Exclusive, MoveReply, Reply;
    LookSound(s, h);
    ReplyMoves(s, h);
    ReplyIsSound(Look(s, h));
    MovesKeeps(s, Reply(s, h), h, MoveReply(Look(s, h)));
    ReplyNarrows(s, h);
    NarrowsKeeps(s, Reply(s, h));
  }

  function MoveEndReplied(v: View): View
    requires v.replied > 0
  {
    var b := if v.a.origin.Call? then v.a.(executionFinished := true) else v.a;
    v.(a := if v.a.hasToBeDeleted then Deleted(b) else b, replied := v.replied - 1)
  }

  lemma EndRepliedIsSound(v: View)
    requires v.Sound() && v.replied > 0
    ensures MoveEndReplied(v).Sound()
  {
  }

  lemma EndRepliedStays(s: State, h: nat, k: nat)
    requires CanEndReplied(s, h) && Known(s, k) && k != h
    ensures Look(EndReplied(s, h), k) == Look(s, k)
  {
  }

  lemma EndRepliedMoves(s: State, h: nat)
    requires Named(s) && Exclusive(s) && CanEndReplied(s, h) && Look(s, h).Sound()
    ensures var v := Look(s, h);
            (v.replied > 0) && Moves(s, EndReplied(s, h), h, MoveEndReplied(v))
  {
    hide View.Sound, Exclusive, Named;
    forall k | 0 <= k < |s.handlers| && k != h ensures Look(EndReplied(s, h), k) == Look(s, k) {
      EndRepliedStays(s, h, k);
    }
  }

  lemma EndRepliedNarrows(s: State, h: nat)
    requires Named(s) && CanEndReplied(s, h) && Look(s, h).Sound()
    ensures Narrows(s, EndReplied(s, h))
  {
    hide View.Sound, Look;
    var t := EndReplied(s, h);
    forall k | 0 <= k < |s.handlers|
      ensures Running(t, k) <= Running(s, k) && t.handlers[k].origin == s.handlers[k].origin
    {
    }
    forall j: nat | j >= |s.handlers| && Absent(s, j) ensures Absent(t, j) {
    }
  }

  lemma EndRepliedKeeps(s: State, h: nat)
    requires Invariant(s) && CanEndReplied(s, h)
    ensures Invariant(EndReplied(s, h))
  {
    hide View.Sound, Look, Moves, Narrows, Named, Exclusive, MoveEndReplied, EndReplied;
    LookSound(s, h);
    EndRepliedMoves(s, h);
    EndRepliedIsSound(Look(s, h));
    MovesKeeps(s, EndReplied(s, h), h, MoveEndReplied(Look(s, h)));
    EndRepliedNarrows(s, h);
    NarrowsKeeps(s, EndReplied(s, h));
  }

  function MoveEndSkipped(v: View): View
    requires v.skipped > 0
  {
    v.(a := if v.a.hasToBeDeleted then Deleted(v.a) else v.a, skipped := v.skipped - 1)
  }

  lemma EndSkippedIsSound(v: View)
    requires v.Sound() && v.skipped > 0
    ensures MoveEndSkipped(v).Sound()
  {
  }

  lemma EndSkippedStays(s: State, h: nat, k: nat)
    requires CanEndSkipped(s, h) && Known(s, k) && k != h
    ensures Look(EndSkipped(s, h), k) == Look(s, k)
  {
  }

  lemma EndSkippedMoves(s: State, h: nat)
    requires Named(s) && Exclusive(s) && CanEndSkipped(s, h) && Look(s, h).Sound()
    ensures var v := Look(s, h);
            (v.skipped > 0) && Moves(s, EndSkipped(s, h), h, MoveEndSkipped(v))
  {
    hide View.Sound, Exclusive, Named;
    forall k | 0 <= k < |s.handlers| && k != h ensures Look(EndSkipped(s, h), k) == Look(s, k) {
      EndSkippedStays(s, h, k);
    }
  }

  lemma EndSkippedNarrows(s: State, h: nat)
    requires Named(s) && CanEndSkipped(s, h) && Look(s, h).Sound()
    ensures Narrows(s, EndSkipped(s, h))
  {
    hide View.Sound, Look;
    var t := EndSkipped(s, h);
    forall k | 0 <= k < |s.handlers|
      ensures Running(t, k) <= Running(s, k) && t.handlers[k].origin == s.handlers[k].origin
    {
    }
    forall j: nat | j >= |s.handlers| && Absent(s, j) ensures Absent(t, j) {
    }
  }

  lemma EndSkippedKeeps(s: State, h: nat)
    requires Invariant(s) && CanEndSkipped(s, h)
    ensures Invariant(EndSkipped(s, h))
  {
    hide View.Sound, Look, Moves, Narrows, Named, Exclusive, MoveEndSkipped, EndSkipped;
    LookSound(s, h);
    EndSkippedMoves(s, h);
    EndSkippedIsSound(Look(s, h));
    MovesKeeps(s, EndSkipped(s, h), h, MoveEndSkipped(Look(s, h)));
    EndSkippedNarrows(s, h);
    NarrowsKeeps(s, EndSkipped(s, h));
  }

  function MoveJudge(v: View, cancel: bool): View
    requires v.mapped == 1 && v.timingOut == 0
  {
    if v.a.executionFinished then v.(judgedFinished := 1)
    else if v.a.executionStarted then v
    else v.(a := v.a.(timeoutOccurred := true), timingOut := 1, open := if cancel then 0 else v.open)
  }

  lemma JudgeIsSound(v: View, cancel: bool)
    requires v.Sound() && v.mapped == 1 && v.timingOut == 0
    ensures MoveJudge(v, cancel).Sound()
  {
  }

  /** A call that is cancelled is the judged handler's own. */
  lemma JudgeCancelsOwn(s: State, p: nat)
    requires Named(s) && Exclusive(s) && CanJudge(s, p, true) && Look(s, s.timeoutMap[p]).Sound()
    requires var a := s.handlers[s.timeoutMap[p]]; !a.executionStarted && !a.executionFinished
    ensures p in s.calls ==> s.calls[p] == s.timeoutMap[p]
  {
    hide Absent;
  }

  lemma JudgeStays(s: State, p: nat, cancel: bool, k: nat)
    requires CanJudge(s, p, cancel) && Known(s, k) && k != s.timeoutMap[p]
    requires var a := s.handlers[s.timeoutMap[p]];
             !a.executionStarted && !a.executionFinished && p in s.calls ==> s.calls[p] == s.timeoutMap[p]
    ensures Look(Judge(s, p, cancel), k) == Look(s, k)
  {
  }

  lemma JudgeMoves(s: State, p: nat, cancel: bool)
    requires Named(s) && Exclusive(s) && CanJudge(s, p, cancel) && Look(s, s.timeoutMap[p]).Sound()
    ensures var v := Look(s, s.timeoutMap[p]);
            (v.mapped == 1 && v.timingOut == 0) && Moves(s, Judge(s, p, cancel), s.timeoutMap[p], MoveJudge(v, cancel))
  {
    hide Look, View.Sound, Exclusive, MoveJudge, Absent;
    var h, t := s.timeoutMap[p], Judge(s, p, cancel);
    var a := s.handlers[h];
    if !a.executionStarted && !a.executionFinished {
      JudgeCancelsOwn(s, p);
    }
    forall k | 0 <= k < |s.handlers| && k != h ensures Look(t, k) == Look(s, k) {
      JudgeStays(s, p, cancel, k);
    }
    JudgeItself(s, p, cancel);
  }

  lemma JudgeItself(s: State, p: nat, cancel: bool)
    requires Named(s) && CanJudge(s, p, cancel)
    requires var a := s.handlers[s.timeoutMap[p]];
             !a.executionStarted && !a.executionFinished && p in s.calls ==> s.calls[p] == s.timeoutMap[p]
    ensures var v := Look(s, s.timeoutMap[p]);
            (v.mapped == 1 && v.timingOut == 0) && Look(Judge(s, p, cancel), s.timeoutMap[p]) == MoveJudge(v, cancel)
  {
    hide Absent, View.Sound;
  }

  lemma JudgeNarrows(s: State, p: nat, cancel: bool)
    requires Named(s) && CanJudge(s, p, cancel) && Look(s, s.timeoutMap[p]).Sound()
    ensures Narrows(s, Judge(s, p, cancel))
  {
    hide View.Sound, Look, Named;
    var t := Judge(s, p, cancel);
    forall j: nat | j >= |s.handlers| && Absent(s, j) ensures Absent(t, j) {
    }
  }

  lemma JudgeKeeps(s: State, p: nat, cancel: bool)
    requires Invariant(s) && CanJudge(s, p, cancel)
    ensures Invariant(Judge(s, p, cancel))
  {
    hide View.Sound, Look, Moves, Narrows, Named, Exclusive, MoveJudge, Judge;
    var h := s.timeoutMap[p];
    LookSound(s, h);
    JudgeMoves(s, p, cancel);
    JudgeIsSound(Look(s, h), cancel);
    MovesKeeps(s, Judge(s, p, cancel), h, MoveJudge(Look(s, h), cancel));
    JudgeNarrows(s, p, cancel);
    NarrowsKeeps(s, Judge(s, p, cancel));
  }

  function MoveSettle(v: View, context: bool): View
    requires v.mapped == 1
  {
    if v.judgedFinished > 0 then v.(mapped := 0, judgedFinished := 0, toDelete := v.toDelete + 1)
    else if v.timingOut == 0 then v
    else if context then v.(mapped := 0, timingOut := 0, mainloopTimeouts := v.mainloopTimeouts + 1)
    else v.(mapped := 0, timingOut := 0, lost := v.lost + 1)
  }

  lemma SettleIsSound(v: View, context: bool)
    requires v.Sound() && v.mapped == 1
    ensures MoveSettle(v, context).Sound()
  {
  }

  lemma SettleStays(s: State, context: bool, k: nat)
    requires CanSettle(s, context) && Known(s, k) && k != s.timeoutMap[s.enforcer.pending]
    ensures Look(Settle(s, context), k) == Look(s, k)
  {
  }

  lemma SettleItself(s: State, context: bool)
    requires CanSettle(s, context) && s.handlers[s.timeoutMap[s.enforcer.pending]].origin == Call(s.enforcer.pending)
    ensures var v := Look(s, s.timeoutMap[s.enforcer.pending]);
            v.mapped == 1 && Look(Settle(s, context), s.timeoutMap[s.enforcer.pending]) == MoveSettle(v, context)
  {
    hide View.Sound;
    if s.enforcer.finished {
    } else if s.enforcer.started {
    } else if context {
    }
  }

  lemma SettleMoves(s: State, context: bool)
    requires Named(s) && Exclusive(s) && CanSettle(s, context) && Look(s, s.timeoutMap[s.enforcer.pending]).Sound()
    ensures var v := Look(s, s.timeoutMap[s.enforcer.pending]);
            (v.mapped == 1) && Moves(s, Settle(s, context), s.timeoutMap[s.enforcer.pending], MoveSettle(v, context))
  {
    hide View.Sound, Exclusive, Absent, Look, MoveSettle;
    var t := Settle(s, context);
    forall k | 0 <= k < |s.handlers| && k != s.timeoutMap[s.enforcer.pending] ensures Look(t, k) == Look(s, k) {
      SettleStays(s, context, k);
    }
    SettleItself(s, context);
  }

  lemma SettleKeepsAbsent(s: State, context: bool, j: nat)
    requires CanSettle(s, context) && j >= |s.handlers| && Absent(s, j)
    ensures Absent(Settle(s, context), j)
  {
  }

  lemma SettleNarrows(s: State, context: bool)
    requires Named(s) && CanSettle(s, context) && Look(s, s.timeoutMap[s.enforcer.pending]).Sound()
    ensures Narrows(s, Settle(s, context))
  {
    hide View.Sound, Look, Named, Absent;
    var t := Settle(s, context);
    forall j: nat | j >= |s.handlers| && Absent(s, j) ensures Absent(t, j) {
      SettleKeepsAbsent(s, context, j);
    }
  }

  lemma SettleKeeps(s: State, context: bool)
    requires Invariant(s) && CanSettle(s, context)
    ensures Invariant(Settle(s, context))
  {
    hide View.Sound, Look, Moves, Narrows, Named, Exclusive, MoveSettle, Settle;
    var h := s.timeoutMap[s.enforcer.pending];
    LookSound(s, h);
    SettleMoves(s, context);
    SettleIsSound(Look(s, h), context);
    MovesKeeps(s, Settle(s, context), h, MoveSettle(Look(s, h), context));
    SettleNarrows(s, context);
    NarrowsKeeps(s, Settle(s, context));
  }

  function MoveCollect(v: View): View
    requires v.mapped == 1 && v.timingOut == 0 && v.judgedFinished == 0
  {
    if v.a.executionFinished then v.(mapped := 0, toDelete := v.toDelete + 1) else v
  }

  lemma CollectIsSound(v: View)
    requires v.Sound() && v.mapped == 1 && v.timingOut == 0 && v.judgedFinished == 0
    ensures MoveCollect(v).Sound()
  {
  }

  lemma CollectMoves(s: State, p: nat)
    requires Named(s) && Exclusive(s) && CanCollect(s, p) && Look(s, s.timeoutMap[p]).Sound()
    ensures var v := Look(s, s.timeoutMap[p]);
            (v.mapped == 1 && v.timingOut == 0 && v.judgedFinished == 0)
                && Moves(s, Collect(s, p), s.timeoutMap[p], MoveCollect(v))
  {
    hide View.Sound, Exclusive;
  }

  lemma CollectNarrows(s: State, p: nat)
    requires Named(s) && CanCollect(s, p) && Look(s, s.timeoutMap[p]).Sound()
    ensures Narrows(s, Collect(s, p))
  {
    hide View.Sound, Look;
  }

  lemma CollectKeeps(s: State, p: nat)
    requires Invariant(s) && CanCollect(s, p)
    ensures Invariant(Collect(s, p))
  {
    hide View.Sound, Look, Moves, Narrows, Named, Exclusive, MoveCollect, Collect;
    var h := s.timeoutMap[p];
    LookSound(s, h);
    CollectMoves(s, p);
    CollectIsSound(Look(s, h));
    MovesKeeps(s, Collect(s, p), h, MoveCollect(Look(s, h)));
    CollectNarrows(s, p);
    NarrowsKeeps(s, Collect(s, p));
  }

  function MoveCollectInfinite(v: View): View
    requires v.infinite == 1
  {
    if v.a.executionFinished then v.(infinite := 0, toDelete := v.toDelete + 1) else v
  }

  lemma CollectInfiniteIsSound(v: View)
    requires v.Sound() && v.infinite == 1
    ensures MoveCollectInfinite(v).Sound()
  {
  }

  lemma CollectInfiniteMoves(s: State, h: nat)
    requires Named(s) && Exclusive(s) && CanCollectInfinite(s, h) && Look(s, h).Sound()
    ensures var v := Look(s, h);
            (v.infinite == 1) && Moves(s, CollectInfinite(s, h), h, MoveCollectInfinite(v))
  {
    hide View.Sound, Exclusive, Named;
  }

  lemma CollectInfiniteNarrows(s: State, h: nat)
    requires Named(s) && CanCollectInfinite(s, h) && Look(s, h).Sound()
    ensures Narrows(s, CollectInfinite(s, h))
  {
    hide View.Sound, Look;
  }

  lemma CollectInfiniteKeeps(s: State, h: nat)
    requires Invariant(s) && CanCollectInfinite(s, h)
    ensures Invariant(CollectInfinite(s, h))
  {
    hide View.Sound, Look, Moves, Narrows, Named, Exclusive, MoveCollectInfinite, CollectInfinite;
    LookSound(s, h);
    CollectInfiniteMoves(s, h);
    CollectInfiniteIsSound(Look(s, h));
    MovesKeeps(s, CollectInfinite(s, h), h, MoveCollectInfinite(Look(s, h)));
    CollectInfiniteNarrows(s, h);
    NarrowsKeeps(s, CollectInfinite(s, h));
  }

  function MoveMainReply(v: View): View
    requires v.batch > 0
  {
    v.(a := Replied(v.a), batch := v.batch - 1, batchReplied := v.batchReplied + 1)
  }

  lemma MainReplyIsSound(v: View)
    requires v.Sound() && v.batch > 0
    ensures MoveMainReply(v).Sound()
  {
  }

  lemma MainReplyStays(s: State, h: nat, k: nat)
    requires CanMainReply(s, h) && Known(s, k) && k != h
    ensures Look(MainReply(s, h), k) == Look(s, k)
  {
  }

  lemma MainReplyMoves(s: State, h: nat)
    requires Named(s) && Exclusive(s) && CanMainReply(s, h) && Look(s, h).Sound()
    ensures var v := Look(s, h);
            (v.batch > 0) && Moves(s, MainReply(s, h), h, MoveMainReply(v))
  {
    hide View.Sound, Exclusive, Named;
    forall k | 0 <= k < |s.handlers| && k != h ensures Look(MainReply(s, h), k) == Look(s, k) {
      MainReplyStays(s, h, k);
    }
  }

  lemma MainReplyNarrows(s: State, h: nat)
    requires Named(s) && CanMainReply(s, h) && Look(s, h).Sound()
    ensures Narrows(s, MainReply(s, h))
  {
    hide View.Sound, Look;
  }

  lemma MainReplyKeeps(s: State, h: nat)
    requires Invariant(s) && CanMainReply(s, h)
    ensures Invariant(MainReply(s, h))
  {
    hide View.Sound, Look, Moves, Narrows, Named, Exclusive, MoveMainReply, MainReply;
    LookSound(s, h);
    MainReplyMoves(s, h);
    MainReplyIsSound(Look(s, h));
    MovesKeeps(s, MainReply(s, h), h, MoveMainReply(Look(s, h)));
    MainReplyNarrows(s, h);
    NarrowsKeeps(s, MainReply(s, h));
  }

  function MoveMainDelete(v: View): View
    requires v.batchReplied > 0
  {
    v.(a := Deleted(v.a), batchReplied := v.batchReplied - 1)
  }

  lemma MainDeleteIsSound(v: View)
    requires v.Sound() && v.batchReplied > 0
    ensures MoveMainDelete(v).Sound()
  {
  }

  lemma MainDeleteStays(s: State, h: nat, k: nat)
    requires CanMainDelete(s, h) && Known(s, k) && k != h
    ensures Look(MainDelete(s, h), k) == Look(s, k)
  {
  }

  lemma MainDeleteMoves(s: State, h: nat)
    requires Named(s) && Exclusive(s) && CanMainDelete(s, h) && Look(s, h).Sound()
    ensures var v := Look(s, h);
            (v.batchReplied > 0) && Moves(s, MainDelete(s, h), h, MoveMainDelete(v))
  {
    hide View.Sound, Exclusive, Named;
    forall k | 0 <= k < |s.handlers| && k != h ensures Look(MainDelete(s, h), k) == Look(s, k) {
      MainDeleteStays(s, h, k);
    }
  }

  lemma MainDeleteNarrows(s: State, h: nat)
    requires Named(s) && CanMainDelete(s, h) && Look(s, h).Sound()
    ensures Narrows(s, MainDelete(s, h))
  {
    hide View.Sound, Look;
  }

  lemma MainDeleteKeeps(s: State, h: nat)
    requires Invariant(s) && CanMainDelete(s, h)
    ensures Invariant(MainDelete(s, h))
  {
    hide View.Sound, Look, Moves, Narrows, Named, Exclusive, MoveMainDelete, MainDelete;
    LookSound(s, h);
    MainDeleteMoves(s, h);
    MainDeleteIsSound(Look(s, h));
    MovesKeeps(s, MainDelete(s, h), h, MoveMainDelete(Look(s, h)));
    MainDeleteNarrows(s, h);
    NarrowsKeeps(s, MainDelete(s, h));
  }

  function MoveDelete(v: View): View
    requires v.deleting > 0
  {
    v.(a := Deleted(v.a), deleting := v.deleting - 1)
  }

  lemma DeleteIsSound(v: View)
    requires v.Sound() && v.deleting > 0
    ensures MoveDelete(v).Sound()
  {
  }

  lemma DeleteStays(s: State, h: nat, k: nat)
    requires CanDelete(s, h) && Known(s, k) && k != h
    ensures Look(Delete(s, h), k) == Look(s, k)
  {
  }

  lemma DeleteMoves(s: State, h: nat)
    requires Named(s) && Exclusive(s) && CanDelete(s, h) && Look(s, h).Sound()
    ensures var v := Look(s, h);
            (v.deleting > 0) && Moves(s, Delete(s, h), h, MoveDelete(v))
  {
    hide View.Sound, Exclusive, Named;
    forall k | 0 <= k < |s.handlers| && k != h ensures Look(Delete(s, h), k) == Look(s, k) {
      DeleteStays(s, h, k);
    }
  }

  lemma DeleteNarrows(s: State, h: nat)
    requires Named(s) && CanDelete(s, h) && Look(s, h).Sound()
    ensures Narrows(s, Delete(s, h))
  {
    hide View.Sound, Look;
  }

  lemma DeleteKeeps(s: State, h: nat)
    requires Invariant(s) && CanDelete(s, h)
    ensures Invariant(Delete(s, h))
  {
    hide View.Sound, Look, Moves, Narrows, Named, Exclusive, MoveDelete, Delete;
    LookSound(s, h);
    DeleteMoves(s, h);
    DeleteIsSound(Look(s, h));
    MovesKeeps(s, Delete(s, h), h, MoveDelete(Look(s, h)));
    DeleteNarrows(s, h);
    NarrowsKeeps(s, Delete(s, h));
  }

  function MoveDropMapped(v: View): View
    requires v.mapped == 1 && v.timingOut == 0 && v.judgedFinished == 0 && v.closed
  {
    if v.a.executionStarted && !v.a.executionFinished then v.(a := v.a.(hasToBeDeleted := true), mapped := 0)
    else v.(mapped := 0, toDelete := v.toDelete + 1)
  }

  lemma DropMappedIsSound(v: View)
    requires v.Sound() && v.mapped == 1 && v.timingOut == 0 && v.judgedFinished == 0 && v.closed
    ensures MoveDropMapped(v).Sound()
  {
  }

  lemma DropMappedStays(s: State, p: nat, k: nat)
    requires CanDropMapped(s, p) && Known(s, k) && k != s.timeoutMap[p]
    ensures Look(DropMapped(s, p), k) == Look(s, k)
  {
  }

  lemma DropMappedItself(s: State, p: nat)
    requires CanDropMapped(s, p) && s.handlers[s.timeoutMap[p]].origin == Call(p)
    ensures var v := Look(s, s.timeoutMap[p]);
            (v.mapped == 1 && v.timingOut == 0 && v.judgedFinished == 0 && v.closed)
                && Look(DropMapped(s, p), s.timeoutMap[p]) == MoveDropMapped(v)
  {
    hide View.Sound;
  }

  lemma DropMappedMoves(s: State, p: nat)
    requires Named(s) && Exclusive(s) && CanDropMapped(s, p) && Look(s, s.timeoutMap[p]).Sound()
    ensures var v := Look(s, s.timeoutMap[p]);
            (v.mapped == 1 && v.timingOut == 0 && v.judgedFinished == 0 && v.closed)
                && Moves(s, DropMapped(s, p), s.timeoutMap[p], MoveDropMapped(v))
  {
    hide View.Sound, Exclusive, Look, Absent, MoveDropMapped;
    forall k | 0 <= k < |s.handlers| && k != s.timeoutMap[p] ensures Look(DropMapped(s, p), k) == Look(s, k) {
      DropMappedStays(s, p, k);
    }
    DropMappedItself(s, p);
  }

  lemma DropMappedNarrows(s: State, p: nat)
    requires Named(s) && CanDropMapped(s, p) && Look(s, s.timeoutMap[p]).Sound()
    ensures Narrows(s, DropMapped(s, p))
  {
    hide View.Sound, Look, Named;
    var t := DropMapped(s, p);
    forall k | 0 <= k < |s.handlers|
      ensures Running(t, k) <= Running(s, k) && t.handlers[k].origin == s.handlers[k].origin
    {
    }
    forall j: nat | j >= |s.handlers| && Absent(s, j) ensures Absent(t, j) {
    }
  }

  lemma DropMappedKeeps(s: State, p: nat)
    requires Invariant(s) && CanDropMapped(s, p)
    ensures Invariant(DropMapped(s, p))
  {
    hide View.Sound, Look, Moves, Narrows, Named, Exclusive, MoveDropMapped, DropMapped;
    var h := s.timeoutMap[p];
    LookSound(s, h);
    DropMappedMoves(s, p);
    DropMappedIsSound(Look(s, h));
    MovesKeeps(s, DropMapped(s, p), h, MoveDropMapped(Look(s, h)));
    DropMappedNarrows(s, p);
    NarrowsKeeps(s, DropMapped(s, p));
  }

  function MoveDropInfinite(v: View): View
    requires v.infinite == 1 && v.closed
  {
    if v.a.executionStarted && !v.a.executionFinished then v.(a := v.a.(hasToBeDeleted := true), infinite := 0)
    else v.(infinite := 0, toDelete := v.toDelete + 1)
  }

  lemma DropInfiniteIsSound(v: View)
    requires v.Sound() && v.infinite == 1 && v.closed
    ensures MoveDropInfinite(v).Sound()
  {
  }

  lemma DropInfiniteStays(s: State, h: nat, k: nat)
    requires CanDropInfinite(s, h) && Known(s, k) && k != h
    ensures Look(DropInfinite(s, h), k) == Look(s, k)
  {
  }

  lemma DropInfiniteMoves(s: State, h: nat)
    requires Named(s) && Exclusive(s) && CanDropInfinite(s, h) && Look(s, h).Sound()
    ensures var v := Look(s, h);
            (v.infinite == 1 && v.closed) && Moves(s, DropInfinite(s, h), h, MoveDropInfinite(v))
  {
    hide View.Sound, Exclusive, Named;
    forall k | 0 <= k < |s.handlers| && k != h ensures Look(DropInfinite(s, h), k) == Look(s, k) {
      DropInfiniteStays(s, h, k);
    }
  }

  lemma DropInfiniteNarrows(s: State, h: nat)
    requires Named(s) && CanDropInfinite(s, h) && Look(s, h).Sound()
    ensures Narrows(s, DropInfinite(s, h))
  {
    hide View.Sound, Look, Named;
    var t := DropInfinite(s, h);
    forall k | 0 <= k < |s.handlers|
      ensures Running(t, k) <= Running(s, k) && t.handlers[k].origin == s.handlers[k].origin
    {
    }
    forall j: nat | j >= |s.handlers| && Absent(s, j) ensures Absent(t, j) {
    }
  }

  lemma DropInfiniteKeeps(s: State, h: nat)
    requires Invariant(s) && CanDropInfinite(s, h)
    ensures Invariant(DropInfinite(s, h))
  {
    hide View.Sound, Look, Moves, Narrows, Named, Exclusive, MoveDropInfinite, DropInfinite;
    LookSound(s, h);
    DropInfiniteMoves(s, h);
    DropInfiniteIsSound(Look(s, h));
    MovesKeeps(s, DropInfinite(s, h), h, MoveDropInfinite(Look(s, h)));
    DropInfiniteNarrows(s, h);
    NarrowsKeeps(s, DropInfinite(s, h));
  }

  function MoveReplace(v: View): View
    requires v.mapped == 1 && v.timingOut == 0 && v.judgedFinished == 0 && v.open + v.Running() == 0 && !v.closed
  {
    v.(a := Deleted(v.a), mapped := 0)
  }

  lemma ReplaceIsSound(v: View)
    requires v.Sound() && v.mapped == 1 && v.timingOut == 0 && v.judgedFinished == 0 && v.open + v.Running() == 0
        && !v.closed
    ensures MoveReplace(v).Sound()
  {
  }

  lemma ReplaceMoves(s: State, p: nat)
    requires Named(s) && Exclusive(s) && CanReplace(s, p) && Look(s, s.timeoutMap[p]).Sound()
    ensures var v := Look(s, s.timeoutMap[p]);
            (v.mapped == 1 && v.timingOut == 0 && v.judgedFinished == 0 && v.open + v.Running() == 0 && !v.closed)
                && Moves(s, Replace(s, p), s.timeoutMap[p], MoveReplace(v))
  {
    hide View.Sound, Exclusive;
  }

  lemma ReplaceNarrows(s: State, p: nat)
    requires Named(s) && CanReplace(s, p) && Look(s, s.timeoutMap[p]).Sound()
    ensures Narrows(s, Replace(s, p))
  {
    hide View.Sound, Look;
  }

  lemma ReplaceKeeps(s: State, p: nat)
    requires Invariant(s) && CanReplace(s, p)
    ensures Invariant(Replace(s, p))
  {
    hide View.Sound, Look, Moves, Narrows, Named, Exclusive, MoveReplace, Replace;
    var h := s.timeoutMap[p];
    LookSound(s, h);
    ReplaceMoves(s, p);
    ReplaceIsSound(Look(s, h));
    MovesKeeps(s, Replace(s, p), h, MoveReplace(Look(s, h)));
    ReplaceNarrows(s, p);
    NarrowsKeeps(s, Replace(s, p));
  }

  // ----- new handlers -----

  /** A handler is added; all others stay. */
  ghost predicate Grows(s: State, t: State)
  {
    && |t.handlers| == |s.handlers| + 1 && Look(t, |s.handlers|).Sound()
    && forall k | 0 <= k < |s.handlers| :: Look(t, k) == Look(s, k)
  }

  lemma GrowsKeeps(s: State, t: State)
    requires AllSound(s) && Grows(s, t)
    ensures AllSound(t)
  {
    hide View.Sound, Look;
    forall k | 0 <= k < |t.handlers| ensures Look(t, k).Sound() {
      if k < |s.handlers| {
        assert Look(s, k).Sound();
      }
    }
  }

  lemma UnknownIsAbsent(s: State)
    requires Named(s)
    ensures Absent(s, |s.handlers|)
  {
    hide Absent;
  }

  lemma InsertKeeps(s: State, p: nat)
    requires Invariant(s) && !s.closed && s.enforcer.Idle? && Unused(s, p) && p !in s.timeoutMap
    ensures Invariant(Insert(s, p))
  {
    hide Named, Exclusive, AllSound, Grows;
    InsertGrows(s, p);
    GrowsKeeps(s, Insert(s, p));
    InsertNames(s, p);
    UnknownIsAbsent(s);
    InsertExcludes(s, p);
  }

  lemma InsertNames(s: State, p: nat)
    requires Named(s) && s.enforcer.Idle?
    ensures Named(Insert(s, p))
  {
    hide Running, Absent;
    var t := Insert(s, p);
    forall h: nat | h >= |t.handlers| ensures Absent(t, h) {
      InsertKeepsAbsent(s, p, h);
    }
  }

  lemma InsertExcludes(s: State, p: nat)
    requires Exclusive(s) && Unused(s, p) && Absent(s, |s.handlers|)
    ensures Exclusive(Insert(s, p))
  {
    hide Running;
    var t := Insert(s, p);
    forall q, h | q in t.calls && 0 <= h < |t.handlers| && t.handlers[h].origin == Call(q) && h != t.calls[q]
      ensures Running(t, h) == 0
    {
      InsertKeepsRunning(s, p, h);
    }
  }

  lemma InsertKeepsAbsent(s: State, p: nat, h: nat)
    requires h > |s.handlers| && Absent(s, h)
    ensures Absent(Insert(s, p), h)
  {
  }

  lemma InsertKeepsRunning(s: State, p: nat, h: nat)
    ensures Running(Insert(s, p), h) == Running(s, h)
  {
  }

  lemma InsertStays(s: State, p: nat, k: nat)
    requires Known(s, k) && p !in s.calls && p !in s.timeoutMap
    ensures Look(Insert(s, p), k) == Look(s, k)
  {
  }

  lemma InsertGrows(s: State, p: nat)
    requires Named(s) && !s.closed && s.enforcer.Idle? && Unused(s, p) && p !in s.timeoutMap
    ensures Grows(s, Insert(s, p))
  {
    assert Absent(s, |s.handlers|);
    forall k | 0 <= k < |s.handlers| ensures Look(Insert(s, p), k) == Look(s, k) {
      InsertStays(s, p, k);
    }
  }

  lemma ReplaceFrees(s: State, p: nat)
    requires CanReplace(s, p)
    ensures var t := Replace(s, p); Unused(t, p) && p !in t.timeoutMap && !t.closed && t.enforcer.Idle?
  {
    var t := Replace(s, p);
    forall h | 0 <= h < |t.handlers| && t.handlers[h].origin == Call(p) ensures Running(t, h) == 0 {
      assert s.handlers[h].origin == Call(p);
    }
  }

  lemma SendKeeps(s: State, p: nat)
    requires Invariant(s) && CanSend(s, p)
    ensures Invariant(Send(s, p))
  {
    hide AllSound, Exclusive, Insert, Replace, Unused;
    if CanReplace(s, p) {
      ReplaceKeeps(s, p);
      ReplaceFrees(s, p);
      InsertKeeps(Replace(s, p), p);
    } else {
      InsertKeeps(s, p);
    }
  }

  lemma SendInfiniteKeeps(s: State, p: nat)
    requires Invariant(s) && CanSendInfinite(s, p)
    ensures Invariant(SendInfinite(s, p))
  {
    hide Named, Exclusive, AllSound, Grows;
    SendInfiniteGrows(s, p);
    GrowsKeeps(s, SendInfinite(s, p));
    SendInfiniteNames(s, p);
    UnknownIsAbsent(s);
    SendInfiniteExcludes(s, p);
  }

  lemma SendInfiniteNames(s: State, p: nat)
    requires Named(s)
    ensures Named(SendInfinite(s, p))
  {
    hide Running, Absent;
    var t := SendInfinite(s, p);
    forall h: nat | h >= |t.handlers| ensures Absent(t, h) {
      SendInfiniteKeepsAbsent(s, p, h);
    }
  }

  lemma SendInfiniteExcludes(s: State, p: nat)
    requires Exclusive(s) && Unused(s, p) && Absent(s, |s.handlers|)
    ensures Exclusive(SendInfinite(s, p))
  {
    hide Running;
    var t := SendInfinite(s, p);
    forall q, h | q in t.calls && 0 <= h < |t.handlers| && t.handlers[h].origin == Call(q) && h != t.calls[q]
      ensures Running(t, h) == 0
    {
      SendInfiniteKeepsRunning(s, p, h);
    }
  }

  lemma SendInfiniteKeepsAbsent(s: State, p: nat, h: nat)
    requires h > |s.handlers| && Absent(s, h)
    ensures Absent(SendInfinite(s, p), h)
  {
  }

  lemma SendInfiniteKeepsRunning(s: State, p: nat, h: nat)
    ensures Running(SendInfinite(s, p), h) == Running(s, h)
  {
  }

  lemma SendInfiniteStays(s: State, p: nat, k: nat)
    requires Known(s, k) && p !in s.calls
    ensures Look(SendInfinite(s, p), k) == Look(s, k)
  {
  }

  lemma SendInfiniteIsSound(s: State, p: nat)
    requires Absent(s, |s.handlers|) && !s.closed && (p in s.timeoutMap ==> Known(s, s.timeoutMap[p]))
    ensures Look(SendInfinite(s, p), |s.handlers|).Sound()
  {
  }

  lemma SendInfiniteGrows(s: State, p: nat)
    requires Named(s) && CanSendInfinite(s, p)
    ensures Grows(s, SendInfinite(s, p))
  {
    hide Look, View.Sound;
    SendInfiniteIsSound(s, p);
    forall k | 0 <= k < |s.handlers| ensures Look(SendInfinite(s, p), k) == Look(s, k) {
      SendInfiniteStays(s, p, k);
    }
  }

  lemma SendFailedKeeps(s: State)
    requires Invariant(s)
    ensures Invariant(SendFailed(s))
  {
    hide AllSound;
    var t := SendFailed(s);
    SendFailedGrows(s);
    GrowsKeeps(s, t);
    assert Absent(s, |s.handlers|);
    assert forall j: nat | j >= |t.handlers| :: Absent(s, j) ==> Absent(t, j);
  }

  lemma SendFailedGrows(s: State)
    requires Named(s)
    ensures Grows(s, SendFailed(s))
  {
    assert Absent(s, |s.handlers|);
  }

  lemma PushReplyKeeps(s: State)
    requires Invariant(s)
    ensures Invariant(PushReply(s))
  {
    hide AllSound, Look, View.Sound, Grows;
    var t := PushReply(s);
    PushReplyGrows(s);
    GrowsKeeps(s, t);
    assert Absent(s, |s.handlers|);
    assert forall j: nat | j >= |t.handlers| :: Absent(s, j) ==> Absent(t, j);
  }

  lemma PushReplyStays(s: State, k: nat)
    requires Known(s, k)
    ensures Look(PushReply(s), k) == Look(s, k)
  {
  }

  lemma PushReplyIsSound(s: State)
    requires Absent(s, |s.handlers|)
    ensures Look(PushReply(s), |s.handlers|).Sound()
  {
    hide View.Sound;
    NewReplyIsSound(Look(PushReply(s), |s.handlers|));
  }

  lemma NewReplyIsSound(v: View)
    requires v.a == New(Queued, true) && v.queue == 1 && v.Waiting() + v.Running() == 0
    requires v.open == 0 && v.timingOut == 0 && v.judgedFinished == 0
    requires v.mainloopTimeouts + v.batch + v.batchReplied + v.toDelete + v.deleting + v.lost == 0
    ensures v.Sound()
  {
  }

  lemma PushReplyGrows(s: State)
    requires Named(s)
    ensures Grows(s, PushReply(s))
  {
    hide Look, View.Sound;
    PushReplyIsSound(s);
    forall k | 0 <= k < |s.handlers| ensures Look(PushReply(s), k) == Look(s, k) {
      PushReplyStays(s, k);
    }
  }

  // ----- steps that move every handler -----

  lemma TakeTimeoutsKeeps(s: State)
    requires Invariant(s)
    ensures Invariant(TakeTimeouts(s))
  {
    hide View.Sound, Look;
    var t := TakeTimeouts(s);
    forall k | 0 <= k < |t.handlers| ensures Look(t, k).Sound() {
      TakenTimeoutsSound(s, k);
    }
    NarrowsKeeps(s, t);
  }

  lemma TakenTimeoutsSound(s: State, k: nat)
    requires Known(s, k) && Look(s, k).Sound()
    ensures Look(TakeTimeouts(s), k).Sound()
  {
    var v := Look(s, k);
    assert Look(TakeTimeouts(s), k) == v.(mainloopTimeouts := 0, batch := v.batch + v.mainloopTimeouts);
  }

  lemma TakeDeletesKeeps(s: State)
    requires Invariant(s)
    ensures Invariant(TakeDeletes(s))
  {
    hide View.Sound, Look;
    var t := TakeDeletes(s);
    forall k | 0 <= k < |t.handlers| ensures Look(t, k).Sound() {
      TakenDeletesSound(s, k);
    }
    NarrowsKeeps(s, t);
  }

  lemma TakenDeletesSound(s: State, k: nat)
    requires Known(s, k) && Look(s, k).Sound()
    ensures Look(TakeDeletes(s), k).Sound()
  {
    var v := Look(s, k);
    assert Look(TakeDeletes(s), k) == v.(toDelete := 0, deleting := v.deleting + v.toDelete);
  }

  lemma CloseKeeps(s: State)
    requires Invariant(s)
    ensures Invariant(Close(s))
  {
    hide View.Sound, Look;
    var t := Close(s);
    forall k | 0 <= k < |t.handlers| ensures Look(t, k).Sound() {
      ClosedSound(s, k);
    }
    NarrowsKeeps(s, t);
  }

  lemma ClosedSound(s: State, k: nat)
    requires Known(s, k) && Look(s, k).Sound()
    ensures Look(Close(s), k).Sound()
  {
    assert Look(Close(s), k) == Look(s, k).(closed := true);
  }

  // ----- runs -----

  datatype Step =
    | DoSend(p: nat)
    | DoSendInfinite(p: nat)
    | DoSendFailed
    | DoPushReply
    | DoTakeTimeouts
    | DoTakeDeletes
    | DoClose
    | DoNotify(p: nat)
    | DoProcessQueue(h: nat, accepted: bool)
    | DoClearQueue(h: nat)
    | DoBegin(h: nat)
    | DoReply(h: nat)
    | DoEndReplied(h: nat)
    | DoEndSkipped(h: nat)
    | DoJudge(p: nat, cancel: bool)
    | DoSettle(context: bool)
    | DoCollect(p: nat)
    | DoCollectInfinite(h: nat)
    | DoMainReply(h: nat)
    | DoMainDelete(h: nat)
    | DoDelete(h: nat)
    | DoDropMapped(p: nat)
    | DoDropInfinite(h: nat)

  ghost predicate Can(s: State, step: Step)
  {
    match step
    case DoSend(p) => CanSend(s, p)
    case DoSendInfinite(p) => CanSendInfinite(s, p)
    case DoNotify(p) => CanNotify(s, p)
    case DoProcessQueue(h, accepted) => CanProcessQueue(s, h, accepted)
    case DoClearQueue(h) => CanClearQueue(s, h)
    case DoBegin(h) => CanBegin(s, h)
    case DoReply(h) => CanReply(s, h)
    case DoEndReplied(h) => CanEndReplied(s, h)
    case DoEndSkipped(h) => CanEndSkipped(s, h)
    case DoJudge(p, cancel) => CanJudge(s, p, cancel)
    case DoSettle(context) => CanSettle(s, context)
    case DoCollect(p) => CanCollect(s, p)
    case DoCollectInfinite(h) => CanCollectInfinite(s, h)
    case DoMainReply(h) => CanMainReply(s, h)
    case DoMainDelete(h) => CanMainDelete(s, h)
    case DoDelete(h) => CanDelete(s, h)
    case DoDropMapped(p) => CanDropMapped(s, p)
    case DoDropInfinite(h) => CanDropInfinite(s, h)
    case _ => true
  }

  ghost function Do(s: State, step: Step): State
    requires Can(s, step)
  {
    hide Unused;
    match step
    case DoSend(p) => Send(s, p)
    case DoSendInfinite(p) => SendInfinite(s, p)
    case DoSendFailed => SendFailed(s)
    case DoPushReply => PushReply(s)
    case DoTakeTimeouts => TakeTimeouts(s)
    case DoTakeDeletes => TakeDeletes(s)
    case DoClose => Close(s)
    case DoNotify(p) => Notify(s, p)
    case DoProcessQueue(h, accepted) => ProcessQueue(s, h, accepted)
    case DoClearQueue(h) => ClearQueue(s, h)
    case DoBegin(h) => Begin(s, h)
    case DoReply(h) => Reply(s, h)
    case DoEndReplied(h) => EndReplied(s, h)
    case DoEndSkipped(h) => EndSkipped(s, h)
    case DoJudge(p, cancel) => Judge(s, p, cancel)
    case DoSettle(context) => Settle(s, context)
    case DoCollect(p) => Collect(s, p)
    case DoCollectInfinite(h) => CollectInfinite(s, h)
    case DoMainReply(h) => MainReply(s, h)
    case DoMainDelete(h) => MainDelete(s, h)
    case DoDelete(h) => Delete(s, h)
    case DoDropMapped(p) => DropMapped(s, p)
    case DoDropInfinite(h) => DropInfinite(s, h)
  }

  lemma DoKeeps(s: State, step: Step)
    requires Invariant(s) && Can(s, step)
    ensures Invariant(Do(s, step))
  {
    hide Invariant;
    match step
    case DoSend(p) => SendKeeps(s, p);
    case DoSendInfinite(p) => SendInfiniteKeeps(s, p);
    case DoSendFailed => SendFailedKeeps(s);
    case DoPushReply => PushReplyKeeps(s);
    case DoTakeTimeouts => TakeTimeoutsKeeps(s);
    case DoTakeDeletes => TakeDeletesKeeps(s);
    case DoClose => CloseKeeps(s);
    case DoNotify(p) => NotifyKeeps(s, p);
    case DoProcessQueue(h, accepted) => ProcessQueueKeeps(s, h, accepted);
    case DoClearQueue(h) => ClearQueueKeeps(s, h);
    case DoBegin(h) => BeginKeeps(s, h);
    case DoReply(h) => ReplyKeeps(s, h);
    case DoEndReplied(h) => EndRepliedKeeps(s, h);
    case DoEndSkipped(h) => EndSkippedKeeps(s, h);
    case DoJudge(p, cancel) => JudgeKeeps(s, p, cancel);
    case DoSettle(context) => SettleKeeps(s, context);
    case DoCollect(p) => CollectKeeps(s, p);
    case DoCollectInfinite(h) => CollectInfiniteKeeps(s, h);
    case DoMainReply(h) => MainReplyKeeps(s, h);
    case DoMainDelete(h) => MainDeleteKeeps(s, h);
    case DoDelete(h) => DeleteKeeps(s, h);
    case DoDropMapped(p) => DropMappedKeeps(s, p);
    case DoDropInfinite(h) => DropInfiniteKeeps(s, h);
  }

  /** Any interleaving of the threads. */
  ghost predicate Possible(s: State, steps: seq<Step>)
    decreases |steps|
  {
    steps == [] || (Can(s, steps[0]) && Possible(Do(s, steps[0]), steps[1..]))
  }

  ghost function After(s: State, steps: seq<Step>): State
    requires Possible(s, steps)
    decreases |steps|
  {
    if steps == [] then s else After(Do(s, steps[0]), steps[1..])
  }

  lemma {:induction false} AfterKeeps(s: State, steps: seq<Step>)
    requires Invariant(s) && Possible(s, steps)
    ensures Invariant(After(s, steps))
    decreases |steps|
  {
    hide Invariant, Can, Do;
    if steps != [] {
      DoKeeps(s, steps[0]);
      AfterKeeps(Do(s, steps[0]), steps[1..]);
    }
  }

  lemma InitKeeps()
    ensures Invariant(INIT)
  {
  }

  /**
    In every run, every handler is replied to at most once and deleted at most once; until the connection is closed, a
    handler of a call is deleted only after its reply.
   */
  lemma AtMostOnce(steps: seq<Step>, h: nat)
    requires Possible(INIT, steps) && Known(After(INIT, steps), h)
    ensures var s := After(INIT, steps);
            var a := s.handlers[h];
            && a.replies <= 1 && a.deletes <= 1
            && (a.deletes == 1 ==> a.replies == 1 || s.closed || a.origin == Queued)
  {
    hide Possible, Look;
    InitKeeps();
    AfterKeeps(INIT, steps);
    LookSound(After(INIT, steps), h);
    AsLooked(After(INIT, steps), h);
  }

  lemma AsLooked(s: State, h: nat)
    requires Known(s, h)
    ensures var v := Look(s, h); v.a == s.handlers[h] && v.closed == s.closed && v.replying == s.replying[h]
  {
  }

  /** No reply is made to a handler that has been deleted, and none is deleted while its reply is running. */
  lemma RepliesToTheLiving(steps: seq<Step>, h: nat)
    requires Possible(INIT, steps)
    ensures var s := After(INIT, steps);
            (CanReply(s, h) || CanMainReply(s, h) ==> s.handlers[h].deletes == 0)
  {
    hide Possible;
    InitKeeps();
    AfterKeeps(INIT, steps);
    var s := After(INIT, steps);
    if Known(s, h) {
      LookSound(s, h);
    }
  }

  // ----- handlers that are dropped -----

  /** The step drops a handler: without a main loop a timeout is not reported, and a queued reply not delivered. */
  ghost predicate Drops(s: State, step: Step, h: nat)
  {
    match step
    case DoSettle(context) =>
      && !context && CanSettle(s, context) && s.timeoutMap[s.enforcer.pending] == h
      && !s.enforcer.started && !s.enforcer.finished
    case DoProcessQueue(g, accepted) => g == h && !accepted
    case _ => false
  }

  /** Some step of the run drops the handler. */
  ghost predicate Dropped(s: State, steps: seq<Step>, h: nat)
    requires Possible(s, steps)
    decreases |steps|
  {
    steps != [] && (Drops(s, steps[0], h) || Dropped(Do(s, steps[0]), steps[1..], h))
  }

  lemma LostByStep(s: State, step: Step, h: nat)
    requires Can(s, step)
    ensures h in Do(s, step).lost <==> h in s.lost || Drops(s, step, h)
  {
    hide Unused;
    match step
    case DoSettle(_) =>
    case DoProcessQueue(_, _) =>
    case _ => OthersLoseNone(s, step);
  }

  lemma OthersLoseNone(s: State, step: Step)
    requires Can(s, step) && !step.DoSettle? && !step.DoProcessQueue?
    ensures Do(s, step).lost == s.lost
  {
    hide Unused, Settle, ProcessQueue;
  }

  lemma {:induction false} LostIsDropped(s: State, steps: seq<Step>, h: nat)
    requires Possible(s, steps)
    ensures h in After(s, steps).lost <==> h in s.lost || Dropped(s, steps, h)
    decreases |steps|
  {
    hide Can, Do, Drops;
    if steps != [] {
      LostByStep(s, steps[0], h);
      LostIsDropped(Do(s, steps[0]), steps[1..], h);
    }
  }

  /** Nothing of a handler is left anywhere. */
  ghost predicate Done(s: State, h: nat)
    requires Known(s, h)
  {
    !Held(s, h) && Running(s, h) == 0
  }

  /** A map, set or list holds the handler. */
  ghost predicate Held(s: State, h: nat)
  {
    || (exists p | p in s.timeoutMap :: s.timeoutMap[p] == h)
    || h in s.infinite || h in s.mainloopTimeouts || h in s.batch || h in s.batchReplied || h in s.toDelete
    || h in s.deleting || h in s.queue
  }

  lemma HeldIs(s: State, h: nat)
    requires Named(s) && Known(s, h)
    ensures var v := Look(s, h);
            Held(s, h) <==>
              v.Waiting() + v.mainloopTimeouts + v.batch + v.batchReplied + v.toDelete + v.deleting + v.queue > 0
  {
  }

  /**
    A handler that is dropped is never replied to and never deleted; any other one, once nothing of it is left, has been
    deleted once. So a handler is forgotten if and only if some step of the run dropped it.
   */
  lemma NoneIsForgotten(steps: seq<Step>, h: nat)
    requires Possible(INIT, steps) && Known(After(INIT, steps), h)
    ensures var a := After(INIT, steps).handlers[h];
            && (Dropped(INIT, steps, h) ==> a.replies == 0 && a.deletes == 0)
            && (Done(After(INIT, steps), h) ==> (a.deletes == 0 <==> Dropped(INIT, steps, h)))
  {
    hide Possible, After, Dropped, Named, Held, Look;
    InitKeeps();
    AfterKeeps(INIT, steps);
    LostIsDropped(INIT, steps, h);
    FromSound(After(INIT, steps), h);
  }

  lemma FromSound(s: State, h: nat)
    requires Invariant(s) && Known(s, h)
    ensures h in s.lost ==> s.handlers[h].replies == 0 && s.handlers[h].deletes == 0
    ensures Done(s, h) ==> (s.handlers[h].deletes == 0 <==> h in s.lost)
  {
    hide Named, Held;
    LookSound(s, h);
    HeldIs(s, h);
  }

  /** A timeout without a main loop: the handler of the call is forgotten. */
  lemma DroppedRun()
    ensures var steps := [DoSend(0), DoJudge(0, true), DoSettle(false)];
            && Possible(INIT, steps) && Known(After(INIT, steps), 0)
            && Done(After(INIT, steps), 0) && Dropped(INIT, steps, 0)
  {
  }

  // ----- steps that touch a handler -----

  /** The step reads or changes the handler. */
  ghost predicate Touches(s: State, step: Step, h: nat)
  {
    match step
    case DoSend(p) => CanReplace(s, p) && s.timeoutMap[p] == h
    case DoClearQueue(g) => g == h
    case DoBegin(g) => g == h
    case DoReply(g) => g == h
    case DoEndReplied(g) => g == h
    case DoEndSkipped(g) => g == h
    case DoJudge(p, _) => p in s.timeoutMap && s.timeoutMap[p] == h
    case DoCollect(p) => p in s.timeoutMap && s.timeoutMap[p] == h
    case DoCollectInfinite(g) => g == h
    case DoMainReply(g) => g == h
    case DoMainDelete(g) => g == h
    case DoDelete(g) => g == h
    case DoDropMapped(p) => p in s.timeoutMap && s.timeoutMap[p] == h
    case DoDropInfinite(g) => g == h
    case _ => false
  }

  /**
    A step touches a handler that has been deleted if and only if it is the first or the last section of a callback that
    comes after a timeout, and nothing holds the handler any more; unless it was dropped, in which case it still exists.
   */
  lemma TouchesDeleted(steps: seq<Step>, step: Step, h: nat)
    requires Possible(INIT, steps) && Known(After(INIT, steps), h)
    requires Can(After(INIT, steps), step) && Touches(After(INIT, steps), step, h)
    ensures var s := After(INIT, steps);
            s.handlers[h].deletes > 0 <==>
              && (step == DoBegin(h) || step == DoEndSkipped(h))
              && s.handlers[h].timeoutOccurred && !Held(s, h) && !Dropped(INIT, steps, h)
  {
    hide Possible, After, Dropped, Named, Held, Look;
    InitKeeps();
    AfterKeeps(INIT, steps);
    LostIsDropped(INIT, steps, h);
    TouchedBySteps(After(INIT, steps), step, h);
  }

  lemma TouchedBySteps(s: State, step: Step, h: nat)
    requires Invariant(s) && Known(s, h) && Can(s, step) && Touches(s, step, h)
    ensures s.handlers[h].deletes > 0 <==>
              && (step == DoBegin(h) || step == DoEndSkipped(h))
              && s.handlers[h].timeoutOccurred && !Held(s, h) && h !in s.lost
  {
    hide Invariant, Can, Touches, Held;
    if step == DoBegin(h) || step == DoEndSkipped(h) {
      LateCallback(s, step, h);
    } else {
      OwnerTouches(s, step, h);
    }
  }

  /** A callback that is under way does not keep its handler alive. */
  lemma LateCallback(s: State, step: Step, h: nat)
    requires Invariant(s) && Known(s, h) && Can(s, step) && (step == DoBegin(h) || step == DoEndSkipped(h))
    ensures s.handlers[h].deletes > 0 <==> s.handlers[h].timeoutOccurred && !Held(s, h) && h !in s.lost
  {
    hide Named, Held;
    LookSound(s, h);
    HeldIs(s, h);
  }

  /** Any other step is made by who owns the handler. */
  lemma OwnerTouches(s: State, step: Step, h: nat)
    requires Invariant(s) && Known(s, h) && Can(s, step) && Touches(s, step, h)
    requires step != DoBegin(h) && step != DoEndSkipped(h)
    ensures s.handlers[h].deletes == 0
  {
    LookSound(s, h);
    HeldOrReplying(s, step, h);
    HeldIs(s, h);
  }

  lemma HeldOrReplying(s: State, step: Step, h: nat)
    requires Known(s, h) && Can(s, step) && Touches(s, step, h) && step != DoBegin(h) && step != DoEndSkipped(h)
    ensures Held(s, h) || s.replying[h] + s.replied[h] > 0
  {
  }

  /** A reply that comes in while the timeout is being reported begins on a handler that has been deleted. */
  lemma DeletedIsTouched()
    ensures var steps := [DoSend(0), DoNotify(0), DoJudge(0, false), DoSettle(true), DoTakeTimeouts, DoMainReply(0),
                          DoMainDelete(0)];
            && Possible(INIT, steps)
            && var s := After(INIT, steps);
               Known(s, 0) && s.handlers[0].deletes == 1 && Can(s, DoBegin(0)) && Touches(s, DoBegin(0), 0)
  {
    hide Can, Do, After, Possible;
    var a := New(Call(0), false);
    var sent := INIT.(handlers := [a], calls := map[0 := 0], timeoutMap := map[0 := 0]);
    var notified := INIT.(handlers := [a], timeoutMap := map[0 := 0], notified := multiset{0});
    var b := a.(timeoutOccurred := true);
    var judged := notified.(handlers := [b], enforcer := Judged(0, false, false));
    var settled := INIT.(handlers := [b], notified := multiset{0}, mainloopTimeouts := multiset{0});
    var taken := INIT.(handlers := [b], notified := multiset{0}, batch := multiset{0});
    var replied := INIT.(handlers := [Replied(b)], notified := multiset{0}, batchReplied := multiset{0});
    var deleted := INIT.(handlers := [Deleted(Replied(b))], notified := multiset{0});
    LateCall(sent, notified);
    LateTimeout(notified, judged, settled);
    LateCopy(settled, taken);
    LateReport(taken, replied, deleted);
    BeginsLate(deleted);
    Nowhere(deleted);
    Onward(replied, DoMainDelete(0), deleted, []);
    var r1 := [DoMainDelete(0)] + [];
    Onward(taken, DoMainReply(0), replied, r1);
    var r2 := [DoMainReply(0)] + r1;
    Onward(settled, DoTakeTimeouts, taken, r2);
    var r3 := [DoTakeTimeouts] + r2;
    Onward(judged, DoSettle(true), settled, r3);
    var r4 := [DoSettle(true)] + r3;
    Onward(notified, DoJudge(0, false), judged, r4);
    var r5 := [DoJudge(0, false)] + r4;
    Onward(sent, DoNotify(0), notified, r5);
    var r6 := [DoNotify(0)] + r5;
    Onward(INIT, DoSend(0), sent, r6);
    assert [DoSend(0)] + r6
        == [DoSend(0), DoNotify(0), DoJudge(0, false), DoSettle(true), DoTakeTimeouts, DoMainReply(0), DoMainDelete(0)];
  }

  lemma Nowhere(s: State)
    ensures Possible(s, []) && After(s, []) == s
  {
  }

  lemma Onward(s: State, step: Step, t: State, rest: seq<Step>)
    requires Can(s, step) && Do(s, step) == t && Possible(t, rest)
    ensures Possible(s, [step] + rest) && After(s, [step] + rest) == After(t, rest)
  {
    hide Can, Do;
    assert ([step] + rest)[1..] == rest;
  }

  /** A call is sent and completed. */
  lemma LateCall(sent: State, notified: State)
    requires sent == INIT.(handlers := [New(Call(0), false)], calls := map[0 := 0], timeoutMap := map[0 := 0])
    requires notified == sent.(calls := map[], notified := multiset{0})
    ensures Can(INIT, DoSend(0)) && Do(INIT, DoSend(0)) == sent
    ensures Can(sent, DoNotify(0)) && Do(sent, DoNotify(0)) == notified
  {
    assert sent.calls - {0} == map[];
  }

  /** The enforcer finds the entry expired, and passes the handler on to the main loop. */
  lemma LateTimeout(notified: State, judged: State, settled: State)
    requires notified == INIT.(handlers := [New(Call(0), false)], timeoutMap := map[0 := 0], notified := multiset{0})
    requires judged == notified.(handlers := [New(Call(0), false).(timeoutOccurred := true)],
                                 enforcer := Judged(0, false, false))
    requires settled == judged.(timeoutMap := map[], enforcer := Idle, mainloopTimeouts := multiset{0})
    ensures Can(notified, DoJudge(0, false)) && Do(notified, DoJudge(0, false)) == judged
    ensures Can(judged, DoSettle(true)) && Do(judged, DoSettle(true)) == settled
  {
    assert judged.timeoutMap - {0} == map[];
  }

  /** The main loop reports the timeout and deletes the handler. */
  lemma LateReport(taken: State, replied: State, deleted: State)
    requires |taken.handlers| == 1 && taken.batch == multiset{0} && taken.batchReplied == multiset{}
    requires replied == taken.(handlers := [Replied(taken.handlers[0])], batch := multiset{},
                               batchReplied := multiset{0})
    requires deleted == replied.(handlers := [Deleted(Replied(taken.handlers[0]))], batchReplied := multiset{})
    ensures Can(taken, DoMainReply(0)) && Do(taken, DoMainReply(0)) == replied
    ensures Can(replied, DoMainDelete(0)) && Do(replied, DoMainDelete(0)) == deleted
  {
  }

  lemma LateCopy(settled: State, taken: State)
    requires settled.mainloopTimeouts == multiset{0} && settled.batch == multiset{}
    requires taken == settled.(mainloopTimeouts := multiset{}, batch := multiset{0})
    ensures Can(settled, DoTakeTimeouts) && Do(settled, DoTakeTimeouts) == taken
  {
  }

  lemma BeginsLate(s: State)
    requires Known(s, 0) && !s.closed && 0 in s.notified
    ensures Can(s, DoBegin(0)) && Touches(s, DoBegin(0), 0)
  {
  }
}
