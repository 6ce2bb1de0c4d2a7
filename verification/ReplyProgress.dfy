/**
  Asynchronous calls come to an end: every step that is not a look at nothing brings the work that is left down, and
  while work is left, there is such a step. So nothing is kept for ever that the threads are meant to hand on.
 */
module ReplyProgress {
  import opened Common
  import opened ReplyTimeout

  // ----- the work that is left -----

  /** How far a handler is from being deleted and done with; after a close no callback begins any more. */
  function Distance(v: View): nat
  {
    (if v.closed then 0 else 6 * v.open + 5 * v.notified) + 3 * v.replying + 2 * v.replied + v.skipped
    + (v.mapped + v.infinite) * (if v.timingOut + v.judgedFinished > 0 then 6 else 8)
    + 4 * v.mainloopTimeouts + 3 * v.batch + v.batchReplied + 2 * v.toDelete + v.deleting + 7 * v.queue
  }

  ghost function Sum(s: State, n: nat): nat
    requires n <= |s.handlers|
  {
    if n == 0 then 0 else Sum(s, n - 1) + Distance(Look(s, n - 1))
  }

  /** The distances of all handlers, and the enforcer's look at one that it has not acted on. */
  ghost function Work(s: State): nat
  {
    Sum(s, |s.handlers|) + One(s.enforcer.Judged?)
  }

  lemma {:induction false} SumOfMoved(s: State, t: State, h: nat, n: nat)
    requires Known(s, h) && |t.handlers| == |s.handlers| && n <= |s.handlers|
    requires forall k | 0 <= k < |s.handlers| && k != h :: Look(t, k) == Look(s, k)
    ensures Sum(t, n) == Sum(s, n) + if h < n then Distance(Look(t, h)) - Distance(Look(s, h)) else 0
  {
    hide Look, Distance;
    if n > 0 {
      SumOfMoved(s, t, h, n - 1);
    }
  }

  lemma MovedWork(s: State, t: State, h: nat, w: View)
    requires Moves(s, t, h, w)
    ensures Work(t) - One(t.enforcer.Judged?) == Work(s) - One(s.enforcer.Judged?) + Distance(w) - Distance(Look(s, h))
  {
    hide Look, Distance;
    SumOfMoved(s, t, h, |s.handlers|);
  }

  lemma {:induction false} SumOfLess(s: State, t: State, n: nat)
    requires |t.handlers| == |s.handlers| && n <= |s.handlers|
    requires forall k | 0 <= k < |s.handlers| :: Distance(Look(t, k)) <= Distance(Look(s, k))
    ensures Sum(t, n) <= Sum(s, n)
    ensures forall k | 0 <= k < n && Distance(Look(t, k)) < Distance(Look(s, k)) :: Sum(t, n) < Sum(s, n)
  {
    hide Look, Distance;
    if n > 0 {
      SumOfLess(s, t, n - 1);
    }
  }

  // ----- steps -----

  /** The step sends a call or queues a reply. */
  predicate Adds(step: Step)
  {
    step.DoSend? || step.DoSendInfinite? || step.DoSendFailed? || step.DoPushReply?
  }

  /**
    The step finds nothing to do: the entry it looks at is not finished, or its reply is running, or the list it copies is
    empty; or it closes the connection.
   */
  ghost predicate Idles(s: State, step: Step)
    requires Can(s, step)
  {
    match step
    case DoJudge(p, _) =>
      var a := s.handlers[s.timeoutMap[p]]; a.executionStarted && !a.executionFinished
    case DoCollect(p) => !s.handlers[s.timeoutMap[p]].executionFinished
    case DoCollectInfinite(h) => !s.handlers[h].executionFinished
    case DoTakeTimeouts => s.mainloopTimeouts == multiset{}
    case DoTakeDeletes => s.toDelete == multiset{}
    case DoClose => true
    case _ => false
  }

  lemma NotifyAdvances(s: State, p: nat)
    requires Invariant(s) && CanNotify(s, p)
    ensures Work(Notify(s, p)) < Work(s)
  {
    hide View.Sound, Look, Named, Exclusive, AllSound, Moves, Sum;
    var h := s.calls[p];
    var v := Look(s, h);
    LookSound(s, h);
    NotifyMoves(s, p);
    MovedWork(s, Notify(s, p), h, MoveNotify(v));
  }

  lemma ProcessQueueAdvances(s: State, h: nat, accepted: bool)
    requires Invariant(s) && CanProcessQueue(s, h, accepted)
    ensures Work(ProcessQueue(s, h, accepted)) < Work(s)
  {
    hide View.Sound, Look, Named, Exclusive, AllSound, Moves, Sum;
    var v := Look(s, h);
    LookSound(s, h);
    ProcessQueueMoves(s, h, accepted);
    MovedWork(s, ProcessQueue(s, h, accepted), h, MoveProcessQueue(v, accepted));
  }

  lemma ClearQueueAdvances(s: State, h: nat)
    requires Invariant(s) && CanClearQueue(s, h)
    ensures Work(ClearQueue(s, h)) < Work(s)
  {
    hide View.Sound, Look, Named, Exclusive, AllSound, Moves, Sum;
    var v := Look(s, h);
    LookSound(s, h);
    ClearQueueMoves(s, h);
    MovedWork(s, ClearQueue(s, h), h, MoveClearQueue(v));
  }

  lemma BeginAdvances(s: State, h: nat)
    requires Invariant(s) && CanBegin(s, h)
    ensures Work(Begin(s, h)) < Work(s)
  {
    hide View.Sound, Look, Named, Exclusive, AllSound, Moves, Sum;
    var v := Look(s, h);
    LookSound(s, h);
    BeginMoves(s, h);
    MovedWork(s, Begin(s, h), h, MoveBegin(v));
  }

  lemma ReplyAdvances(s: State, h: nat)
    requires Invariant(s) && CanReply(s, h)
    ensures Work(Reply(s, h)) < Work(s)
  {
    hide View.Sound, Look, Named, Exclusive, AllSound, Moves, Sum;
    var v := Look(s, h);
    LookSound(s, h);
    ReplyMoves(s, h);
    MovedWork(s, Reply(s, h), h, MoveReply(v));
  }

  lemma EndRepliedAdvances(s: State, h: nat)
    requires Invariant(s) && CanEndReplied(s, h)
    ensures Work(EndReplied(s, h)) < Work(s)
  {
    hide View.Sound, Look, Named, Exclusive, AllSound, Moves, Sum;
    var v := Look(s, h);
    LookSound(s, h);
    EndRepliedMoves(s, h);
    MovedWork(s, EndReplied(s, h), h, MoveEndReplied(v));
  }

  lemma EndSkippedAdvances(s: State, h: nat)
    requires Invariant(s) && CanEndSkipped(s, h)
    ensures Work(EndSkipped(s, h)) < Work(s)
  {
    hide View.Sound, Look, Named, Exclusive, AllSound, Moves, Sum;
    var v := Look(s, h);
    LookSound(s, h);
    EndSkippedMoves(s, h);
    MovedWork(s, EndSkipped(s, h), h, MoveEndSkipped(v));
  }

  lemma LooksAt(s: State, h: nat)
    requires Known(s, h)
    ensures Look(s, h).a == s.handlers[h] && Look(s, h).closed == s.closed
    ensures s.enforcer.Idle? ==> Look(s, h).timingOut == Look(s, h).judgedFinished == 0
  {
  }

  lemma JudgedIsNearer(v: View, cancel: bool)
    requires v.Sound() && v.mapped == 1 && v.timingOut == v.judgedFinished == 0
    requires v.a.executionStarted ==> v.a.executionFinished
    ensures Distance(MoveJudge(v, cancel)) + 2 <= Distance(v)
  {
  }

  lemma SettledIsNearer(v: View, context: bool)
    requires v.Sound() && v.mapped == 1
    ensures Distance(MoveSettle(v, context)) <= Distance(v)
  {
  }

  lemma JudgeAdvances(s: State, p: nat, cancel: bool)
    requires Invariant(s) && CanJudge(s, p, cancel)
    requires var a := s.handlers[s.timeoutMap[p]]; a.executionStarted ==> a.executionFinished
    ensures Work(Judge(s, p, cancel)) < Work(s)
  {
    hide View.Sound, Look, Named, Exclusive, AllSound, Moves, Sum;
    var h := s.timeoutMap[p];
    var v := Look(s, h);
    LookSound(s, h);
    LooksAt(s, h);
    JudgeMoves(s, p, cancel);
    MovedWork(s, Judge(s, p, cancel), h, MoveJudge(v, cancel));
    JudgedIsNearer(v, cancel);
  }

  lemma SettleAdvances(s: State, context: bool)
    requires Invariant(s) && CanSettle(s, context)
    ensures Work(Settle(s, context)) < Work(s)
  {
    hide View.Sound, Look, Named, Exclusive, AllSound, Moves, Sum;
    var h := s.timeoutMap[s.enforcer.pending];
    var v := Look(s, h);
    LookSound(s, h);
    SettleMoves(s, context);
    MovedWork(s, Settle(s, context), h, MoveSettle(v, context));
    SettledIsNearer(v, context);
  }

  lemma CollectAdvances(s: State, p: nat)
    requires Invariant(s) && CanCollect(s, p)
    requires s.handlers[s.timeoutMap[p]].executionFinished
    ensures Work(Collect(s, p)) < Work(s)
  {
    hide View.Sound, Look, Named, Exclusive, AllSound, Moves, Sum;
    var h := s.timeoutMap[p];
    var v := Look(s, h);
    LookSound(s, h);
    LooksAt(s, h);
    CollectMoves(s, p);
    MovedWork(s, Collect(s, p), h, MoveCollect(v));
  }

  lemma CollectInfiniteAdvances(s: State, h: nat)
    requires Invariant(s) && CanCollectInfinite(s, h)
    requires s.handlers[h].executionFinished
    ensures Work(CollectInfinite(s, h)) < Work(s)
  {
    hide View.Sound, Look, Named, Exclusive, AllSound, Moves, Sum;
    var v := Look(s, h);
    LookSound(s, h);
    LooksAt(s, h);
    CollectInfiniteMoves(s, h);
    MovedWork(s, CollectInfinite(s, h), h, MoveCollectInfinite(v));
  }

  lemma MainReplyAdvances(s: State, h: nat)
    requires Invariant(s) && CanMainReply(s, h)
    ensures Work(MainReply(s, h)) < Work(s)
  {
    hide View.Sound, Look, Named, Exclusive, AllSound, Moves, Sum;
    var v := Look(s, h);
    LookSound(s, h);
    MainReplyMoves(s, h);
    MovedWork(s, MainReply(s, h), h, MoveMainReply(v));
  }

  lemma MainDeleteAdvances(s: State, h: nat)
    requires Invariant(s) && CanMainDelete(s, h)
    ensures Work(MainDelete(s, h)) < Work(s)
  {
    hide View.Sound, Look, Named, Exclusive, AllSound, Moves, Sum;
    var v := Look(s, h);
    LookSound(s, h);
    MainDeleteMoves(s, h);
    MovedWork(s, MainDelete(s, h), h, MoveMainDelete(v));
  }

  lemma DeleteAdvances(s: State, h: nat)
    requires Invariant(s) && CanDelete(s, h)
    ensures Work(Delete(s, h)) < Work(s)
  {
    hide View.Sound, Look, Named, Exclusive, AllSound, Moves, Sum;
    var v := Look(s, h);
    LookSound(s, h);
    DeleteMoves(s, h);
    MovedWork(s, Delete(s, h), h, MoveDelete(v));
  }

  lemma DropMappedAdvances(s: State, p: nat)
    requires Invariant(s) && CanDropMapped(s, p)
    ensures Work(DropMapped(s, p)) < Work(s)
  {
    hide View.Sound, Look, Named, Exclusive, AllSound, Moves, Sum;
    var h := s.timeoutMap[p];
    var v := Look(s, h);
    LookSound(s, h);
    DropMappedMoves(s, p);
    MovedWork(s, DropMapped(s, p), h, MoveDropMapped(v));
  }

  lemma DropInfiniteAdvances(s: State, h: nat)
    requires Invariant(s) && CanDropInfinite(s, h)
    ensures Work(DropInfinite(s, h)) < Work(s)
  {
    hide View.Sound, Look, Named, Exclusive, AllSound, Moves, Sum;
    var v := Look(s, h);
    LookSound(s, h);
    DropInfiniteMoves(s, h);
    MovedWork(s, DropInfinite(s, h), h, MoveDropInfinite(v));
  }

  lemma TakenTimeouts(s: State, k: nat)
    requires Known(s, k)
    ensures var v := Look(s, k);
            Look(TakeTimeouts(s), k) == v.(mainloopTimeouts := 0, batch := v.batch + v.mainloopTimeouts)
            && v.mainloopTimeouts == s.mainloopTimeouts[k]
  {
  }

  lemma TakeTimeoutsAdvances(s: State)
    requires Invariant(s) && s.mainloopTimeouts != multiset{}
    ensures Work(TakeTimeouts(s)) < Work(s)
  {
    hide Look, View.Sound, Exclusive, AllSound;
    var t := TakeTimeouts(s);
    var h :| h in s.mainloopTimeouts;
    assert Known(s, h) by {
      assert !Absent(s, h);
    }
    forall k | 0 <= k < |s.handlers|
      ensures Distance(Look(t, k)) == Distance(Look(s, k)) - s.mainloopTimeouts[k]
    {
      TakenTimeouts(s, k);
    }
    SumOfLess(s, t, |s.handlers|);
    assert Distance(Look(t, h)) < Distance(Look(s, h));
  }

  lemma TakenDeletes(s: State, k: nat)
    requires Known(s, k)
    ensures var v := Look(s, k);
            Look(TakeDeletes(s), k) == v.(toDelete := 0, deleting := v.deleting + v.toDelete)
            && v.toDelete == s.toDelete[k]
  {
  }

  lemma TakeDeletesAdvances(s: State)
    requires Invariant(s) && s.toDelete != multiset{}
    ensures Work(TakeDeletes(s)) < Work(s)
  {
    hide Look, View.Sound, Exclusive, AllSound;
    var t := TakeDeletes(s);
    var h :| h in s.toDelete;
    assert Known(s, h) by {
      assert !Absent(s, h);
    }
    forall k | 0 <= k < |s.handlers|
      ensures Distance(Look(t, k)) == Distance(Look(s, k)) - s.toDelete[k]
    {
      TakenDeletes(s, k);
    }
    SumOfLess(s, t, |s.handlers|);
    assert Distance(Look(t, h)) < Distance(Look(s, h));
  }

  /** A step that finds nothing to do leaves every handler as it is. */
  lemma NothingToDo(s: State, step: Step)
    requires Invariant(s) && Can(s, step) && !Adds(step) && Idles(s, step)
    ensures var t := Do(s, step);
            && t.handlers == s.handlers && Work(t) <= Work(s) + 1
            && forall h | 0 <= h < |s.handlers| :: Look(t, h) == Look(s, h).(closed := t.closed)
  {
    hide Invariant, Distance;
    var t := Do(s, step);
    forall h | 0 <= h < |s.handlers| ensures Look(t, h) == Look(s, h).(closed := t.closed) {
      NothingMoves(s, step, h);
    }
    forall h | 0 <= h < |s.handlers| ensures Distance(Look(t, h)) <= Distance(Look(s, h)) {
      ClosedIsNearer(Look(s, h), t.closed);
    }
    SumOfLess(s, t, |s.handlers|);
  }

  lemma ClosedIsNearer(v: View, closed: bool)
    requires v.closed ==> closed
    ensures Distance(v.(closed := closed)) <= Distance(v)
  {
  }

  lemma NothingMoves(s: State, step: Step, h: nat)
    requires Invariant(s) && Can(s, step) && !Adds(step) && Idles(s, step) && Known(s, h)
    ensures var t := Do(s, step);
            t.handlers == s.handlers && Look(t, h) == Look(s, h).(closed := t.closed) && (s.closed ==> t.closed)
  {
    hide Invariant;
    match step
    case DoTakeTimeouts => TakenTimeouts(s, h);
    case DoTakeDeletes => TakenDeletes(s, h);
    case _ =>
  }

  /** Every other step brings the work down. */
  lemma StepAdvances(s: State, step: Step)
    requires Invariant(s) && Can(s, step) && !Adds(step) && !Idles(s, step)
    ensures Work(Do(s, step)) < Work(s)
  {
    hide Invariant, Work, Look;
    match step
    case DoTakeTimeouts => TakeTimeoutsAdvances(s);
    case DoTakeDeletes => TakeDeletesAdvances(s);
    case DoNotify(p) => NotifyAdvances(s, p);
    case DoProcessQueue(h, accepted) => ProcessQueueAdvances(s, h, accepted);
    case DoClearQueue(h) => ClearQueueAdvances(s, h);
    case DoBegin(h) => BeginAdvances(s, h);
    case DoReply(h) => ReplyAdvances(s, h);
    case DoEndReplied(h) => EndRepliedAdvances(s, h);
    case DoEndSkipped(h) => EndSkippedAdvances(s, h);
    case DoJudge(p, cancel) => JudgeAdvances(s, p, cancel);
    case DoSettle(context) => SettleAdvances(s, context);
    case DoCollect(p) => CollectAdvances(s, p);
    case DoCollectInfinite(h) => CollectInfiniteAdvances(s, h);
    case DoMainReply(h) => MainReplyAdvances(s, h);
    case DoMainDelete(h) => MainDeleteAdvances(s, h);
    case DoDelete(h) => DeleteAdvances(s, h);
    case DoDropMapped(p) => DropMappedAdvances(s, p);
    case DoDropInfinite(h) => DropInfiniteAdvances(s, h);
  }

  // ----- new work -----

  lemma {:induction false} SumOfGrown(s: State, t: State, n: nat)
    requires n <= |s.handlers| <= |t.handlers|
    requires forall k | 0 <= k < |s.handlers| :: Look(t, k) == Look(s, k)
    ensures Sum(t, n) == Sum(s, n)
  {
    hide Look, Distance;
    if n > 0 {
      SumOfGrown(s, t, n - 1);
    }
  }

  lemma GrownWork(s: State, t: State, d: nat)
    requires Grows(s, t) && t.enforcer == s.enforcer && Distance(Look(t, |s.handlers|)) <= d
    ensures Work(t) <= Work(s) + d
  {
    hide Look, Distance, View.Sound;
    SumOfGrown(s, t, |s.handlers|);
  }

  /** A handler that is new is waited for in one way. */
  lemma NewIsNear(v: View)
    requires v.Sound() && v.a.replies == 0 && v.a.deletes == 0 && !v.a.executionStarted && !v.a.timeoutOccurred
    ensures Distance(v) <= 14
  {
  }

  lemma NewHandler(s: State, step: Step)
    requires Adds(step) && Can(s, step) && (step.DoSend? ==> !CanReplace(s, step.p))
    ensures var t := Do(s, step);
            |t.handlers| == |s.handlers| + 1 && t.enforcer == s.enforcer
            && var a := t.handlers[|s.handlers|];
               a.replies == 0 && a.deletes == 0 && !a.executionStarted && !a.timeoutOccurred
  {
  }

  lemma InsertWork(s: State, p: nat)
    requires Invariant(s) && !s.closed && s.enforcer.Idle? && Unused(s, p) && p !in s.timeoutMap
    ensures Work(Insert(s, p)) <= Work(s) + 14
  {
    hide Look, View.Sound, Exclusive, AllSound, Unused, Distance;
    InsertGrows(s, p);
    var t, n := Insert(s, p), |s.handlers|;
    LooksAt(t, n);
    NewIsNear(Look(t, n));
    GrownWork(s, t, 14);
  }

  lemma ReplaceWork(s: State, p: nat)
    requires Invariant(s) && CanReplace(s, p)
    ensures Work(Replace(s, p)) <= Work(s)
  {
    hide View.Sound, Look, Named, Exclusive, AllSound, Moves, Sum;
    var h := s.timeoutMap[p];
    LookSound(s, h);
    ReplaceMoves(s, p);
    MovedWork(s, Replace(s, p), h, MoveReplace(Look(s, h)));
  }

  lemma SendWork(s: State, p: nat)
    requires Invariant(s) && CanSend(s, p)
    ensures Work(Send(s, p)) <= Work(s) + 14
  {
    hide Invariant, Work, Insert, Replace, Unused;
    if CanReplace(s, p) {
      ReplaceWork(s, p);
      ReplaceKeeps(s, p);
      ReplaceFrees(s, p);
      InsertWork(Replace(s, p), p);
    } else {
      NotMapped(s, p);
      InsertWork(s, p);
    }
  }

  lemma NotMapped(s: State, p: nat)
    requires Invariant(s) && CanSend(s, p) && !CanReplace(s, p)
    ensures p !in s.timeoutMap
  {
  }

  /** A call or a reply adds to the work, by no more than it takes to see it through. */
  lemma AddedWork(s: State, step: Step)
    requires Invariant(s) && Can(s, step) && Adds(step)
    ensures Work(Do(s, step)) <= Work(s) + 14
  {
    hide Look, View.Sound, Exclusive, AllSound, Unused, Distance, Grows, Send;
    if step.DoSend? {
      SendWork(s, step.p);
    } else {
      var t, n := Do(s, step), |s.handlers|;
      OneMore(s, step);
      NewHandler(s, step);
      LooksAt(t, n);
      assert Look(t, n).Sound() by {
        GrownSound(s, t);
      }
      NewIsNear(Look(t, n));
      GrownWork(s, t, 14);
    }
  }

  lemma GrownSound(s: State, t: State)
    requires Grows(s, t)
    ensures |t.handlers| == |s.handlers| + 1 && Look(t, |s.handlers|).Sound()
  {
  }

  lemma OneMore(s: State, step: Step)
    requires Invariant(s) && Can(s, step) && Adds(step) && !step.DoSend?
    ensures Grows(s, Do(s, step))
  {
    hide Grows, AllSound, Exclusive;
    match step
    case DoSendInfinite(p) => SendInfiniteGrows(s, p);
    case DoSendFailed => SendFailedGrows(s);
    case DoPushReply => PushReplyGrows(s);
  }

  // ----- runs -----

  /** Steps of the run that add work. */
  function Additions(steps: seq<Step>): nat
  {
    if steps == [] then 0 else One(Adds(steps[0])) + Additions(steps[1..])
  }

  /** Steps of the run that find nothing to do. */
  ghost function Looks(s: State, steps: seq<Step>): nat
    requires Possible(s, steps)
    decreases |steps|
  {
    if steps == [] then 0 else
    One(!Adds(steps[0]) && Idles(s, steps[0])) + Looks(Do(s, steps[0]), steps[1..])
  }

  /** In every run, the steps that hand something on are bounded by what was added and what the steps looked at. */
  lemma {:induction false} RunsAreBounded(s: State, steps: seq<Step>)
    requires Invariant(s) && Possible(s, steps)
    ensures |steps| + Work(After(s, steps)) <= Work(s) + 15 * Additions(steps) + 2 * Looks(s, steps)
    decreases |steps|
  {
    hide Invariant, Can, Do, Adds, Idles, Work;
    if steps != [] {
      var step := steps[0];
      var t := Do(s, step);
      DoKeeps(s, step);
      RunsAreBounded(t, steps[1..]);
      if Adds(step) {
        AddedWork(s, step);
      } else if Idles(s, step) {
        NothingToDo(s, step);
      } else {
        StepAdvances(s, step);
      }
    }
  }

  // ----- something can be done while work is left -----

  /** The step is an answer to a call that has an entry in the map, so that the timeout would have ended it as well. */
  ghost predicate Answers(s: State, step: Step)
  {
    step.DoNotify? && step.p in s.calls && step.p in s.timeoutMap && s.timeoutMap[step.p] == s.calls[step.p]
  }

  /** A step that hands something on, drops no handler, and does not depend on an answer to a call with a timeout. */
  ghost predicate Useful(s: State, step: Step)
  {
    && Can(s, step) && !Adds(step) && !Idles(s, step) && !Answers(s, step)
    && forall h: nat :: !Drops(s, step, h)
  }

  lemma {:induction false} SomeoneIsLeft(s: State, n: nat) returns (h: nat)
    requires n <= |s.handlers| && Sum(s, n) > 0
    ensures h < n && Distance(Look(s, h)) > 0
  {
    hide Look, Distance;
    if Distance(Look(s, n - 1)) > 0 {
      h := n - 1;
    } else {
      h := SomeoneIsLeft(s, n - 1);
    }
  }

  /** Who has the handler hands it on; unless the entry waits for a call or a callback. */
  lemma NextForLists(s: State, h: nat) returns (step: Step)
    requires Known(s, h) && s.enforcer.Idle?
    requires var v := Look(s, h);
             v.replying + v.replied + v.skipped + v.queue + v.mainloopTimeouts + v.batch + v.batchReplied + v.toDelete
             + v.deleting > 0
    ensures Useful(s, step)
  {
    if s.replying[h] > 0 { step := DoReply(h); }
    else if s.replied[h] > 0 { step := DoEndReplied(h); }
    else if s.skipped[h] > 0 { step := DoEndSkipped(h); }
    else if s.queue[h] > 0 { step := if s.closed then DoClearQueue(h) else DoProcessQueue(h, true); }
    else if s.mainloopTimeouts[h] > 0 { step := DoTakeTimeouts; }
    else if s.batch[h] > 0 { step := DoMainReply(h); }
    else if s.batchReplied[h] > 0 { step := DoMainDelete(h); }
    else if s.toDelete[h] > 0 { step := DoTakeDeletes; }
    else { step := DoDelete(h); }
  }

  lemma NextForCall(s: State, h: nat) returns (step: Step)
    requires Known(s, h) && !s.closed
    requires var v := Look(s, h); v.notified > 0 || (v.open > 0 && v.mapped == 0)
    ensures Useful(s, step)
  {
    if s.notified[h] > 0 { step := DoBegin(h); } else { step := DoNotify(s.handlers[h].origin.pending); }
  }

  lemma NextForEntry(s: State, h: nat) returns (step: Step)
    requires Known(s, h) && s.enforcer.Idle? && Look(s, h).mapped + Look(s, h).infinite > 0
    requires s.closed || s.handlers[h].executionFinished || (Look(s, h).mapped > 0 && !s.handlers[h].executionStarted)
    ensures Useful(s, step)
  {
    var p := if Look(s, h).mapped > 0 then s.handlers[h].origin.pending else 0;
    if s.closed {
      step := if Look(s, h).mapped > 0 then DoDropMapped(p) else DoDropInfinite(h);
    } else if s.handlers[h].executionFinished {
      step := if Look(s, h).mapped > 0 then DoCollect(p) else DoCollectInfinite(h);
    } else {
      step := DoJudge(p, true);
    }
  }

  /** An entry whose handler is neither running nor finished has not been started, and then its call is open. */
  lemma EntryWaits(v: View)
    requires v.Sound() && v.timingOut == 0 && v.mapped + v.infinite > 0 && !v.a.executionFinished
    requires v.notified + v.replying + v.replied == 0
    ensures !v.a.executionStarted && v.open == 1
  {
  }

  /** While work is left, some step hands something on: the threads do not get stuck. */
  lemma SomethingCanBeDone(s: State) returns (step: Step)
    requires Invariant(s) && Work(s) > 0
    ensures Useful(s, step)
  {
    hide View.Sound, Exclusive, AllSound, Useful, Look;
    if s.enforcer.Judged? {
      step := DoSettle(true);
      SettleIsUseful(s);
    } else {
      var h := SomeoneIsLeft(s, |s.handlers|);
      var v := Look(s, h);
      LookSound(s, h);
      LooksAt(s, h);
      if v.replying + v.replied + v.skipped + v.queue + v.mainloopTimeouts + v.batch + v.batchReplied + v.toDelete
         + v.deleting > 0 {
        step := NextForLists(s, h);
      } else if !v.closed && v.notified > 0 {
        step := NextForCall(s, h);
      } else if v.mapped + v.infinite > 0 {
        if !v.closed && !v.a.executionFinished {
          EntryWaits(v);
        }
        if v.closed || v.a.executionFinished || v.mapped > 0 {
          step := NextForEntry(s, h);
        } else {
          step := NextForCall(s, h);
        }
      } else {
        step := NextForCall(s, h);
      }
    }
  }

  lemma SettleIsUseful(s: State)
    requires Invariant(s) && s.enforcer.Judged?
    ensures Useful(s, DoSettle(true))
  {
    hide Exclusive, AllSound;
  }

  // ----- the end -----

  /**
    Nothing is left to do: on an open connection nothing of any handler is left; on a closed one only callbacks that
    never begin.
   */
  lemma NothingIsLeft(s: State, h: nat)
    requires Invariant(s) && Known(s, h) && Work(s) == 0
    ensures !Held(s, h) && Running(s, h) == if s.closed then s.notified[h] else 0
    ensures var a := s.handlers[h];
            s.notified[h] == 0 || !s.closed ==>
              (a.deletes == 1 <==> h !in s.lost) && (a.deletes == 1 && !s.closed && a.origin != Queued ==> a.replies == 1)
  {
    hide Exclusive, AllSound, Named, Held;
    LookSound(s, h);
    HeldIs(s, h);
    NotFar(s, h, |s.handlers|);
  }

  lemma {:induction false} NotFar(s: State, h: nat, n: nat)
    requires h < n <= |s.handlers| && Sum(s, n) == 0
    ensures Distance(Look(s, h)) == 0
  {
    hide Look, Distance;
    if h < n - 1 {
      NotFar(s, h, n - 1);
    }
  }

  /** The steps are useful, one after the other. */
  ghost predicate AllUseful(s: State, steps: seq<Step>)
    decreases |steps|
  {
    steps == [] || (Useful(s, steps[0]) && AllUseful(Do(s, steps[0]), steps[1..]))
  }

  ghost predicate Ends(s: State, more: seq<Step>)
  {
    AllUseful(s, more) && Possible(s, more) && |more| <= Work(s) && Work(After(s, more)) == 0
  }

  /** From every state some run of useful steps ends the work. */
  lemma {:induction false} WorkEnds(s: State)
    requires Invariant(s)
    ensures exists more :: Ends(s, more)
    decreases Work(s)
  {
    hide Invariant, Can, Do, Useful, Work;
    if Work(s) == 0 {
      assert Ends(s, []);
    } else {
      var step := SomethingCanBeDone(s);
      IsUseful(s, step);
      DoKeeps(s, step);
      StepAdvances(s, step);
      WorkEnds(Do(s, step));
      var rest :| Ends(Do(s, step), rest);
      var more := [step] + rest;
      assert more[1..] == rest;
      assert Ends(s, more);
    }
  }

  lemma IsUseful(s: State, step: Step)
    requires Useful(s, step)
    ensures Can(s, step) && !Adds(step) && !Idles(s, step)
  {
  }

  lemma {:induction false} UsefulDropsNone(s: State, more: seq<Step>, h: nat)
    requires Possible(s, more) && AllUseful(s, more)
    ensures !Dropped(s, more, h)
    decreases |more|
  {
    hide Can, Do, Drops;
    if more != [] {
      UsefulDropsNone(Do(s, more[0]), more[1..], h);
    }
  }

  lemma {:induction false} InSequence(s: State, a: seq<Step>, b: seq<Step>)
    requires Possible(s, a) && Possible(After(s, a), b)
    ensures Possible(s, a + b) && After(s, a + b) == After(After(s, a), b)
    ensures forall h: nat :: Dropped(s, a + b, h) <==> Dropped(s, a, h) || Dropped(After(s, a), b, h)
    decreases |a|
  {
    hide Can, Do, Drops;
    if a == [] {
      assert a + b == b;
    } else {
      assert (a + b)[0] == a[0] && (a + b)[1..] == a[1..] + b;
      InSequence(Do(s, a[0]), a[1..], b);
    }
  }

  /** What is left of a handler at the end: it has been replied to and deleted once, unless it was dropped before. */
  ghost predicate Ended(s: State, h: nat, dropped: bool)
    requires Known(s, h)
  {
    var a := s.handlers[h];
    && !Held(s, h) && Running(s, h) == (if s.closed then s.notified[h] else 0)
    && (s.notified[h] == 0 || !s.closed ==>
          (a.deletes == 1 <==> !dropped) && (a.deletes == 1 && !s.closed && a.origin != Queued ==> a.replies == 1))
  }

  ghost predicate EndsAll(steps: seq<Step>, more: seq<Step>)
  {
    && Possible(INIT, steps) && AllUseful(After(INIT, steps), more)
    && |more| <= Work(After(INIT, steps)) && Possible(INIT, steps + more)
    && var t := After(INIT, steps + more);
       forall h | 0 <= h < |t.handlers| :: Ended(t, h, Dropped(INIT, steps, h))
  }

  /**
    From every state that any interleaving of the threads can reach, some run of useful steps, no longer than the work
    that is left, ends all that was begun: every handler that was not dropped before is then deleted once, and on an open
    connection nothing of any handler is left.
   */
  lemma EveryRunCanEnd(steps: seq<Step>)
    requires Possible(INIT, steps)
    ensures exists more :: EndsAll(steps, more)
  {
    hide Possible, After, Invariant, Work, AllUseful, Dropped, Ended;
    var s := After(INIT, steps);
    InitKeeps();
    AfterKeeps(INIT, steps);
    WorkEnds(s);
    var more :| Ends(s, more);
    AfterKeeps(s, more);
    InSequence(INIT, steps, more);
    var t := After(s, more);
    forall h | 0 <= h < |t.handlers| ensures Ended(t, h, Dropped(INIT, steps, h)) {
      EndedAtLast(steps, more, h);
    }
    assert EndsAll(steps, more);
  }

  lemma EndedAtLast(steps: seq<Step>, more: seq<Step>, h: nat)
    requires Possible(INIT, steps) && Ends(After(INIT, steps), more) && Known(After(After(INIT, steps), more), h)
    requires Invariant(After(After(INIT, steps), more)) && Possible(INIT, steps + more)
    requires After(INIT, steps + more) == After(After(INIT, steps), more)
    requires Dropped(INIT, steps + more, h) <==> Dropped(INIT, steps, h) || Dropped(After(INIT, steps), more, h)
    ensures Ended(After(INIT, steps + more), h, Dropped(INIT, steps, h))
  {
    hide Possible, After, Invariant, Work, AllUseful, Dropped, Held;
    NothingIsLeft(After(After(INIT, steps), more), h);
    UsefulDropsNone(After(INIT, steps), more, h);
    LostIsDropped(INIT, steps + more, h);
  }

  // ----- handlers that are finished -----

  /** The handler is done with and has been deleted once. */
  ghost predicate Gone(s: State, h: nat)
  {
    Known(s, h) && Done(s, h) && s.handlers[h].deletes == 1
  }

  lemma DeletedFromList(s: State, h: nat)
    requires Invariant(s) && Known(s, h) && h in s.toDelete && s.handlers[h].executionFinished
    ensures Possible(s, [DoTakeDeletes, DoDelete(h)]) && Gone(After(s, [DoTakeDeletes, DoDelete(h)]), h)
  {
    hide Invariant, Gone, View.Sound;
    var t := TakeDeletes(s);
    DoKeeps(s, DoTakeDeletes);
    TakenDeletes(s, h);
    assert CanDelete(t, h);
    var u := Delete(t, h);
    DoKeeps(t, DoDelete(h));
    Nowhere(u);
    Onward(t, DoDelete(h), u, []);
    Onward(s, DoTakeDeletes, t, [DoDelete(h)]);
    assert [DoDelete(h)] + [] == [DoDelete(h)];
    assert [DoTakeDeletes] + [DoDelete(h)] == [DoTakeDeletes, DoDelete(h)];
    FinishedIsGone(u, h);
  }

  lemma FinishedIsGone(s: State, h: nat)
    requires Invariant(s) && Known(s, h) && s.handlers[h].executionFinished && s.handlers[h].deletes > 0
    ensures Gone(s, h)
  {
    hide Named, Held, Exclusive, AllSound;
    LookSound(s, h);
    HeldIs(s, h);
  }

  /** A finished handler without a timeout is collected and deleted. */
  lemma InfiniteIsDeleted(s: State, h: nat)
    requires Invariant(s) && h in s.infinite && Known(s, h) && s.handlers[h].executionFinished
    ensures var steps := [DoCollectInfinite(h)] + [DoTakeDeletes, DoDelete(h)];
            Possible(s, steps) && Gone(After(s, steps), h)
  {
    hide Invariant, Gone;
    var t := CollectInfinite(s, h);
    DoKeeps(s, DoCollectInfinite(h));
    DeletedFromList(t, h);
    Onward(s, DoCollectInfinite(h), t, [DoTakeDeletes, DoDelete(h)]);
  }

  /** So is one with an entry that has not expired ... */
  lemma MappedIsDeleted(s: State, p: nat)
    requires Invariant(s) && CanCollect(s, p) && s.handlers[s.timeoutMap[p]].executionFinished
    ensures var h := s.timeoutMap[p];
            var steps := [DoCollect(p)] + [DoTakeDeletes, DoDelete(h)];
            Possible(s, steps) && Gone(After(s, steps), h)
  {
    hide Invariant, Gone;
    var h, t := s.timeoutMap[p], Collect(s, p);
    DoKeeps(s, DoCollect(p));
    DeletedFromList(t, h);
    Onward(s, DoCollect(p), t, [DoTakeDeletes, DoDelete(h)]);
  }

  /** ... and one with an entry that has, whether or not there is a main loop. */
  lemma ExpiredIsDeleted(s: State, p: nat, cancel: bool, context: bool)
    requires Invariant(s) && CanJudge(s, p, cancel) && s.handlers[s.timeoutMap[p]].executionFinished
    ensures var h := s.timeoutMap[p];
            var steps := [DoJudge(p, cancel)] + ([DoSettle(context)] + [DoTakeDeletes, DoDelete(h)]);
            Possible(s, steps) && Gone(After(s, steps), h)
  {
    hide Invariant, Gone;
    var h, t := s.timeoutMap[p], Judge(s, p, cancel);
    DoKeeps(s, DoJudge(p, cancel));
    var u := Settle(t, context);
    DoKeeps(t, DoSettle(context));
    DeletedFromList(u, h);
    Onward(t, DoSettle(context), u, [DoTakeDeletes, DoDelete(h)]);
    Onward(s, DoJudge(p, cancel), t, [DoSettle(context)] + [DoTakeDeletes, DoDelete(h)]);
  }

  // ----- what does not happen any more -----

  lemma {:induction false} ClosedStays(s: State, steps: seq<Step>)
    requires Possible(s, steps) && s.closed
    ensures After(s, steps).closed
    decreases |steps|
  {
    hide Can, Do;
    if steps != [] {
      NothingOpens(s, steps[0]);
      ClosedStays(Do(s, steps[0]), steps[1..]);
    }
  }

  lemma NothingOpens(s: State, step: Step)
    requires Can(s, step) && s.closed
    ensures Do(s, step).closed
  {
    hide Unused;
  }

  /** After a close no call is sent, none is answered, no callback begins, and no queued reply is delivered. */
  lemma NothingAfterClose(s: State, steps: seq<Step>, step: Step)
    requires Possible(s, [DoClose] + steps)
    requires step.DoSend? || step.DoSendInfinite? || step.DoNotify? || step.DoBegin?
          || (step.DoProcessQueue? && step.accepted)
    ensures !Can(After(s, [DoClose] + steps), step)
  {
    assert ([DoClose] + steps)[1..] == steps;
    ClosedStays(Close(s), steps);
  }

  lemma {:induction false} UnsentStays(s: State, steps: seq<Step>, p: nat)
    requires Possible(s, steps) && p !in s.calls && DoSend(p) !in steps && DoSendInfinite(p) !in steps
    ensures p !in After(s, steps).calls
    decreases |steps|
  {
    hide Can, Do;
    if steps != [] {
      OnlySendingOpens(s, steps[0], p);
      UnsentStays(Do(s, steps[0]), steps[1..], p);
    }
  }

  lemma OnlySendingOpens(s: State, step: Step, p: nat)
    requires Can(s, step) && p !in s.calls && step != DoSend(p) && step != DoSendInfinite(p)
    ensures p !in Do(s, step).calls
  {
    hide Unused;
    match step
    case DoSend(_) =>
    case DoSendInfinite(_) =>
    case DoNotify(_) =>
    case DoJudge(_, _) =>
    case _ => OthersOpenNone(s, step, p);
  }

  lemma OthersOpenNone(s: State, step: Step, p: nat)
    requires Can(s, step) && p !in s.calls && !step.DoSend? && !step.DoSendInfinite? && !step.DoNotify? && !step.DoJudge?
    ensures p !in Do(s, step).calls
  {
    hide Unused, Send, SendInfinite, Notify, Judge;
  }

  /** A call that has been cancelled is not answered, until another call has its address. */
  lemma CancelledIsNotAnswered(s: State, p: nat, steps: seq<Step>)
    requires CanJudge(s, p, true) && Possible(s, [DoJudge(p, true)] + steps)
    requires var a := s.handlers[s.timeoutMap[p]]; !a.executionStarted && !a.executionFinished
    requires DoSend(p) !in steps && DoSendInfinite(p) !in steps
    ensures !Can(After(s, [DoJudge(p, true)] + steps), DoNotify(p))
  {
    assert ([DoJudge(p, true)] + steps)[1..] == steps;
    UnsentStays(Judge(s, p, true), steps, p);
  }
}
