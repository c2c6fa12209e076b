/**
 * The background tasks of a node and its WaitGroup: every interleaving of
 * Listen, Stop, the accept loop, connection tasks and operation tasks.
 */
module NodeTasks {

  /** Where the one admitted Listen call stands; a refused call changes nothing. */
  datatype ListenPc =
    | NotCalled
    | Admitted   // started is set, the lock released
    | Bound      // the listener is in place
    | Counted    // wg.Add(1) done, the accept loop not yet started
    | Listening  // the accept loop was started
    | Failed     // binding the address failed

  /** Where the first Stop call stands; later calls return at once. */
  datatype StopPc = NotStopped | Marked | Cancelled | Waiting | Returned

  datatype LoopPc =
    | NoLoop
    | Accepting
    | ConnCounted  // wg.Add(1) done for a connection task not yet started
    | LoopDone

  /**
   * `conns` connection tasks are running, `adding` more have counted an operation
   * task they have not yet started, `ops` operation tasks are running. `raced`
   * remembers whether Listen was under way when Stop began.
   */
  datatype State = State(
    listen: ListenPc, stop: StopPc, loop: LoopPc, conns: nat, adding: nat, ops: nat, wg: int, raced: bool)

  datatype Action =
    | ListenCall | ListenBind(ok: bool) | ListenAdd | ListenGo
    | StopCall | StopCancel | StopClose | StopWait
    | AcceptConn | StartConn | LoopExit
    | AcceptOp | StartOp | ConnExit | OpExit

  const START := State(NotCalled, NotStopped, NoLoop, 0, 0, 0, 0, false)

  /** A Listen call past its admission that may still start the accept loop. */
  predicate InFlight(pc: ListenPc) {
    pc == Admitted || pc == Bound || pc == Counted
  }

  function Live(s: State): nat {
    (if s.loop == Accepting || s.loop == ConnCounted then 1 else 0) + s.conns + s.adding + s.ops
  }

  /** Tasks counted in the WaitGroup but not yet started. */
  function Pending(s: State): nat {
    (if s.listen == Counted then 1 else 0) + (if s.loop == ConnCounted then 1 else 0) + s.adding
  }

  /** One step; accepts may succeed even after the context is cancelled, so no timing is assumed. */
  function Next(s: State, a: Action): State {
    match a
    case ListenCall =>
      // refused when already started or already stopped
      if s.listen == NotCalled && s.stop == NotStopped then s.(listen := Admitted) else s
    case ListenBind(ok) =>
      if s.listen == Admitted then s.(listen := if ok then Bound else Failed) else s
    case ListenAdd => if s.listen == Bound then s.(listen := Counted, wg := s.wg + 1) else s
    case ListenGo => if s.listen == Counted then s.(listen := Listening, loop := Accepting) else s
    case StopCall =>
      if s.stop == NotStopped then s.(stop := Marked, raced := InFlight(s.listen)) else s
    case StopCancel => if s.stop == Marked then s.(stop := Cancelled) else s
    case StopClose => if s.stop == Cancelled then s.(stop := Waiting) else s
    case StopWait => if s.stop == Waiting && s.wg == 0 then s.(stop := Returned) else s
    case AcceptConn => if s.loop == Accepting then s.(loop := ConnCounted, wg := s.wg + 1) else s
    case StartConn => if s.loop == ConnCounted then s.(loop := Accepting, conns := s.conns + 1) else s
    case LoopExit => if s.loop == Accepting then s.(loop := LoopDone, wg := s.wg - 1) else s
    case AcceptOp =>
      if s.conns > 0 then s.(conns := s.conns - 1, adding := s.adding + 1, wg := s.wg + 1) else s
    case StartOp =>
      if s.adding > 0 then s.(adding := s.adding - 1, conns := s.conns + 1, ops := s.ops + 1) else s
    case ConnExit => if s.conns > 0 then s.(conns := s.conns - 1, wg := s.wg - 1) else s
    case OpExit => if s.ops > 0 then s.(ops := s.ops - 1, wg := s.wg - 1) else s
  }

  function Run(s: State, actions: seq<Action>): State {
    if actions == [] then s else Next(Run(s, actions[..|actions| - 1]), actions[|actions| - 1])
  }

  /** The WaitGroup counts exactly the live tasks and those about to start. */
  ghost predicate Inv(s: State) {
    && s.wg == Live(s) + Pending(s)
    && (s.loop != NoLoop || Live(s) > 0 ==> s.listen == Listening)
    && (s.raced ==> s.stop != NotStopped)
    && (s.stop != NotStopped && !s.raced ==> !InFlight(s.listen))
    && (s.stop == Returned && !s.raced ==> s.wg == 0)
  }

  lemma NextKeeps(s: State, a: Action)
    requires Inv(s)
    ensures Inv(Next(s, a))
  {
  }

  lemma {:induction false} RunKeeps(s: State, actions: seq<Action>)
    requires Inv(s)
    ensures Inv(Run(s, actions))
  {
    if actions != [] {
      RunKeeps(s, actions[..|actions| - 1]);
      NextKeeps(Run(s, actions[..|actions| - 1]), actions[|actions| - 1]);
    }
  }

  lemma {:induction false} RunConcat(s: State, first: seq<Action>, more: seq<Action>)
    ensures Run(s, first + more) == Run(Run(s, first), more)
  {
    if more == [] {
      assert first + more == first;
    } else {
      RunConcat(s, first, more[..|more| - 1]);
      assert (first + more)[..|first + more| - 1] == first + more[..|more| - 1];
    }
  }

  /** The state a fresh node reaches. */
  function After(actions: seq<Action>): State {
    Run(START, actions)
  }

  lemma AfterKeeps(actions: seq<Action>)
    ensures Inv(After(actions))
  {
    RunKeeps(START, actions);
  }

  lemma AfterConcat(first: seq<Action>, more: seq<Action>)
    ensures After(first + more) == Run(After(first), more)
  {
    RunConcat(START, first, more);
  }

  /** In every reachable state the WaitGroup equals the live tasks plus those counted ahead of their start. */
  lemma {:induction false} WaitGroupCounts(actions: seq<Action>)
    ensures var s := After(actions);
            s.wg == Live(s) + Pending(s)
  {
    hide Next, After;
    AfterKeeps(actions);
  }

  /** Only Listen ever raises the WaitGroup from zero, as its Wait may rely on. */
  lemma {:induction false} AddFromZeroIsListen(actions: seq<Action>, a: Action)
    ensures var s := After(actions);
            s.wg == 0 && Next(s, a).wg > 0 ==> a == ListenAdd
  {
    hide After;
    AfterKeeps(actions);
  }

  /**
   * Shutdown: when no Listen call was under way as Stop began, the first Stop
   * returns only with no task live or about to start, and in no later state,
   * whatever is called, is there one again.
   */
  lemma {:induction false} StopIsFinal(actions: seq<Action>, more: seq<Action>)
    requires After(actions).stop == Returned && !After(actions).raced
    ensures var t := After(actions + more);
            Live(t) == 0 && Pending(t) == 0 && t.wg == 0
  {
    hide Next, After;
    AfterKeeps(actions);
    AfterConcat(actions, more);
    StaysReturned(After(actions), more);
  }

  lemma {:induction false} StaysReturned(s: State, more: seq<Action>)
    requires Inv(s) && s.stop == Returned && !s.raced
    ensures Inv(Run(s, more)) && Run(s, more).stop == Returned && !Run(s, more).raced
  {
    if more != [] {
      StaysReturned(s, more[..|more| - 1]);
      NextKeeps(Run(s, more[..|more| - 1]), more[|more| - 1]);
    }
  }

  /** The first Stop returns in this step. */
  ghost predicate JustReturned(actions: seq<Action>) {
    && actions != []
    && After(actions[..|actions| - 1]).stop == Waiting
    && After(actions).stop == Returned
  }

  /** A state without tasks in which no Listen is under way stays without tasks once stopped. */
  lemma {:induction false} QuietStaysQuiet(s: State, more: seq<Action>)
    requires Inv(s) && s.stop != NotStopped && s.wg == 0 && !InFlight(s.listen)
    ensures var t := Run(s, more);
            Inv(t) && t.stop != NotStopped && t.wg == 0 && !InFlight(t.listen)
  {
    if more != [] {
      QuietStaysQuiet(s, more[..|more| - 1]);
      NextKeeps(Run(s, more[..|more| - 1]), more[|more| - 1]);
    }
  }

  /**
   * The exact condition: after the first Stop returns, tasks can still come to
   * life exactly when an admitted Listen call had not yet returned.
   */
  lemma {:induction false} LateTasksExactly(actions: seq<Action>)
    requires JustReturned(actions)
    ensures (exists more :: Live(After(actions + more)) > 0) <==> InFlight(After(actions).listen)
  {
    var s := After(actions);
    AfterKeeps(actions[..|actions| - 1]);
    AfterKeeps(actions);
    if InFlight(s.listen) {
      var more := if s.listen == Admitted then [ListenBind(true), ListenAdd, ListenGo] else [ListenAdd, ListenGo];
      AfterConcat(actions, more);
      LateListen(s);
    } else {
      forall more
        ensures Live(After(actions + more)) == 0
      {
        AfterConcat(actions, more);
        QuietStaysQuiet(s, more);
      }
    }
  }

  /** An admitted Listen starts its accept loop whether or not Stop has returned. */
  lemma LateListen(s: State)
    requires Inv(s) && (s.listen == Admitted || s.listen == Bound)
    ensures s.listen == Admitted ==> Live(Run(s, [ListenBind(true), ListenAdd, ListenGo])) > 0
    ensures s.listen == Bound ==> Live(Run(s, [ListenAdd, ListenGo])) > 0
  {
    RunOf3(s, ListenBind(true), ListenAdd, ListenGo);
    RunOf2(s, ListenAdd, ListenGo);
  }

  lemma RunOf2(s: State, a: Action, b: Action)
    ensures Run(s, [a, b]) == Next(Next(s, a), b)
  {
    assert [a, b][..1] == [a] && [a][..0] == [];
    assert Run(s, [a]) == Next(Run(s, []), a);
  }

  lemma RunOf3(s: State, a: Action, b: Action, c: Action)
    ensures Run(s, [a, b, c]) == Next(Next(Next(s, a), b), c)
  {
    assert [a, b, c][..2] == [a, b];
    RunOf2(s, a, b);
  }

  /** Such a run exists: Stop begins and returns between Listen's admission and its first Add. */
  lemma StopCanOvertakeListen()
    ensures JustReturned([ListenCall, StopCall, StopCancel, StopClose, StopWait])
    ensures InFlight(After([ListenCall, StopCall, StopCancel, StopClose, StopWait]).listen)
  {
    RunOf3(START, ListenCall, StopCall, StopCancel);
    var three := [ListenCall, StopCall, StopCancel];
    assert [ListenCall, StopCall, StopCancel, StopClose][..3] == three;
    assert [ListenCall, StopCall, StopCancel, StopClose, StopWait][..4] == [ListenCall, StopCall, StopCancel, StopClose];
  }

  /** In every run, the first Stop returns only at a moment when no task runs or is about to. */
  lemma {:induction false} StopWaits(actions: seq<Action>)
    requires JustReturned(actions)
    ensures Live(After(actions)) == 0 && Pending(After(actions)) == 0
  {
    AfterKeeps(actions[..|actions| - 1]);
    AfterKeeps(actions);
  }

  /** After a Listen that failed to bind, no task ever runs and no Listen succeeds. */
  lemma {:induction false} FailedListenIsFinal(actions: seq<Action>, more: seq<Action>)
    requires After(actions).listen == Failed
    ensures var t := After(actions + more);
            t.listen == Failed && Live(t) == 0 && Pending(t) == 0
  {
    if more == [] {
      assert actions + more == actions;
    } else {
      var init, last := more[..|more| - 1], more[|more| - 1];
      FailedListenIsFinal(actions, init);
      OneMore(actions + init, last);
      assert actions + more == actions + init + [last];
    }
    AfterKeeps(actions + more);
  }

  // What each step starts and ends

  /** The action is possible in this state. */
  predicate Enabled(s: State, a: Action) {
    match a
    case ListenCall => s.listen == NotCalled && s.stop == NotStopped
    case ListenBind(_) => s.listen == Admitted
    case ListenAdd => s.listen == Bound
    case ListenGo => s.listen == Counted
    case StopCall => s.stop == NotStopped
    case StopCancel => s.stop == Marked
    case StopClose => s.stop == Cancelled
    case StopWait => s.stop == Waiting && s.wg == 0
    case AcceptConn => s.loop == Accepting
    case StartConn => s.loop == ConnCounted
    case LoopExit => s.loop == Accepting
    case AcceptOp => s.conns > 0
    case StartOp => s.adding > 0
    case ConnExit => s.conns > 0
    case OpExit => s.ops > 0
  }

  /** How often each action took place in a run from the start. */
  ghost function Times(actions: seq<Action>, a: Action): nat {
    if actions == [] then 0
    else
      var init, last := actions[..|actions| - 1], actions[|actions| - 1];
      Times(init, a) + if last == a && Enabled(After(init), last) then 1 else 0
  }

  /** An action that is not possible changes nothing; one that is ends or starts exactly its own task. */
  lemma TasksExactly(s: State, a: Action)
    ensures var t := Next(s, a);
            if !Enabled(s, a) then t == s
            else
              && t.conns == s.conns + (if a.StartConn? || a.StartOp? then 1 else if a.AcceptOp? || a.ConnExit? then -1 else 0)
              && t.adding == s.adding + (if a.AcceptOp? then 1 else if a.StartOp? then -1 else 0)
              && t.ops == s.ops + (if a.StartOp? then 1 else if a.OpExit? then -1 else 0)
              && t.wg == s.wg + (if a.ListenAdd? || a.AcceptConn? || a.AcceptOp? then 1
                                 else if a.LoopExit? || a.ConnExit? || a.OpExit? then -1 else 0)
              && t.listen == (match a
                              case ListenCall => Admitted
                              case ListenBind(ok) => if ok then Bound else Failed
                              case ListenAdd => Counted
                              case ListenGo => Listening
                              case _ => s.listen)
              && (t.stop != s.stop <==> a.StopCall? || a.StopCancel? || a.StopClose? || a.StopWait?)
              && (t.loop != s.loop ==> a.ListenGo? || a.AcceptConn? || a.StartConn? || a.LoopExit?)
  {
  }

  /** Conservation over every run: the WaitGroup is what was added less what was done. */
  lemma {:induction false} WaitGroupLedger(actions: seq<Action>)
    ensures After(actions).wg ==
            Times(actions, ListenAdd) + Times(actions, AcceptConn) + Times(actions, AcceptOp)
            - Times(actions, LoopExit) - Times(actions, ConnExit) - Times(actions, OpExit)
  {
    if actions != [] {
      var init, last := actions[..|actions| - 1], actions[|actions| - 1];
      hide Times, After, Next, Enabled;
      WaitGroupLedger(init);
      assert actions == init + [last];
      OneMore(init, last);
      TasksExactly(After(init), last);
      TimesAfterOne(init, last);
    }
  }

  /** Conservation over every run: the tasks running are those started less those ended. */
  lemma {:induction false} TaskLedger(actions: seq<Action>)
    ensures var s := After(actions);
            && s.conns + s.adding == Times(actions, StartConn) - Times(actions, ConnExit)
            && s.adding == Times(actions, AcceptOp) - Times(actions, StartOp)
            && s.ops == Times(actions, StartOp) - Times(actions, OpExit)
  {
    if actions != [] {
      var init, last := actions[..|actions| - 1], actions[|actions| - 1];
      hide Times, After, Next, Enabled;
      TaskLedger(init);
      assert actions == init + [last];
      OneMore(init, last);
      TasksExactly(After(init), last);
      TimesAfterOne(init, last);
    }
  }

  lemma TimesAfterOne(init: seq<Action>, last: Action)
    ensures forall a ::
              Times(init + [last], a) == Times(init, a) + if last == a && Enabled(After(init), last) then 1 else 0
  {
    hide After, Enabled;
    assert (init + [last])[..|init|] == init;
  }

  // What can still happen

  lemma OneMore(actions: seq<Action>, a: Action)
    ensures After(actions + [a]) == Next(After(actions), a)
  {
    assert (actions + [a])[..|actions|] == actions;
  }

  /** What is left to do before every task has ended. */
  function Effort(s: State): nat {
    (if s.listen == Counted then 3 else 0) + (if s.loop == ConnCounted then 3 else if s.loop == Accepting then 1 else 0) +
    3 * s.adding + s.conns + s.ops
  }

  /** Some task that runs or was counted can move towards its end. */
  function Drainer(s: State): Action {
    if s.listen == Counted then ListenGo
    else if s.loop == ConnCounted then StartConn
    else if s.loop == Accepting then LoopExit
    else if s.adding > 0 then StartOp
    else if s.conns > 0 then ConnExit
    else OpExit
  }

  lemma {:induction false} Drain(actions: seq<Action>) returns (more: seq<Action>)
    ensures actions <= more && After(more).wg == 0 && After(more).stop == After(actions).stop
    decreases Effort(After(actions))
  {
    var s := After(actions);
    AfterKeeps(actions);
    more := actions;
    if s.wg != 0 {
      var a := Drainer(s);
      OneMore(actions, a);
      hide After;
      more := Drain(actions + [a]);
    }
  }

  /** No deadlock: from every state of every run, the tasks can end and a Stop that has not returned can return. */
  lemma StopCanReturn(actions: seq<Action>) returns (more: seq<Action>)
    ensures actions <= more && After(more).stop == Returned
  {
    more := actions;
    if After(actions).stop != Returned {
      OneMore(more, StopCall);
      more := more + [StopCall];
      OneMore(more, StopCancel);
      more := more + [StopCancel];
      OneMore(more, StopClose);
      more := more + [StopClose];
      hide After;
      more := Drain(more);
      OneMore(more, StopWait);
      more := more + [StopWait];
    }
  }

  /** A listening node with these many connection and operation tasks. */
  ghost predicate Loaded(s: State, conns: nat, ops: nat) {
    s.listen == Listening && s.stop == NotStopped && s.loop == Accepting && s.conns == conns && s.ops == ops
  }

  lemma ListeningRun() returns (run: seq<Action>)
    ensures Loaded(After(run), 0, 0)
  {
    var bound := [ListenCall, ListenBind(true)];
    RunOf2(START, ListenCall, ListenBind(true));
    OneMore(bound, ListenAdd);
    OneMore(bound + [ListenAdd], ListenGo);
    run := bound + [ListenAdd] + [ListenGo];
  }

  /** No limit on the load: every number of connection and operation tasks can be running at once. */
  lemma {:induction false} AnyLoad(conns: nat, ops: nat) returns (run: seq<Action>)
    ensures Loaded(After(run), conns, ops)
    decreases ops, conns
  {
    if ops > 0 {
      run := AnyLoad(conns + 1, ops - 1);
      hide After;
      OneMore(run, AcceptOp);
      OneMore(run + [AcceptOp], StartOp);
      OneMore(run + [AcceptOp] + [StartOp], ConnExit);
      run := run + [AcceptOp] + [StartOp] + [ConnExit];
    } else if conns > 0 {
      run := AnyLoad(conns - 1, 0);
      hide After;
      OneMore(run, AcceptConn);
      OneMore(run + [AcceptConn], StartConn);
      run := run + [AcceptConn] + [StartConn];
    } else {
      run := ListeningRun();
    }
  }
}
