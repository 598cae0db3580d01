/**
 * The life of the clones that `pval_xmit` of kmod/pval_main.c makes: transmissions on several processors, the
 * timestamp workers they leave behind, and `pval_changelink` turning the two switches they read, as one machine
 * whose steps interleave freely.
 */
module TxClone {
  import opened Bytes

  /** A clone's timestamp is looked at, it is written to the ring, it is freed; or a clone that was not made is used. */
  datatype Event = Look(clone: nat) | Write(clone: nat) | Free(clone: nat) | Fault
  {
    predicate Of(c: nat) {
      !Fault? && clone == c
    }
  }

  /** A worker structure is used by its work function, or freed. A worker is named by its task. */
  datatype Use = Touch(worker: nat) | Kfree(worker: nat)

  /**
   * Where a transmission or a worker stands. `skb` is its clone pointer, null when no clone was made. A worker keeps
   * the pointer it was given and the time it was made.
   */
  datatype Task =
    | Entered
    | Unstamped
    | Sending(skb: Option<nat>)
    | Sent(skb: Option<nat>)
    | Arming(skb: Option<nat>)
    | Unarmed(skb: Option<nat>)
    | Checking(skb: Option<nat>)
    | Copying(skb: Option<nat>)
    | Copied(skb: Option<nat>)
    | Pending(skb: Option<nat>, start: nat)
    | Woken(skb: Option<nat>, start: nat, late: bool)
    | Stamped(clone: nat)
    | Recorded(clone: nat)
    | Expired(clone: nat)
    | Leaked(clone: nat)
    | Finished
    | Releasing
    | Released
    | Abandoned
  {
    /** A worker whose work function is queued or under way. */
    predicate Works() {
      Pending? || Woken? || Stamped? || Recorded? || Expired? || Releasing?
    }

    predicate IsWorker() {
      Works() || Released? || Abandoned?
    }

    /** The clone a task holds. */
    function Held(): Option<nat> {
      if Entered? || Unstamped? || Finished? || Releasing? || Released? || Abandoned? then None
      else if Stamped? || Recorded? || Expired? || Leaked? then Some(clone)
      else skb
    }

    /** The clone held may be written to the ring later. */
    predicate MayWrite() {
      !Copied? && !Recorded? && !Expired? && !Leaked?
    }
  }

  datatype State = State(txtstamp: bool, txcopy: bool, now: nat, clones: nat, tasks: seq<Task>, log: seq<Event>,
                         uses: seq<Use>)

  function Start(txtstamp: bool, txcopy: bool): State {
    State(txtstamp, txcopy, 0, 0, [], [], [])
  }

  /** `answer` is what the rest of the kernel says: cloned, sent, allocated, opened or stamped. */
  datatype Action = Tick | SetTxtstamp(on: bool) | SetTxcopy(on: bool) | Transmit | Advance(task: nat, answer: bool)

  /** One action; the timeout in jiffies is any number. */
  function Step(s: State, a: Action, timeout: nat): State {
    match a
    case Tick => s.(now := s.now + 1)
    case SetTxtstamp(on) => s.(txtstamp := on)
    case SetTxcopy(on) => s.(txcopy := on)
    case Transmit => s.(tasks := s.tasks + [Entered])
    case Advance(i, answer) =>
      if i < |s.tasks| then Advanced(s, i, answer, timeout).(uses := s.uses + UseOf(s.tasks[i], i)) else s
  }

  /** Every step of a work function reads its worker, but the last one frees it. */
  function UseOf(t: Task, i: nat): seq<Use> {
    if t.Releasing? then [Kfree(i)] else if t.Works() then [Touch(i)] else []
  }

  /** What a task does next: it moves on, does something with its clone, leaves a worker behind, or makes its clone. */
  datatype Outcome = Go(task: Task) | Do(task: Task, event: Event) | Spawn(worker: Task) | Make

  function Next(t: Task, s: State, answer: bool, timeout: nat): Outcome {
    match t
    case Entered => if !s.txtstamp then Go(Unstamped) else if answer then Make else Go(Finished)
    case Unstamped => if !s.txcopy then Go(Sending(None)) else if answer then Make else Go(Finished)
    case Sending(skb) => Go(if answer then Sent(skb) else Dropped(skb))
    case Sent(skb) => Go(if s.txtstamp then Arming(skb) else Unarmed(skb))
    case Arming(skb) => if answer then Spawn(Pending(skb, s.now)) else Go(Dropped(skb))
    case Unarmed(skb) => Go(if s.txcopy then Checking(skb) else Dropped(skb))
    case Checking(skb) => Go(if answer then Copying(skb) else Copied(skb))
    case Copying(skb) => if skb == None then Do(Finished, Fault) else Do(Copied(skb), Write(skb.value))
    case Copied(skb) => if skb == None then Go(Finished) else Do(Finished, Free(skb.value))
    case Pending(skb, start) => Go(Woken(skb, start, start + timeout < s.now))
    case Woken(skb, start, late) =>
      if skb == None then Do(Abandoned, Fault)
      else Do(if answer then Stamped(skb.value) else if late then Expired(skb.value) else Pending(skb, start), Look(skb.value))
    case Stamped(c) => Do(Recorded(c), Write(c))
    case Recorded(c) => Do(Releasing, Free(c))
    case Expired(c) => Do(Abandoned, Free(c))
    case Releasing => Go(Released)
    case Leaked(_) => Go(t)
    case Finished => Go(t)
    case Released => Go(t)
    case Abandoned => Go(t)
  }

  function Advanced(s: State, i: nat, answer: bool, timeout: nat): State
    requires i < |s.tasks|
  {
    match Next(s.tasks[i], s, answer, timeout)
    case Go(t) => Move(s, i, t)
    case Do(t, e) => Emit(s, i, t, e)
    case Spawn(w) => Schedule(s, i, w)
    case Make => Clone(s, i)
  }

  /** Where the task itself then stands. */
  function After(o: Outcome, s: State): Task {
    match o
    case Go(t) => t
    case Do(t, _) => t
    case Spawn(_) => Finished
    case Make => Sending(Some(s.clones))
  }

  /** The tasks after one action. */
  lemma TasksAfter(s: State, a: Action, timeout: nat)
    ensures var r := Step(s, a, timeout);
      if a.Advance? && a.task < |s.tasks| then
        var o := Next(s.tasks[a.task], s, a.answer, timeout);
        && r.tasks == s.tasks[a.task := After(o, s)] + (if o.Spawn? then [o.worker] else [])
        && r.log == s.log + (if o.Do? then [o.event] else [])
        && r.uses == s.uses + UseOf(s.tasks[a.task], a.task)
        && r.txtstamp == s.txtstamp && r.txcopy == s.txcopy && r.now == s.now
      else r.tasks == s.tasks + (if a.Transmit? then [Entered] else []) && r.log == s.log && r.uses == s.uses
  {
    hide Next, UseOf;
  }

  /** A transmission that returns without freeing its clone. */
  function Dropped(skb: Option<nat>): Task {
    if skb == None then Finished else Leaked(skb.value)
  }

  function Clone(s: State, i: nat): State
    requires i < |s.tasks|
  {
    s.(clones := s.clones + 1, tasks := s.tasks[i := Sending(Some(s.clones))])
  }

  function Move(s: State, i: nat, t: Task): State
    requires i < |s.tasks|
  {
    s.(tasks := s.tasks[i := t])
  }

  function Emit(s: State, i: nat, t: Task, e: Event): State
    requires i < |s.tasks|
  {
    s.(tasks := s.tasks[i := t], log := s.log + [e])
  }

  /** The transmission ends and a worker for its clone is queued. */
  function Schedule(s: State, i: nat, t: Task): State
    requires i < |s.tasks|
  {
    s.(tasks := s.tasks[i := Finished] + [t])
  }

  function Run(s: State, actions: seq<Action>, timeout: nat): State
    decreases actions
  {
    if actions == [] then s else Run(Step(s, actions[0], timeout), actions[1..], timeout)
  }

  lemma RunOneMore(s: State, a: Action, rest: seq<Action>, timeout: nat)
    ensures Run(s, [a] + rest, timeout) == Run(Step(s, a, timeout), rest, timeout)
  {
    hide Step;
    assert ([a] + rest)[1..] == rest;
  }

  lemma RunNothing(s: State, timeout: nat)
    ensures Run(s, [], timeout) == s
  {}

  lemma {:induction false} RunConcat(s: State, a: seq<Action>, b: seq<Action>, timeout: nat)
    ensures Run(s, a + b, timeout) == Run(Run(s, a, timeout), b, timeout)
    decreases a
  {
    hide Step;
    if a == [] {
      assert a + b == b;
    } else {
      RunConcat(Step(s, a[0], timeout), a[1..], b, timeout);
      assert (a + b)[1..] == a[1..] + b;
    }
  }

  // ---- What every run keeps ----

  /** Nothing happens to a clone after it is freed, and no clone is written to the ring twice. */
  predicate Safe(log: seq<Event>) {
    && (forall i, j :: 0 <= i < j < |log| && log[i].Free? ==> !log[j].Of(log[i].clone))
    && (forall i, j :: 0 <= i < j < |log| && log[i].Write? ==> log[j] != log[i])
  }

  /** No two tasks hold the same clone, and every clone held or mentioned has been made. */
  predicate OneHolder(s: State) {
    && (forall i, j :: 0 <= i < j < |s.tasks| && s.tasks[i].Held().Some? ==> s.tasks[i].Held() != s.tasks[j].Held())
    && (forall i :: 0 <= i < |s.tasks| && s.tasks[i].Held().Some? ==> s.tasks[i].Held().value < s.clones)
    && (forall e :: e in s.log && !e.Fault? ==> e.clone < s.clones)
  }

  /** A clone that is held is not freed, and is not written yet if its holder may write it. */
  predicate HeldIsWhole(s: State) {
    forall i :: 0 <= i < |s.tasks| && s.tasks[i].Held().Some? ==>
      var c := s.tasks[i].Held().value;
      Free(c) !in s.log && (s.tasks[i].MayWrite() ==> Write(c) !in s.log)
  }

  /** A clone that is not held by anyone has been freed. */
  predicate NoneForgotten(s: State) {
    forall c: nat :: c < s.clones ==>
      Free(c) in s.log || exists i :: 0 <= i < |s.tasks| && s.tasks[i].Held() == Some(c)
  }

  ghost predicate Inv(s: State) {
    Safe(s.log) && OneHolder(s) && HeldIsWhole(s) && NoneForgotten(s)
  }

  lemma TransmitKeeps(s: State)
    requires Inv(s)
    ensures Inv(s.(tasks := s.tasks + [Entered]))
  {
    hide Safe;
    var r := s.(tasks := s.tasks + [Entered]);
    forall c: nat | c < s.clones && Free(c) !in s.log
      ensures exists i :: 0 <= i < |r.tasks| && r.tasks[i].Held() == Some(c)
    {
      var i :| 0 <= i < |s.tasks| && s.tasks[i].Held() == Some(c);
      assert r.tasks[i].Held() == Some(c);
    }
  }

  lemma CloneKeeps(s: State, i: nat)
    requires Inv(s) && i < |s.tasks| && s.tasks[i].Held() == None
    ensures Inv(Clone(s, i))
  {
    hide Safe;
    var r := Clone(s, i);
    forall c: nat | c < r.clones && Free(c) !in r.log
      ensures exists k :: 0 <= k < |r.tasks| && r.tasks[k].Held() == Some(c)
    {
      if c == s.clones {
        assert r.tasks[i].Held() == Some(c);
      } else {
        var k :| 0 <= k < |s.tasks| && s.tasks[k].Held() == Some(c);
        assert r.tasks[k].Held() == Some(c);
      }
    }
  }

  /** A task that moves on with its clone, or with none. */
  lemma MoveKeeps(s: State, i: nat, t: Task)
    requires Inv(s) && i < |s.tasks|
    requires t.Held() == s.tasks[i].Held() && (t.MayWrite() && t.Held().Some? ==> s.tasks[i].MayWrite())
    ensures Inv(Move(s, i, t))
  {
    hide Safe, NoneForgotten;
    MoveNotForgotten(s, i, t);
  }

  /** A transmission that hands its clone to a new worker. */
  lemma ScheduleKeeps(s: State, i: nat, t: Task)
    requires Inv(s) && i < |s.tasks|
    requires t.Held() == s.tasks[i].Held() && (t.MayWrite() && t.Held().Some? ==> s.tasks[i].MayWrite())
    ensures Inv(Schedule(s, i, t))
  {
    hide Safe, NoneForgotten;
    MoveNotForgotten(s, i, t);
    var r := Schedule(s, i, t);
    var n := |s.tasks|;
    assert r.tasks[n] == t && r.tasks[i] == Finished;
    assert forall k :: 0 <= k < n && k != i ==> r.tasks[k] == s.tasks[k];
  }

  lemma MoveNotForgotten(s: State, i: nat, t: Task)
    requires NoneForgotten(s) && i < |s.tasks| && t.Held() == s.tasks[i].Held()
    ensures NoneForgotten(Move(s, i, t)) && NoneForgotten(Schedule(s, i, t))
  {
    var r, q := Move(s, i, t), Schedule(s, i, t);
    forall c: nat | c < s.clones && Free(c) !in s.log
      ensures exists k :: 0 <= k < |r.tasks| && r.tasks[k].Held() == Some(c)
      ensures exists k :: 0 <= k < |q.tasks| && q.tasks[k].Held() == Some(c)
    {
      var k :| 0 <= k < |s.tasks| && s.tasks[k].Held() == Some(c);
      assert r.tasks[k].Held() == Some(c);
      assert q.tasks[if k == i then |s.tasks| else k].Held() == Some(c);
    }
  }

  lemma SafeAfter(log: seq<Event>, e: Event)
    requires Safe(log) && (!e.Fault? ==> Free(e.clone) !in log) && (e.Write? ==> e !in log)
    ensures Safe(log + [e])
  {}

  /** A task that does something with its clone; it gives the clone up exactly when it frees it. */
  lemma EmitKeeps(s: State, i: nat, t: Task, e: Event)
    requires Inv(s) && i < |s.tasks| && !e.Fault? && s.tasks[i].Held() == Some(e.clone)
    requires t.Held() == if e.Free? then None else Some(e.clone)
    requires e.Write? ==> s.tasks[i].MayWrite() && !t.MayWrite()
    requires t.MayWrite() && t.Held().Some? ==> s.tasks[i].MayWrite()
    ensures Inv(Emit(s, i, t, e))
  {
    hide Safe, NoneForgotten;
    SafeAfter(s.log, e);
    EmitNotForgotten(s, i, t, e);
  }

  lemma EmitNotForgotten(s: State, i: nat, t: Task, e: Event)
    requires NoneForgotten(s) && i < |s.tasks| && (e.Fault? || s.tasks[i].Held() == Some(e.clone))
    requires t.Held() == if e.Free? then None else s.tasks[i].Held()
    ensures NoneForgotten(Emit(s, i, t, e))
  {
    var r := Emit(s, i, t, e);
    forall c: nat | c < r.clones && Free(c) !in r.log
      ensures exists k :: 0 <= k < |r.tasks| && r.tasks[k].Held() == Some(c)
    {
      assert e in r.log && forall f :: f in s.log ==> f in r.log;
      var k :| 0 <= k < |s.tasks| && s.tasks[k].Held() == Some(c);
      assert r.tasks[k].Held() == Some(c);
    }
  }

  lemma FaultKeeps(s: State, i: nat, t: Task)
    requires Inv(s) && i < |s.tasks| && s.tasks[i].Held() == t.Held() == None
    ensures Inv(Emit(s, i, t, Fault))
  {
    hide Safe, NoneForgotten;
    SafeAfter(s.log, Fault);
    EmitNotForgotten(s, i, t, Fault);
  }

  lemma UsesKeep(s: State, uses: seq<Use>)
    requires Inv(s)
    ensures Inv(s.(uses := uses))
  {}

  lemma SettingsKeep(s: State, a: Action, timeout: nat)
    requires Inv(s) && (a.Tick? || a.SetTxtstamp? || a.SetTxcopy?)
    ensures Inv(Step(s, a, timeout))
  {}

  lemma StepKeeps(s: State, a: Action, timeout: nat)
    requires Inv(s)
    ensures Inv(Step(s, a, timeout))
  {
    hide Inv, Advanced;
    match a
    case Tick => SettingsKeep(s, a, timeout);
    case SetTxtstamp(_) => SettingsKeep(s, a, timeout);
    case SetTxcopy(_) => SettingsKeep(s, a, timeout);
    case Transmit => TransmitKeeps(s);
    case Advance(i, answer) =>
      if i < |s.tasks| {
        AdvanceKeeps(s, i, answer, timeout);
        UsesKeep(Advanced(s, i, answer, timeout), s.uses + UseOf(s.tasks[i], i));
      }
  }

  /** A task keeps its clone, hands it on, or frees it; it looks at, writes and frees only its own; and it writes once. */
  ghost predicate Lawful(t: Task, o: Outcome) {
    match o
    case Make => t.Held() == None
    case Go(u) => u.Held() == t.Held() && (u.MayWrite() && u.Held().Some? ==> t.MayWrite())
    case Spawn(w) => w.Held() == t.Held() && (w.MayWrite() && w.Held().Some? ==> t.MayWrite())
    case Do(u, e) =>
      if e.Fault? then t.Held() == u.Held() == None
      else
        && t.Held() == Some(e.clone) && u.Held() == (if e.Free? then None else Some(e.clone))
        && (e.Write? ==> t.MayWrite() && !u.MayWrite())
        && (u.MayWrite() && u.Held().Some? ==> t.MayWrite())
  }

  lemma NextIsLawful(t: Task, s: State, answer: bool, timeout: nat)
    ensures Lawful(t, Next(t, s, answer, timeout))
  {}

  lemma AdvanceKeeps(s: State, i: nat, answer: bool, timeout: nat)
    requires Inv(s) && i < |s.tasks|
    ensures Inv(Advanced(s, i, answer, timeout))
  {
    hide Inv, Move, Emit, Schedule, Clone, Next;
    NextIsLawful(s.tasks[i], s, answer, timeout);
    match Next(s.tasks[i], s, answer, timeout)
    case Go(t) => MoveKeeps(s, i, t);
    case Do(t, e) => if e.Fault? { FaultKeeps(s, i, t); } else { EmitKeeps(s, i, t, e); }
    case Spawn(w) => ScheduleKeeps(s, i, w);
    case Make => CloneKeeps(s, i);
  }

  lemma {:induction false} RunKeeps(s: State, actions: seq<Action>, timeout: nat)
    requires Inv(s)
    ensures Inv(Run(s, actions, timeout))
    decreases actions
  {
    hide Inv, Step;
    if actions != [] {
      StepKeeps(s, actions[0], timeout);
      RunKeeps(Step(s, actions[0], timeout), actions[1..], timeout);
    }
  }

  lemma StartIsSound(txtstamp: bool, txcopy: bool)
    ensures Inv(Start(txtstamp, txcopy))
  {}

  /** Every run: no clone is used after it is freed, freed twice or written twice. */
  lemma RunIsSafe(txtstamp: bool, txcopy: bool, actions: seq<Action>, timeout: nat)
    ensures Safe(Run(Start(txtstamp, txcopy), actions, timeout).log)
  {
    hide Run, Safe;
    StartIsSound(txtstamp, txcopy);
    RunKeeps(Start(txtstamp, txcopy), actions, timeout);
  }

  /** Every clone made is either freed and held by no task, or not freed and held by exactly one. */
  lemma ClonesAccounted(txtstamp: bool, txcopy: bool, actions: seq<Action>, timeout: nat, c: nat)
    requires c < Run(Start(txtstamp, txcopy), actions, timeout).clones
    ensures var s := Run(Start(txtstamp, txcopy), actions, timeout);
      Free(c) in s.log <==> !exists i :: 0 <= i < |s.tasks| && s.tasks[i].Held() == Some(c)
    ensures var s := Run(Start(txtstamp, txcopy), actions, timeout);
      forall i, j :: 0 <= i < |s.tasks| && 0 <= j < |s.tasks| && s.tasks[i].Held() == s.tasks[j].Held() == Some(c) ==> i == j
  {
    hide Run, Safe;
    StartIsSound(txtstamp, txcopy);
    RunKeeps(Start(txtstamp, txcopy), actions, timeout);
  }

  // ---- Workers past their deadline ----

  /** A worker that has run late, or is on its way to free its clone. */
  predicate Retired(t: Task) {
    (t.Woken? && t.late) || (t.IsWorker() && !t.Pending? && !t.Woken?)
  }

  lemma NextKeeps(t: Task, s: State, answer: bool, timeout: nat)
    ensures Keeps(t, After(Next(t, s, answer, timeout), s))
  {}

  lemma StepKeepsTask(s: State, a: Action, timeout: nat, i: nat)
    requires i < |s.tasks|
    ensures var r := Step(s, a, timeout);
      i < |r.tasks| && Keeps(s.tasks[i], r.tasks[i])
  {
    hide Step, Next;
    TasksAfter(s, a, timeout);
    if a.Advance? && a.task == i {
      NextKeeps(s.tasks[i], s, a.answer, timeout);
    }
  }

  /** What no step of a task takes back. */
  predicate Keeps(t: Task, u: Task) {
    (Retired(t) ==> Retired(u)) && (t.Leaked? ==> u == t) && (Doomed(t) ==> Doomed(u)) && (t.IsWorker() <==> u.IsWorker())
  }

  lemma {:induction false} RunKeepsTask(s: State, actions: seq<Action>, timeout: nat, i: nat)
    requires i < |s.tasks|
    ensures var r := Run(s, actions, timeout); i < |r.tasks| && Keeps(s.tasks[i], r.tasks[i])
    decreases actions
  {
    hide Step, Retired, Doomed;
    if actions != [] {
      StepKeepsTask(s, actions[0], timeout, i);
      RunKeepsTask(Step(s, actions[0], timeout), actions[1..], timeout, i);
    }
  }

  /** A worker that will not be freed: late without a stamp, or without a clone to look at. */
  predicate Doomed(t: Task) {
    t.Expired? || t.Abandoned? || ((t.Pending? || t.Woken?) && t.skb == None)
  }

  /** A worker that runs past its deadline is never queued again, whatever it finds and whatever happens after. */
  lemma RetiredForever(s: State, i: nat, answer: bool, actions: seq<Action>, timeout: nat)
    requires i < |s.tasks| && s.tasks[i].Pending? && s.now > s.tasks[i].start + timeout
    ensures var r := Run(s, [Advance(i, answer)] + actions, timeout); i < |r.tasks| && !r.tasks[i].Pending?
  {
    var woken := Step(s, Advance(i, answer), timeout);
    assert Retired(woken.tasks[i]);
    RunOneMore(s, Advance(i, answer), actions, timeout);
    RunKeepsTask(woken, actions, timeout, i);
  }

  // ---- Clones that are lost ----

  /** The three ways to lose a clone: the lower device refuses, no memory for a worker, or both switches off by now. */
  predicate Loses(s: State, a: Action, c: nat) {
    a.Advance? && a.task < |s.tasks| && LosesTask(s.tasks[a.task], s, a.answer, c)
  }

  predicate LosesTask(t: Task, s: State, answer: bool, c: nat) {
    || (t == Sending(Some(c)) && !answer)
    || (t == Arming(Some(c)) && !answer)
    || (t == Unarmed(Some(c)) && !s.txcopy)
  }

  predicate IsLost(s: State, c: nat) {
    exists i :: 0 <= i < |s.tasks| && s.tasks[i] == Leaked(c)
  }

  lemma NextLoses(t: Task, s: State, answer: bool, timeout: nat, c: nat)
    ensures var o := Next(t, s, answer, timeout);
      && (After(o, s) == Leaked(c) <==> t == Leaked(c) || LosesTask(t, s, answer, c))
      && (o.Spawn? ==> o.worker != Leaked(c))
  {}

  lemma StepLoses(s: State, a: Action, timeout: nat, c: nat)
    ensures IsLost(Step(s, a, timeout), c) <==> IsLost(s, c) || Loses(s, a, c)
  {
    hide Step, Next, LosesTask;
    var r := Step(s, a, timeout);
    TasksAfter(s, a, timeout);
    if a.Advance? && a.task < |s.tasks| {
      NextLoses(s.tasks[a.task], s, a.answer, timeout, c);
      assert forall k :: 0 <= k < |s.tasks| && k != a.task ==> r.tasks[k] == s.tasks[k];
      assert r.tasks[a.task] == After(Next(s.tasks[a.task], s, a.answer, timeout), s);
    } else {
      assert forall k :: 0 <= k < |s.tasks| ==> r.tasks[k] == s.tasks[k];
    }
  }

  /** Over a run a clone is lost exactly when some step lost it. */
  lemma {:induction false} RunLoses(s: State, actions: seq<Action>, timeout: nat, c: nat)
    ensures IsLost(Run(s, actions, timeout), c) <==>
      IsLost(s, c) || exists k :: 0 <= k < |actions| && Loses(Run(s, actions[..k], timeout), actions[k], c)
    decreases actions
  {
    hide Step, IsLost, Loses;
    if actions != [] {
      var next, rest := Step(s, actions[0], timeout), actions[1..];
      StepLoses(s, actions[0], timeout, c);
      RunLoses(next, rest, timeout, c);
      PrefixesFrom(s, actions, timeout);
      if k :| 0 <= k < |rest| && Loses(Run(next, rest[..k], timeout), rest[k], c) {
        assert Loses(Run(s, actions[..k + 1], timeout), actions[k + 1], c);
      }
      if k :| 0 <= k < |actions| && Loses(Run(s, actions[..k], timeout), actions[k], c) {
        assert k > 0 ==> Loses(Run(next, rest[..k - 1], timeout), rest[k - 1], c);
      }
    }
  }

  /** A clone that is lost is never freed. */
  lemma LeakedForever(s: State, actions: seq<Action>, timeout: nat, c: nat)
    requires Inv(s) && IsLost(s, c)
    ensures Free(c) !in Run(s, actions, timeout).log
  {
    hide Run, Safe;
    var i :| 0 <= i < |s.tasks| && s.tasks[i] == Leaked(c);
    RunKeeps(s, actions, timeout);
    RunKeepsTask(s, actions, timeout, i);
  }

  /** How many steps a task is from its end. */
  function Rank(t: Task): nat {
    match t
    case Entered => 14
    case Unstamped => 13
    case Sending(_) => 12
    case Sent(_) => 11
    case Arming(_) => 10
    case Unarmed(_) => 10
    case Checking(_) => 9
    case Copying(_) => 8
    case Copied(_) => 7
    case Pending(_, _) => 6
    case Woken(_, _, _) => 5
    case Stamped(_) => 4
    case Recorded(_) => 3
    case Expired(_) => 3
    case Releasing => 2
    case Leaked(_) => 0
    case Finished => 0
    case Released => 0
    case Abandoned => 0
  }

  /** The last step of a holder frees the clone. */
  predicate FreesNext(t: Task) {
    t.Copied? || t.Recorded? || t.Expired?
  }

  /** The action that brings a holder nearer to its end. */
  function Push(t: Task, s: State, i: nat): Action {
    if t.Unarmed? && !s.txcopy then SetTxcopy(true) else Advance(i, true)
  }

  lemma NextIsNearer(t: Task, s: State, timeout: nat, c: nat)
    requires t.Held() == Some(c) && !t.Leaked? && !FreesNext(t) && (t.Unarmed? ==> s.txcopy)
    ensures var o := Next(t, s, true, timeout);
      var u := if o.Spawn? then o.worker else After(o, s);
      u.Held() == Some(c) && !u.Leaked? && Rank(u) < Rank(t)
  {}

  /** The step that brings a holder nearer to its end, and the task that then holds the clone. */
  lemma Nearer(s: State, i: nat, timeout: nat, c: nat) returns (a: Action, j: nat)
    requires i < |s.tasks| && s.tasks[i].Held() == Some(c) && !s.tasks[i].Leaked? && !FreesNext(s.tasks[i])
    ensures var r := Step(s, a, timeout);
      && j < |r.tasks| && r.tasks[j].Held() == Some(c) && !r.tasks[j].Leaked?
      && (Rank(r.tasks[j]) < Rank(s.tasks[i]) || (r.tasks[j] == s.tasks[i] && r.txcopy && !s.txcopy))
  {
    hide Next, Rank, FreesNext, Advanced;
    var t := s.tasks[i];
    a, j := Push(t, s, i), i;
    TasksAfter(s, a, timeout);
    if a.Advance? {
      NextIsNearer(t, s, timeout, c);
      if Next(t, s, true, timeout).Spawn? {
        j := |s.tasks|;
      }
    }
  }

  lemma LastStepFrees(s: State, i: nat, timeout: nat, c: nat)
    requires i < |s.tasks| && s.tasks[i].Held() == Some(c) && FreesNext(s.tasks[i])
    ensures Free(c) in Step(s, Advance(i, true), timeout).log
  {
    assert Free(c) == Step(s, Advance(i, true), timeout).log[|s.log|];
  }

  /** A clone that is held and not lost can still be freed. */
  lemma {:induction false} FreeingRun(s: State, i: nat, timeout: nat, c: nat) returns (more: seq<Action>)
    requires i < |s.tasks| && s.tasks[i].Held() == Some(c) && !s.tasks[i].Leaked?
    ensures Free(c) in Run(s, more, timeout).log
    decreases Rank(s.tasks[i]), if s.txcopy then 0 else 1
  {
    hide Run, Step, Rank, FreesNext;
    var a, j := Advance(i, true), i;
    if FreesNext(s.tasks[i]) {
      LastStepFrees(s, i, timeout, c);
      more := [];
      RunNothing(Step(s, a, timeout), timeout);
    } else {
      a, j := Nearer(s, i, timeout, c);
      more := FreeingRun(Step(s, a, timeout), j, timeout, c);
    }
    RunOneMore(s, a, more, timeout);
    more := [a] + more;
  }

  /**
   * The clones that no continuation of a run frees are exactly those that the run lost: by a refused packet, by a
   * worker that could not be allocated, or by both switches being off when they are read again.
   */
  lemma NeverFreedIff(txtstamp: bool, txcopy: bool, actions: seq<Action>, timeout: nat, c: nat)
    requires c < Run(Start(txtstamp, txcopy), actions, timeout).clones
    ensures (forall more :: Free(c) !in Run(Run(Start(txtstamp, txcopy), actions, timeout), more, timeout).log) <==>
      exists k :: 0 <= k < |actions| && Loses(Run(Start(txtstamp, txcopy), actions[..k], timeout), actions[k], c)
  {
    hide Run, Safe, OneHolder, HeldIsWhole, Loses;
    var start := Start(txtstamp, txcopy);
    var s := Run(start, actions, timeout);
    StartIsSound(txtstamp, txcopy);
    RunKeeps(start, actions, timeout);
    RunLoses(start, actions, timeout, c);
    if IsLost(s, c) {
      forall more ensures Free(c) !in Run(s, more, timeout).log {
        LeakedForever(s, more, timeout, c);
      }
    } else if Free(c) in s.log {
      RunNothing(s, timeout);
    } else {
      var i :| 0 <= i < |s.tasks| && s.tasks[i].Held() == Some(c);
      var more := FreeingRun(s, i, timeout, c);
    }
  }

  /** A run one action longer. */
  lemma RunLast(s: State, actions: seq<Action>, a: Action, timeout: nat)
    ensures Run(s, actions + [a], timeout) == Step(Run(s, actions, timeout), a, timeout)
  {
    hide Step;
    RunConcat(s, actions, [a], timeout);
    RunOneMore(Run(s, actions, timeout), a, [], timeout);
    assert [a] + [] == [a];
  }

  const CLONED := [Transmit, Advance(0, true)]

  lemma AfterClone(timeout: nat)
    ensures Run(Start(true, false), CLONED, timeout) == State(true, false, 0, 1, [Sending(Some(0))], [], [])
  {
    var start := Start(true, false);
    RunNothing(start, timeout);
    RunLast(start, [], Transmit, timeout);
    RunLast(start, [Transmit], Advance(0, true), timeout);
    assert [] + [Transmit] == [Transmit] && [Transmit] + [Advance(0, true)] == CLONED;
  }

  /** A first packet that the lower device refuses loses its clone. */
  lemma RefusedLoses(timeout: nat, more: seq<Action>)
    ensures var s := Run(Start(true, false), CLONED + [Advance(0, false)], timeout);
      s.clones == 1 && Free(0) !in Run(s, more, timeout).log
  {
    hide Run;
    AfterClone(timeout);
    RunLast(Start(true, false), CLONED, Advance(0, false), timeout);
    var s := Run(Start(true, false), CLONED + [Advance(0, false)], timeout);
    assert s.tasks[0] == Leaked(0);
    StartIsSound(true, false);
    RunKeeps(Start(true, false), CLONED + [Advance(0, false)], timeout);
    LeakedForever(s, more, timeout, 0);
  }

  /** So does one whose switches are turned off between the two reads. */
  lemma SwitchedOffLoses(timeout: nat, more: seq<Action>)
    ensures var tail := [SetTxtstamp(false), Advance(0, true), Advance(0, true), Advance(0, true)];
      var s := Run(Start(true, false), CLONED + tail, timeout);
      s.clones == 1 && Free(0) !in Run(s, more, timeout).log
  {
    hide Run;
    var start := Start(true, false);
    var one, two := CLONED + [SetTxtstamp(false)], CLONED + [SetTxtstamp(false), Advance(0, true)];
    var three := CLONED + [SetTxtstamp(false), Advance(0, true), Advance(0, true)];
    var four := CLONED + [SetTxtstamp(false), Advance(0, true), Advance(0, true), Advance(0, true)];
    assert one + [Advance(0, true)] == two && two + [Advance(0, true)] == three && three + [Advance(0, true)] == four;
    AfterClone(timeout);
    RunLast(start, CLONED, SetTxtstamp(false), timeout);
    RunLast(start, one, Advance(0, true), timeout);
    RunLast(start, two, Advance(0, true), timeout);
    RunLast(start, three, Advance(0, true), timeout);
    var s := Run(start, four, timeout);
    assert s.tasks[0] == Leaked(0);
    StartIsSound(true, false);
    RunKeeps(start, four, timeout);
    LeakedForever(s, more, timeout, 0);
  }

  // ---- Clones that were never made ----

  predicate SwitchesStay(actions: seq<Action>) {
    forall a :: a in actions ==> !a.SetTxtstamp? && !a.SetTxcopy?
  }

  /** A task without a clone that, with the switches as they are, is on its way to use one. */
  predicate Bound(s: State, t: Task) {
    || ((t.Arming? || t.Checking? || t.Copying? || t.Pending? || t.Woken?) && t.skb == None)
    || ((t.Sending? || t.Sent?) && t.skb == None && (s.txtstamp || s.txcopy))
    || (t.Unarmed? && t.skb == None && s.txcopy)
    || (t.Unstamped? && s.txtstamp && !s.txcopy)
  }

  predicate Unbound(s: State) {
    forall i :: 0 <= i < |s.tasks| ==> !Bound(s, s.tasks[i])
  }

  lemma NextStaysUnbound(t: Task, s: State, answer: bool, timeout: nat)
    requires !Bound(s, t)
    ensures var o := Next(t, s, answer, timeout);
      !Bound(s, After(o, s)) && (o.Spawn? ==> !Bound(s, o.worker)) && (o.Do? ==> o.event != Fault)
  {}

  lemma OnlySwitchesBind(s: State, r: State, t: Task)
    requires r.txtstamp == s.txtstamp && r.txcopy == s.txcopy
    ensures Bound(r, t) == Bound(s, t)
  {}

  lemma StepStaysUnbound(s: State, a: Action, timeout: nat)
    requires Unbound(s) && !a.SetTxtstamp? && !a.SetTxcopy?
    ensures Unbound(Step(s, a, timeout)) && (Fault in Step(s, a, timeout).log ==> Fault in s.log)
  {
    hide Next, Bound, Advanced, UseOf;
    var r := Step(s, a, timeout);
    TasksAfter(s, a, timeout);
    if a.Advance? && a.task < |s.tasks| {
      NextStaysUnbound(s.tasks[a.task], s, a.answer, timeout);
    }
    assert r.txtstamp == s.txtstamp && r.txcopy == s.txcopy;
    forall k | 0 <= k < |r.tasks| ensures !Bound(r, r.tasks[k]) {
      OnlySwitchesBind(s, r, r.tasks[k]);
      if !(a.Advance? && a.task < |s.tasks|) && k == |s.tasks| {
        EnteredIsUnbound(s);
      }
    }
  }

  lemma EnteredIsUnbound(s: State)
    ensures !Bound(s, Entered)
  {}

  lemma {:induction false} RunStaysUnbound(s: State, actions: seq<Action>, timeout: nat)
    requires Unbound(s) && SwitchesStay(actions)
    ensures Fault in Run(s, actions, timeout).log ==> Fault in s.log
    decreases actions
  {
    hide Step, Unbound;
    if actions != [] {
      StepStaysUnbound(s, actions[0], timeout);
      RunStaysUnbound(Step(s, actions[0], timeout), actions[1..], timeout);
    }
  }

  lemma {:induction false} FaultingRun(s: State, i: nat, timeout: nat) returns (more: seq<Action>)
    requires i < |s.tasks| && Bound(s, s.tasks[i])
    ensures SwitchesStay(more) && Fault in Run(s, more, timeout).log
    decreases Rank(s.tasks[i])
  {
    hide Run;
    var t := s.tasks[i];
    var next := Step(s, Advance(i, true), timeout);
    if t.Copying? || t.Woken? {
      assert Fault == next.log[|s.log|];
      more := [];
      RunNothing(next, timeout);
    } else if t.Arming? {
      assert next.tasks[|s.tasks|] == Pending(None, s.now);
      more := FaultingRun(next, |s.tasks|, timeout);
    } else {
      more := FaultingRun(next, i, timeout);
    }
    RunOneMore(s, Advance(i, true), more, timeout);
    more := [Advance(i, true)] + more;
  }

  /** While the switches stay as they are, a null clone can come to be used exactly when some task is bound for it. */
  lemma FaultIff(s: State, timeout: nat)
    requires Fault !in s.log
    ensures (exists more :: SwitchesStay(more) && Fault in Run(s, more, timeout).log) <==> !Unbound(s)
  {
    hide Run, Bound;
    if Unbound(s) {
      forall more | SwitchesStay(more) ensures Fault !in Run(s, more, timeout).log {
        RunStaysUnbound(s, more, timeout);
      }
    } else {
      var i :| 0 <= i < |s.tasks| && Bound(s, s.tasks[i]);
      var more := FaultingRun(s, i, timeout);
    }
  }

  /** Switches that never change make no such use possible, in any run. */
  lemma SteadySwitchesNoFault(txtstamp: bool, txcopy: bool, actions: seq<Action>, timeout: nat)
    requires SwitchesStay(actions)
    ensures Fault !in Run(Start(txtstamp, txcopy), actions, timeout).log
  {
    hide Run;
    RunStaysUnbound(Start(txtstamp, txcopy), actions, timeout);
  }

  /** A switch turned on after a packet passed the first read is enough. */
  lemma LateSwitchFaults(timeout: nat) returns (more: seq<Action>)
    ensures var begin := [Transmit, Advance(0, true), Advance(0, true), SetTxcopy(true)];
      SwitchesStay(more) && Fault in Run(Start(false, false), begin + more, timeout).log
  {
    hide Run;
    var start := Start(false, false);
    var one, two := [Transmit], [Transmit, Advance(0, true)];
    var three, four := two + [Advance(0, true)], two + [Advance(0, true), SetTxcopy(true)];
    assert [] + [Transmit] == one && one + [Advance(0, true)] == two && three + [SetTxcopy(true)] == four;
    RunNothing(start, timeout);
    RunLast(start, [], Transmit, timeout);
    RunLast(start, one, Advance(0, true), timeout);
    RunLast(start, two, Advance(0, true), timeout);
    RunLast(start, three, SetTxcopy(true), timeout);
    var s := Run(start, four, timeout);
    assert s.tasks[0] == Sending(None) && s.txcopy;
    more := FaultingRun(s, 0, timeout);
    RunConcat(start, four, more, timeout);
    assert four == [Transmit, Advance(0, true), Advance(0, true), SetTxcopy(true)];
  }

  // ---- What becomes of a clone ----

  /** One step of task `i`. */
  lemma TaskStep(s: State, i: nat, answer: bool, timeout: nat)
    requires i < |s.tasks|
    ensures var r, o := Step(s, Advance(i, answer), timeout), Next(s.tasks[i], s, answer, timeout);
      && i < |r.tasks| && r.tasks[i] == After(o, s) && r.now == s.now && r.txcopy == s.txcopy
      && r.log == s.log + (if o.Do? then [o.event] else []) && r.uses == s.uses + UseOf(s.tasks[i], i)
  {
    hide Step, Next, UseOf;
    TasksAfter(s, Advance(i, answer), timeout);
  }

  /**
   * A worker that finds a stamp, or is late, frees its clone in its next steps, and writes it exactly if stamped; the
   * worker itself is freed exactly if stamped.
   */
  lemma WorkerOutcome(s: State, i: nat, c: nat, stamped: bool, timeout: nat)
    requires i < |s.tasks| && s.tasks[i].Pending? && s.tasks[i].skb == Some(c)
    requires stamped || s.now > s.tasks[i].start + timeout
    ensures var a := Advance(i, true);
      var r := Run(s, [a, Advance(i, stamped), a, a, a], timeout);
      && i < |r.tasks| && r.tasks[i] == (if stamped then Released else Abandoned)
      && r.log == s.log + (if stamped then [Look(c), Write(c), Free(c)] else [Look(c), Free(c)])
      && r.uses == s.uses + [Touch(i), Touch(i), Touch(i)] + (if stamped then [Touch(i), Kfree(i)] else [])
  {
    hide Step, Run;
    var a := Advance(i, true);
    var woken := Step(s, a, timeout);
    var looked := Step(woken, Advance(i, stamped), timeout);
    var third := Step(looked, a, timeout);
    var fourth := Step(third, a, timeout);
    TaskStep(s, i, true, timeout);
    TaskStep(woken, i, stamped, timeout);
    TaskStep(looked, i, true, timeout);
    TaskStep(third, i, true, timeout);
    TaskStep(fourth, i, true, timeout);
    FourSteps(woken, Advance(i, stamped), a, a, a, timeout);
    RunOneMore(s, a, [Advance(i, stamped), a, a, a], timeout);
    assert [a] + [Advance(i, stamped), a, a, a] == [a, Advance(i, stamped), a, a, a];
  }

  /** A worker in time that finds no stamp has only looked, and waits again with the same deadline. */
  lemma WorkerWaits(s: State, i: nat, c: nat, timeout: nat)
    requires i < |s.tasks| && s.tasks[i].Pending? && s.tasks[i].skb == Some(c)
    requires s.now <= s.tasks[i].start + timeout
    ensures Step(Step(s, Advance(i, true), timeout), Advance(i, false), timeout)
         == s.(log := s.log + [Look(c)], uses := s.uses + [Touch(i), Touch(i)])
  {
    var t := s.tasks[i];
    assert s.tasks[i := Woken(t.skb, t.start, false)][i := t] == s.tasks;
  }

  /** Without timestamping the transmission itself frees its clone, and writes it exactly if the device is open. */
  lemma CopyOutcome(s: State, i: nat, c: nat, isOpen: bool, timeout: nat)
    requires i < |s.tasks| && s.tasks[i] == Unarmed(Some(c)) && s.txcopy
    ensures var r := Run(s, [Advance(i, true), Advance(i, isOpen), Advance(i, true), Advance(i, true)], timeout);
      i < |r.tasks| && r.tasks[i] == Finished && r.log == s.log + if isOpen then [Write(c), Free(c)] else [Free(c)]
  {
    hide Step, Run;
    var a := Advance(i, true);
    var first := Step(s, a, timeout);
    var second := Step(first, Advance(i, isOpen), timeout);
    var third := Step(second, a, timeout);
    TaskStep(s, i, true, timeout);
    TaskStep(first, i, isOpen, timeout);
    TaskStep(second, i, true, timeout);
    TaskStep(third, i, true, timeout);
    FourSteps(s, a, Advance(i, isOpen), a, a, timeout);
  }

  lemma FourSteps(s: State, a: Action, b: Action, c: Action, d: Action, timeout: nat)
    ensures Run(s, [a, b, c, d], timeout)
         == Step(Step(Step(Step(s, a, timeout), b, timeout), c, timeout), d, timeout)
  {
    hide Step, Run;
    assert [a, b, c, d] == [a] + [b, c, d] && [b, c, d] == [b] + [c, d] && [c, d] == [c] + [d] && [d] == [d] + [];
    var p := Step(s, a, timeout);
    var q := Step(p, b, timeout);
    var r := Step(q, c, timeout);
    RunOneMore(s, a, [b, c, d], timeout);
    RunOneMore(p, b, [c, d], timeout);
    RunOneMore(q, c, [d], timeout);
    RunOneMore(r, d, [], timeout);
    RunNothing(Step(r, d, timeout), timeout);
  }

  // ---- Worker structures ----

  /** Nothing uses or frees a worker after it is freed. */
  predicate WorkersSafe(uses: seq<Use>) {
    forall i, j :: 0 <= i < j < |uses| && uses[i].Kfree? ==> uses[j].worker != uses[i].worker
  }

  /** Only workers are used, and the freed ones are those that were released. */
  ghost predicate WorkerInv(s: State) {
    && WorkersSafe(s.uses)
    && (forall u :: u in s.uses ==> u.worker < |s.tasks| && s.tasks[u.worker].IsWorker())
    && (forall i: nat :: Kfree(i) in s.uses <==> i < |s.tasks| && s.tasks[i] == Released)
  }

  lemma NextReleases(t: Task, s: State, answer: bool, timeout: nat)
    ensures var o := Next(t, s, answer, timeout);
      && (After(o, s) == Released <==> t.Releasing? || t.Released?)
      && (o.Spawn? ==> o.worker != Released)
  {}

  lemma UseKeepsSafe(uses: seq<Use>, more: seq<Use>, i: nat)
    requires WorkersSafe(uses) && |more| <= 1 && (more != [] ==> more[0].worker == i && Kfree(i) !in uses)
    ensures WorkersSafe(uses + more)
  {}

  lemma StepKeepsWorkers(s: State, a: Action, timeout: nat)
    requires WorkerInv(s)
    ensures WorkerInv(Step(s, a, timeout))
  {
    hide Step, Next, WorkersSafe;
    var r := Step(s, a, timeout);
    TasksAfter(s, a, timeout);
    if a.Advance? && a.task < |s.tasks| {
      var i := a.task;
      NextReleases(s.tasks[i], s, a.answer, timeout);
      NextKeeps(s.tasks[i], s, a.answer, timeout);
      UseKeepsSafe(s.uses, UseOf(s.tasks[i], i), i);
      assert forall k :: 0 <= k < |s.tasks| && k != i ==> r.tasks[k] == s.tasks[k];
    } else {
      assert forall k :: 0 <= k < |s.tasks| ==> r.tasks[k] == s.tasks[k];
    }
  }

  lemma StartHasNoWorkers(txtstamp: bool, txcopy: bool)
    ensures WorkerInv(Start(txtstamp, txcopy))
  {}

  lemma {:induction false} RunKeepsWorkers(s: State, actions: seq<Action>, timeout: nat)
    requires WorkerInv(s)
    ensures WorkerInv(Run(s, actions, timeout))
    decreases actions
  {
    hide WorkerInv, Step;
    if actions != [] {
      StepKeepsWorkers(s, actions[0], timeout);
      RunKeepsWorkers(Step(s, actions[0], timeout), actions[1..], timeout);
    }
  }

  /** Every run: no worker is freed twice, or used after it is freed. */
  lemma WorkersAreSafe(txtstamp: bool, txcopy: bool, actions: seq<Action>, timeout: nat)
    ensures WorkersSafe(Run(Start(txtstamp, txcopy), actions, timeout).uses)
  {
    hide Run;
    RunKeepsWorkers(Start(txtstamp, txcopy), actions, timeout);
  }

  /** The two ways to lose a worker: it finds itself late without a stamp, or it is made without a clone. */
  predicate LosesWorker(s: State, a: Action, i: nat) {
    && a.Advance? && a.task < |s.tasks|
    && var t := s.tasks[a.task];
       || (a.task == i && IsLate(t) && !a.answer)
       || (i == |s.tasks| && t == Arming(None) && a.answer)
  }

  predicate IsLate(t: Task) {
    t.Woken? && t.skb.Some? && t.late
  }

  predicate IsDoomed(s: State, i: nat) {
    i < |s.tasks| && Doomed(s.tasks[i])
  }

  lemma NextDooms(t: Task, s: State, answer: bool, timeout: nat)
    ensures var o := Next(t, s, answer, timeout);
      && (Doomed(After(o, s)) <==> Doomed(t) || (IsLate(t) && !answer))
      && (o.Spawn? && Doomed(o.worker) <==> t == Arming(None) && answer)
  {}

  lemma StepDooms(s: State, a: Action, timeout: nat, i: nat)
    ensures IsDoomed(Step(s, a, timeout), i) <==> IsDoomed(s, i) || LosesWorker(s, a, i)
  {
    hide Step, Next, IsLate;
    TasksAfter(s, a, timeout);
    if a.Advance? && a.task < |s.tasks| {
      NextDooms(s.tasks[a.task], s, a.answer, timeout);
    }
  }

  lemma {:induction false} RunDooms(s: State, actions: seq<Action>, timeout: nat, i: nat)
    ensures IsDoomed(Run(s, actions, timeout), i) <==>
      IsDoomed(s, i) || exists k :: 0 <= k < |actions| && LosesWorker(Run(s, actions[..k], timeout), actions[k], i)
    decreases actions
  {
    hide Step, IsDoomed, LosesWorker;
    if actions != [] {
      var next, rest := Step(s, actions[0], timeout), actions[1..];
      StepDooms(s, actions[0], timeout, i);
      RunDooms(next, rest, timeout, i);
      PrefixesFrom(s, actions, timeout);
      if k :| 0 <= k < |rest| && LosesWorker(Run(next, rest[..k], timeout), rest[k], i) {
        assert LosesWorker(Run(s, actions[..k + 1], timeout), actions[k + 1], i);
      }
      if k :| 0 <= k < |actions| && LosesWorker(Run(s, actions[..k], timeout), actions[k], i) {
        assert k > 0 ==> LosesWorker(Run(next, rest[..k - 1], timeout), rest[k - 1], i);
      }
    }
  }

  /** The states along a run, seen from its first step. */
  lemma PrefixesFrom(s: State, actions: seq<Action>, timeout: nat)
    requires actions != []
    ensures Run(s, actions[..0], timeout) == s
    ensures var next, rest := Step(s, actions[0], timeout), actions[1..];
      forall k :: 0 <= k < |rest| ==>
        Run(s, actions[..k + 1], timeout) == Run(next, rest[..k], timeout) && actions[k + 1] == rest[k]
  {
    hide Step, Run;
    var next, rest := Step(s, actions[0], timeout), actions[1..];
    assert actions[..0] == [];
    RunNothing(s, timeout);
    forall k | 0 <= k < |rest|
      ensures Run(s, actions[..k + 1], timeout) == Run(next, rest[..k], timeout) && actions[k + 1] == rest[k]
    {
      assert actions[..k + 1] == [actions[0]] + rest[..k];
      RunOneMore(s, actions[0], rest[..k], timeout);
    }
  }

  /** A worker that is lost is never freed. */
  lemma DoomedForever(s: State, actions: seq<Action>, timeout: nat, i: nat)
    requires WorkerInv(s) && IsDoomed(s, i)
    ensures Kfree(i) !in Run(s, actions, timeout).uses
  {
    hide Run, WorkersSafe;
    RunKeepsWorkers(s, actions, timeout);
    RunKeepsTask(s, actions, timeout, i);
  }

  lemma NextTowardsRelease(t: Task, s: State, timeout: nat)
    requires t.Works() && !Doomed(t) && !t.Releasing?
    ensures var u := After(Next(t, s, true, timeout), s); u.Works() && !Doomed(u) && Rank(u) < Rank(t)
  {}

  /** A worker that is not lost can still be freed. */
  lemma {:induction false} ReleasingRun(s: State, i: nat, timeout: nat) returns (more: seq<Action>)
    requires i < |s.tasks| && s.tasks[i].Works() && !Doomed(s.tasks[i])
    ensures Kfree(i) in Run(s, more, timeout).uses
    decreases Rank(s.tasks[i])
  {
    hide Run, Step, Next, Rank, Doomed;
    var next := Step(s, Advance(i, true), timeout);
    TaskStep(s, i, true, timeout);
    if s.tasks[i].Releasing? {
      more := [];
      RunNothing(next, timeout);
    } else {
      NextTowardsRelease(s.tasks[i], s, timeout);
      more := ReleasingRun(next, i, timeout);
    }
    RunOneMore(s, Advance(i, true), more, timeout);
    more := [Advance(i, true)] + more;
  }

  /**
   * The workers that no continuation of a run frees are exactly those that the run lost: found late without a stamp,
   * or made without a clone.
   */
  lemma WorkerNeverFreedIff(txtstamp: bool, txcopy: bool, actions: seq<Action>, timeout: nat, i: nat)
    requires var s := Run(Start(txtstamp, txcopy), actions, timeout); i < |s.tasks| && s.tasks[i].IsWorker()
    ensures (forall more :: Kfree(i) !in Run(Run(Start(txtstamp, txcopy), actions, timeout), more, timeout).uses) <==>
      exists k :: 0 <= k < |actions| && LosesWorker(Run(Start(txtstamp, txcopy), actions[..k], timeout), actions[k], i)
  {
    hide Run, LosesWorker, WorkersSafe;
    var start := Start(txtstamp, txcopy);
    var s := Run(start, actions, timeout);
    StartHasNoWorkers(txtstamp, txcopy);
    RunKeepsWorkers(start, actions, timeout);
    RunDooms(start, actions, timeout, i);
    if IsDoomed(s, i) {
      forall more ensures Kfree(i) !in Run(s, more, timeout).uses {
        DoomedForever(s, more, timeout, i);
      }
    } else if s.tasks[i] == Released {
      RunNothing(s, timeout);
    } else {
      var more := ReleasingRun(s, i, timeout);
    }
  }

  function Ticks(n: nat): seq<Action> {
    if n == 0 then [] else Ticks(n - 1) + [Tick]
  }

  lemma {:induction false} RunTicks(s: State, n: nat, timeout: nat)
    ensures Run(s, Ticks(n), timeout) == s.(now := s.now + n)
  {
    hide Run;
    if n == 0 {
      RunNothing(s, timeout);
    } else {
      RunTicks(s, n - 1, timeout);
      RunLast(s, Ticks(n - 1), Tick, timeout);
    }
  }

  const QUEUED := CLONED + [Advance(0, true), Advance(0, true), Advance(0, true)]

  lemma AfterQueue(timeout: nat)
    ensures Run(Start(true, false), QUEUED, timeout) == State(true, false, 0, 1, [Finished, Pending(Some(0), 0)], [], [])
  {
    hide Run;
    var start, a := Start(true, false), Advance(0, true);
    var one, two := CLONED + [a], CLONED + [a, a];
    assert one + [a] == two && two + [a] == QUEUED;
    AfterClone(timeout);
    RunLast(start, CLONED, a, timeout);
    RunLast(start, one, a, timeout);
    RunLast(start, two, a, timeout);
  }

  /** A first packet whose timestamp never comes: its worker frees the clone after the deadline, and is itself never freed. */
  lemma LateWorkerIsLost(timeout: nat, more: seq<Action>)
    ensures var a := Advance(1, true);
      var s := Run(Start(true, false), QUEUED + Ticks(timeout + 1) + [a, Advance(1, false), a, a, a], timeout);
      s.log == [Look(0), Free(0)] && Kfree(1) !in Run(s, more, timeout).uses
  {
    hide Run, Step, Ticks, WorkerInv;
    var start, a := Start(true, false), Advance(1, true);
    var waited, five := QUEUED + Ticks(timeout + 1), [a, Advance(1, false), a, a, a];
    var w := Run(start, waited, timeout);
    AfterQueue(timeout);
    RunConcat(start, QUEUED, Ticks(timeout + 1), timeout);
    RunTicks(Run(start, QUEUED, timeout), timeout + 1, timeout);
    WorkerOutcome(w, 1, 0, false, timeout);
    RunConcat(start, waited, five, timeout);
    StartHasNoWorkers(true, false);
    RunKeepsWorkers(start, waited + five, timeout);
    DoomedForever(Run(w, five, timeout), more, timeout, 1);
  }
}
