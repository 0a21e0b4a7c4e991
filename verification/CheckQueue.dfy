/** The script verification queue: one master and any number of workers share a LIFO of checks under
  * one mutex. Each critical section is one atomic step, written as a method of `SharedQueue` and
  * specified by `Section` and `Pushed`; the interleavings of all threads are the runs of `Next`. */
module CheckQueue {
  import opened Basics

  /** A verification job: `ok` is what its call operator returns. */
  datatype Check = Check(id: nat, ok: bool)

  /** The fields guarded by the mutex. */
  datatype Shared = Shared(queue: seq<Check>, nIdle: int, nTotal: int, fAllOk: bool, nTodo: int)

  /** How a thread comes to hold the mutex inside the loop. */
  datatype Entry = First | Finished(nNow: nat, fOk: bool) | Woken

  /** How the critical section ends. */
  datatype Outcome = Return(fRet: bool) | Sleep | Take(batch: seq<Check>, fOk: bool)

  datatype Exit = Exit(shared: Shared, outcome: Outcome, notifyMaster: bool)

  function Reversed<T>(s: seq<T>): seq<T> {
    if s == [] then [] else Reversed(s[1..]) + [s[0]]
  }

  /** How many checks a thread takes: never none, never more than are queued. */
  function BatchSize(q: Shared, nBatchSize: nat): (n: nat)
    requires q.queue != [] && q.nTotal + q.nIdle + 1 > 0
    ensures 1 <= n <= |q.queue|
    ensures n <= Max(1, nBatchSize)
  {
    Max(1, Min(nBatchSize, |q.queue| / (q.nTotal + q.nIdle + 1)))
  }

  function CleanedUp(q: Shared, e: Entry): Shared {
    match e
    case First => q.(nTotal := q.nTotal + 1)
    case Finished(nNow, fOk) => q.(fAllOk := q.fAllOk && fOk, nTodo := q.nTodo - nNow)
    case Woken => q.(nIdle := q.nIdle - 1)
  }

  /** After the clean-up: return, go to sleep, or take a batch. */
  function Settled(c: Shared, nBatchSize: nat, fMaster: bool): (Shared, Outcome)
    requires c.nTotal + c.nIdle >= 0
  {
    if c.queue == [] then
      if fMaster && c.nTodo == 0 then
        (c.(nTotal := c.nTotal - 1, fAllOk := true), Return(c.fAllOk))
      else
        (c.(nIdle := c.nIdle + 1), Sleep)
    else
      var keep := |c.queue| - BatchSize(c, nBatchSize);
      (c.(queue := c.queue[..keep]), Take(Reversed(c.queue[keep..]), c.fAllOk))
  }

  /** The whole critical section of the loop, from taking the mutex to releasing it. */
  function Section(q: Shared, nBatchSize: nat, fMaster: bool, e: Entry): Exit
    requires CleanedUp(q, e).nTotal + CleanedUp(q, e).nIdle >= 0
  {
    var c := CleanedUp(q, e);
    var r := Settled(c, nBatchSize, fMaster);
    Exit(r.0, r.1, e.Finished? && c.nTodo == 0 && !fMaster)
  }

  function Pushed(q: Shared, checks: seq<Check>): Shared {
    q.(queue := q.queue + checks, nTodo := q.nTodo + |checks|)
  }

  /** The queue object; every method is the body of one critical section. */
  class SharedQueue {
    var queue: seq<Check>
    var nIdle: int
    var nTotal: int
    var fAllOk: bool
    var nTodo: int
    const nBatchSize: nat

    function View(): Shared
      reads this
    {
      Shared(queue, nIdle, nTotal, fAllOk, nTodo)
    }

    constructor (nBatchSizeIn: nat)
      ensures View() == Shared([], 0, 0, true, 0) && nBatchSize == nBatchSizeIn
    {
      queue, nIdle, nTotal, fAllOk, nTodo := [], 0, 0, true, 0;
      nBatchSize := nBatchSizeIn;
    }

    method Add(vChecks: seq<Check>)
      modifies this
      ensures View() == Pushed(old(View()), vChecks)
    {
      if vChecks == [] {
        return;
      }
      for i := 0 to |vChecks|
        invariant queue == old(queue) + vChecks[..i]
        invariant nIdle == old(nIdle) && nTotal == old(nTotal) && fAllOk == old(fAllOk) && nTodo == old(nTodo)
      {
        queue := queue + [vChecks[i]];
      }
      nTodo := nTodo + |vChecks|;
    }

    /** One pass through the critical section of the loop. */
    method Loop(fMaster: bool, e: Entry) returns (o: Outcome, notifyMaster: bool)
      requires CleanedUp(View(), e).nTotal + CleanedUp(View(), e).nIdle >= 0
      modifies this
      ensures Exit(View(), o, notifyMaster) == Section(old(View()), nBatchSize, fMaster, e)
    {
      notifyMaster := CleanUp(fMaster, e);
      o := Settle(fMaster);
    }

    method CleanUp(fMaster: bool, e: Entry) returns (notifyMaster: bool)
      modifies this
      ensures View() == CleanedUp(old(View()), e)
      ensures notifyMaster == (e.Finished? && nTodo == 0 && !fMaster)
    {
      notifyMaster := false;
      match e {
        case First =>
          nTotal := nTotal + 1;
        case Finished(nNow, fOk) =>
          fAllOk := fAllOk && fOk;
          nTodo := nTodo - nNow;
          notifyMaster := nTodo == 0 && !fMaster;
        case Woken =>
          nIdle := nIdle - 1;
      }
    }

    method Settle(fMaster: bool) returns (o: Outcome)
      requires nTotal + nIdle >= 0
      modifies this
      ensures (View(), o) == Settled(old(View()), nBatchSize, fMaster)
    {
      if queue == [] {
        if fMaster && nTodo == 0 {
          nTotal := nTotal - 1;
          o := Return(fAllOk);
          fAllOk := true;
        } else {
          nIdle := nIdle + 1;
          o := Sleep;
        }
      } else {
        var batch := TakeBatch();
        o := Take(batch, fAllOk);
      }
    }

    method TakeBatch() returns (vChecks: seq<Check>)
      requires queue != [] && nTotal + nIdle >= 0
      modifies this`queue
      ensures var keep := |old(queue)| - BatchSize(old(View()), nBatchSize);
              queue == old(queue)[..keep] && vChecks == Reversed(old(queue)[keep..])
    {
      var nNow := BatchSize(View(), nBatchSize);
      vChecks := [];
      for i := 0 to nNow
        invariant |queue| == |old(queue)| - i
        invariant queue == old(queue)[..|old(queue)| - i]
        invariant vChecks == Reversed(old(queue)[|old(queue)| - i..])
      {
        ReversedBack(old(queue), |old(queue)| - i);
        vChecks := vChecks + [queue[|queue| - 1]];
        queue := queue[..|queue| - 1];
      }
    }
  }

  lemma {:induction false} ReversedBack<T>(s: seq<T>, k: nat)
    requires 0 < k <= |s|
    ensures Reversed(s[k - 1..]) == Reversed(s[k..]) + [s[k - 1]]
  {
    assert s[k - 1..][1..] == s[k..];
  }

  lemma {:induction false} ReversedMultiset<T>(s: seq<T>)
    ensures multiset(Reversed(s)) == multiset(s) && |Reversed(s)| == |s|
  {
    if s != [] {
      ReversedMultiset(s[1..]);
      assert s == [s[0]] + s[1..];
    }
  }

  // ---------------------------------------------------------------------------------------------
  // The transition system
  // ---------------------------------------------------------------------------------------------

  /** Where a thread stands. `Adding` is the master after it released the mutex in Add and before it
    * notified the workers; `Sleeping(true)` has been notified but does not yet hold the mutex. */
  datatype Phase =
    | Outside
    | Adding(count: nat)
    | Running(nNow: nat, batch: seq<Check>, fOk: bool)
    | Sleeping(notified: bool)

  /** Thread 0 is the master. `added`, `ran` and `skipped` record what happened since the master's
    * Wait last returned. */
  datatype State = State(
    q: Shared, threads: seq<Phase>,
    added: multiset<Check>, ran: multiset<Check>, skipped: multiset<Check>)

  datatype Event =
    | AddCall(checks: seq<Check>)
    | Notify(woken: set<nat>)
    | Execute(t: nat)
    | Enter(t: nat)

  ghost predicate Init(s: State) {
    && s.q == Shared([], 0, 0, true, 0)
    && |s.threads| > 0
    && (forall t :: 0 <= t < |s.threads| ==> s.threads[t] == Outside)
    && s.added == s.ran == s.skipped == multiset{}
  }

  function EntryOf(p: Phase): Entry
    requires !p.Adding? && (p.Running? ==> p.batch == [])
  {
    match p
    case Outside => First
    case Running(nNow, _, fOk) => Finished(nNow, fOk)
    case Sleeping(_) => Woken
  }

  function PhaseAfter(o: Outcome): Phase {
    match o
    case Return(_) => Outside
    case Sleep => Sleeping(false)
    case Take(batch, fOk) => Running(|batch|, batch, fOk)
  }

  function Notified(p: Phase): Phase {
    if p.Sleeping? then Sleeping(true) else p
  }

  /** May thread `t` take the mutex inside the loop now? Any sleeper may (a spurious wake-up). */
  ghost predicate CanEnter(s: State, t: nat) {
    && t < |s.threads|
    && !s.threads[t].Adding?
    && (s.threads[t].Running? ==> s.threads[t].batch == [])
    && var c := CleanedUp(s.q, EntryOf(s.threads[t])); c.nTotal + c.nIdle >= 0
  }

  ghost function ExitOf(s: State, nBatchSize: nat, t: nat): Exit
    requires CanEnter(s, t)
  {
    Section(s.q, nBatchSize, t == 0, EntryOf(s.threads[t]))
  }

  ghost function Entered(s: State, nBatchSize: nat, t: nat): State
    requires CanEnter(s, t)
  {
    var x := ExitOf(s, nBatchSize, t);
    var threads := s.threads[t := PhaseAfter(x.outcome)];
    var threads' := if x.notifyMaster then threads[0 := Notified(threads[0])] else threads;
    if x.outcome.Return?
    then State(x.shared, threads', multiset{}, multiset{}, multiset{})
    else s.(q := x.shared, threads := threads')
  }

  ghost predicate CanExecute(s: State, t: nat) {
    t < |s.threads| && s.threads[t].Running? && s.threads[t].batch != []
  }

  ghost function Executed(s: State, t: nat): State
    requires CanExecute(s, t)
  {
    var p := s.threads[t];
    var c := p.batch[0];
    if p.fOk
    then s.(threads := s.threads[t := Running(p.nNow, p.batch[1..], c.ok)], ran := s.ran + multiset{c})
    else s.(threads := s.threads[t := Running(p.nNow, p.batch[1..], false)], skipped := s.skipped + multiset{c})
  }

  /** notify_one wakes one waiting worker if there is one; notify_all wakes them all. */
  ghost predicate WokenBy(threads: seq<Phase>, count: nat, woken: set<nat>) {
    && (forall t :: t in woken ==> 0 < t < |threads| && threads[t] == Sleeping(false))
    && (count == 1 ==> |woken| <= 1)
    && ((count != 1 || woken == {}) ==> forall t :: 0 < t < |threads| && threads[t] == Sleeping(false) ==> t in woken)
  }

  ghost predicate Next(s: State, s': State, nBatchSize: nat, ev: Event) {
    match ev
    case AddCall(checks) =>
      && |s.threads| > 0 && s.threads[0] == Outside && checks != []
      && s' == s.(q := Pushed(s.q, checks), threads := s.threads[0 := Adding(|checks|)], added := s.added +
        multiset(checks))
    case Notify(woken) =>
      && |s.threads| > 0 && s.threads[0].Adding?
      && WokenBy(s.threads, s.threads[0].count, woken)
      && |s'.threads| == |s.threads|
      && s' == s.(threads := s'.threads)
      && s'.threads[0] == Outside
      && (forall t :: 0 < t < |s.threads| ==>
            s'.threads[t] == if t in woken then Sleeping(true) else s.threads[t])
    case Execute(t) => CanExecute(s, t) && s' == Executed(s, t)
    case Enter(t) => CanEnter(s, t) && s' == Entered(s, nBatchSize, t)
  }

  // ---------------------------------------------------------------------------------------------
  // Sums over threads
  // ---------------------------------------------------------------------------------------------

  ghost function Sum(ts: seq<Phase>, f: Phase -> int): int {
    if ts == [] then 0 else Sum(ts[..|ts| - 1], f) + f(ts[|ts| - 1])
  }

  /** How many copies of `c` a thread still has to deal with. */
  ghost function Holding(c: Check): Phase -> int {
    (p: Phase) => if p.Running? then multiset(p.batch)[c] else 0
  }

  ghost function InFlight(p: Phase): int { if p.Running? then p.nNow else 0 }

  ghost function IsIdle(p: Phase): int { if p.Sleeping? then 1 else 0 }

  ghost function IsInLoop(p: Phase): int { if p.Running? || p.Sleeping? then 1 else 0 }

  lemma {:induction false} SumUpdate(ts: seq<Phase>, f: Phase -> int, t: nat, p: Phase)
    requires t < |ts|
    ensures Sum(ts[t := p], f) == Sum(ts, f) - f(ts[t]) + f(p)
  {
    var n := |ts| - 1;
    if t == n {
      assert ts[t := p][..n] == ts[..n];
    } else {
      assert ts[t := p][..n] == ts[..n][t := p];
      SumUpdate(ts[..n], f, t, p);
    }
  }

  lemma {:induction false} SumSame(ts: seq<Phase>, us: seq<Phase>, f: Phase -> int)
    requires |ts| == |us|
    requires forall t :: 0 <= t < |ts| ==> f(ts[t]) == f(us[t])
    ensures Sum(ts, f) == Sum(us, f)
  {
    if ts != [] {
      SumSame(ts[..|ts| - 1], us[..|us| - 1], f);
    }
  }

  lemma {:induction false} SumZero(ts: seq<Phase>, f: Phase -> int)
    requires forall t :: 0 <= t < |ts| ==> f(ts[t]) >= 0
    ensures Sum(ts, f) >= 0
    ensures forall t :: 0 <= t < |ts| ==> f(ts[t]) <= Sum(ts, f)
  {
    if ts != [] {
      SumZero(ts[..|ts| - 1], f);
    }
  }

  lemma {:induction false} SumAllZero(ts: seq<Phase>, f: Phase -> int)
    requires forall t :: 0 <= t < |ts| ==> f(ts[t]) == 0
    ensures Sum(ts, f) == 0
  {
    if ts != [] {
      SumAllZero(ts[..|ts| - 1], f);
    }
  }

  // ---------------------------------------------------------------------------------------------
  // The invariant
  // ---------------------------------------------------------------------------------------------

  ghost predicate AllOk(cs: multiset<Check>) {
    forall c :: c in cs ==> c.ok
  }

  ghost predicate RunningOk(ts: seq<Phase>) {
    forall t :: 0 <= t < |ts| && ts[t].Running? ==> ts[t].fOk
  }

  /** The counters are exact. */
  ghost predicate Counted(s: State) {
    && s.q.nTodo == |s.q.queue| + Sum(s.threads, InFlight)
    && s.q.nIdle == Sum(s.threads, IsIdle)
    && s.q.nTotal == Sum(s.threads, IsInLoop)
  }

  /** Nothing is lost and nothing is duplicated. */
  ghost predicate Conserved(s: State) {
    forall c: Check :: s.added[c] == Accounted(s, c)
  }

  ghost function Accounted(s: State, c: Check): int {
    multiset(s.q.queue)[c] + Sum(s.threads, Holding(c)) + s.ran[c] + s.skipped[c]
  }

  /** The verdict collected so far, here and in the running threads, is that of the checks that ran. */
  ghost predicate Verdict(s: State) {
    && (AllOk(s.ran) <==> s.q.fAllOk && RunningOk(s.threads))
    && (s.skipped != multiset{} ==> !AllOk(s.ran))
  }

  ghost predicate Shape(s: State) {
    && |s.threads| > 0
    && (forall t :: 0 <= t < |s.threads| && s.threads[t].Running? ==>
          1 <= s.threads[t].nNow && |s.threads[t].batch| <= s.threads[t].nNow)
    && (forall t :: 0 < t < |s.threads| ==> !s.threads[t].Adding?)
  }

  /** A sleeping master: the queue is dry, and unless it was notified work is still out. */
  ghost predicate MasterSleep(s: State)
    requires |s.threads| > 0
  {
    && (s.threads[0].Sleeping? ==> s.q.queue == [])
    && (s.threads[0] == Sleeping(false) ==> s.q.nTodo > 0)
  }

  ghost predicate Inv(s: State) {
    Shape(s) && MasterSleep(s) && Counted(s) && Conserved(s) && Verdict(s)
  }

  lemma InitInv(s: State)
    requires Init(s)
    ensures Inv(s)
  {
    SumAllZero(s.threads, InFlight);
    SumAllZero(s.threads, IsIdle);
    SumAllZero(s.threads, IsInLoop);
    forall c: Check ensures s.added[c] == Accounted(s, c) {
      SumAllZero(s.threads, Holding(c));
    }
  }

  lemma CountersNonNegative(s: State)
    requires Inv(s)
    ensures s.q.nIdle >= 0 && s.q.nTotal >= 0
    ensures forall t :: 0 <= t < |s.threads| ==>
              && IsIdle(s.threads[t]) <= s.q.nIdle
              && IsInLoop(s.threads[t]) <= s.q.nTotal
              && InFlight(s.threads[t]) <= s.q.nTodo - |s.q.queue|
  {
    SumZero(s.threads, InFlight);
    SumZero(s.threads, IsIdle);
    SumZero(s.threads, IsInLoop);
  }

  /** Replacing one thread's phase moves every sum by that thread's share. */
  lemma CountUpdate(s: State, t: nat, p: Phase)
    requires t < |s.threads|
    ensures var ts := s.threads[t := p];
            && Sum(ts, InFlight) == Sum(s.threads, InFlight) - InFlight(s.threads[t]) + InFlight(p)
            && Sum(ts, IsIdle) == Sum(s.threads, IsIdle) - IsIdle(s.threads[t]) + IsIdle(p)
            && Sum(ts, IsInLoop) == Sum(s.threads, IsInLoop) - IsInLoop(s.threads[t]) + IsInLoop(p)
  {
    SumUpdate(s.threads, InFlight, t, p);
    SumUpdate(s.threads, IsIdle, t, p);
    SumUpdate(s.threads, IsInLoop, t, p);
  }

  lemma AddKeeps(s: State, s': State, nBatchSize: nat, checks: seq<Check>)
    requires Inv(s) && Next(s, s', nBatchSize, AddCall(checks))
    ensures Inv(s')
  {
    var p := Adding(|checks|);
    CountUpdate(s, 0, p);
    forall c: Check ensures s'.added[c] == Accounted(s', c) {
      assert s.added[c] == Accounted(s, c);
      SumUpdate(s.threads, Holding(c), 0, p);
    }
    RunningOkUpdate(s.threads, 0, p);
  }

  lemma RunningOkUpdate(ts: seq<Phase>, t: nat, p: Phase)
    requires t < |ts|
    requires ts[t].Running? && p.Running? ==> p.fOk == ts[t].fOk
    requires ts[t].Running? && !p.Running? ==> ts[t].fOk
    requires !ts[t].Running? && p.Running? ==> p.fOk
    ensures RunningOk(ts[t := p]) <==> RunningOk(ts)
  {
    var us := ts[t := p];
    if RunningOk(ts) {
      forall u | 0 <= u < |us| && us[u].Running? ensures us[u].fOk {
        if u != t { assert us[u] == ts[u]; }
      }
    }
    if RunningOk(us) {
      forall u | 0 <= u < |ts| && ts[u].Running? ensures ts[u].fOk {
        if u != t { assert us[u] == ts[u]; } else { assert us[t] == p; }
      }
    }
  }

  /** Waking sleepers (and ending Add) leaves everything but the wake-up marks alone. */
  lemma RelabelKeeps(s: State, ts: seq<Phase>)
    requires Shape(s) && Counted(s) && Conserved(s) && Verdict(s)
    requires |ts| == |s.threads|
    requires forall t :: 0 <= t < |ts| ==>
               ts[t] == s.threads[t] || (ts[t].Sleeping? && s.threads[t].Sleeping?)
               || (t == 0 && ts[t] == Outside && s.threads[t].Adding?)
    ensures Shape(s.(threads := ts)) && Counted(s.(threads := ts))
    ensures Conserved(s.(threads := ts)) && Verdict(s.(threads := ts))
  {
    SumSame(s.threads, ts, InFlight);
    SumSame(s.threads, ts, IsIdle);
    SumSame(s.threads, ts, IsInLoop);
    forall c: Check ensures s.added[c] == Accounted(s.(threads := ts), c) {
      assert s.added[c] == Accounted(s, c);
      SumSame(s.threads, ts, Holding(c));
    }
    assert forall t :: 0 <= t < |ts| && s.threads[t].Running? ==> ts[t] == s.threads[t];
    assert forall t :: 0 <= t < |ts| && ts[t].Running? ==> ts[t] == s.threads[t];
  }

  lemma NotifyKeeps(s: State, s': State, nBatchSize: nat, woken: set<nat>)
    requires Inv(s) && Next(s, s', nBatchSize, Notify(woken))
    ensures Inv(s')
  {
    RelabelKeeps(s, s'.threads);
  }

  lemma ExecuteConserves(s: State, t: nat)
    requires Conserved(s) && CanExecute(s, t)
    ensures Conserved(Executed(s, t))
  {
    var s' := Executed(s, t);
    var p, p' := s.threads[t], s'.threads[t];
    assert p.batch == [p.batch[0]] + p'.batch;
    forall c: Check ensures s'.added[c] == Accounted(s', c) {
      assert s.added[c] == Accounted(s, c);
      SumUpdate(s.threads, Holding(c), t, p');
      assert multiset(p.batch)[c] == multiset(p'.batch)[c] + (if c == p.batch[0] then 1 else 0);
    }
  }

  lemma ExecuteCounts(s: State, t: nat)
    requires Shape(s) && MasterSleep(s) && Counted(s) && CanExecute(s, t)
    ensures Shape(Executed(s, t)) && MasterSleep(Executed(s, t)) && Counted(Executed(s, t))
  {
    CountUpdate(s, t, Executed(s, t).threads[t]);
  }

  lemma ExecuteKeeps(s: State, s': State, nBatchSize: nat, t: nat)
    requires Inv(s) && Next(s, s', nBatchSize, Execute(t))
    ensures Inv(s')
  {
    ExecuteCounts(s, t);
    ExecuteConserves(s, t);
    ExecuteVerdict(s, s', t);
  }

  lemma ExecuteVerdict(s: State, s': State, t: nat)
    requires Verdict(s) && CanExecute(s, t) && s' == Executed(s, t)
    ensures Verdict(s')
  {
    var p := s.threads[t];
    var c := p.batch[0];
    assert forall u :: 0 <= u < |s.threads| && u != t ==> s'.threads[u] == s.threads[u];
    if p.fOk {
      assert forall d :: d in s'.ran <==> d in s.ran || d == c;
      if RunningOk(s'.threads) {
        assert s'.threads[t].fOk;
        assert RunningOk(s.threads);
      }
      if RunningOk(s.threads) && c.ok {
        assert RunningOk(s'.threads);
      }
    } else {
      assert !s'.threads[t].fOk;
    }
  }

  lemma EnterAllowed(s: State, t: nat)
    requires Inv(s) && t < |s.threads| && !s.threads[t].Adding?
    requires s.threads[t].Running? ==> s.threads[t].batch == []
    ensures CanEnter(s, t)
  {
    CountersNonNegative(s);
  }

  /** What the critical section moves: the counters and the queue. */
  lemma SectionEffect(q: Shared, nBatchSize: nat, fMaster: bool, e: Entry)
    requires CleanedUp(q, e).nTotal + CleanedUp(q, e).nIdle >= 0
    ensures var x := Section(q, nBatchSize, fMaster, e);
            var p := PhaseAfter(x.outcome);
            && x.shared.nTodo == CleanedUp(q, e).nTodo
            && x.shared.nIdle == CleanedUp(q, e).nIdle + IsIdle(p)
            && x.shared.nTotal == CleanedUp(q, e).nTotal - (if x.outcome.Return? then 1 else 0)
            && |x.shared.queue| == |q.queue| - InFlight(p)
            && multiset(q.queue) == multiset(x.shared.queue) + (if p.Running? then multiset(p.batch) else multiset{})
            && (p.Running? ==> 1 <= p.nNow == |p.batch| && p.fOk == x.shared.fAllOk)
            && (x.outcome.Return? ==> fMaster && q.queue == [] && x.shared.nTodo == 0)
            && (x.outcome.Sleep? ==> q.queue == [] && (fMaster ==> x.shared.nTodo != 0))
  {
    var c := CleanedUp(q, e);
    if c.queue != [] {
      var keep := |c.queue| - BatchSize(c, nBatchSize);
      ReversedMultiset(c.queue[keep..]);
      assert c.queue == c.queue[..keep] + c.queue[keep..];
    }
  }

  /** The state after a critical section, before the master is notified and the history is cleared. */
  ghost function Unnotified(s: State, nBatchSize: nat, t: nat): State
    requires CanEnter(s, t)
  {
    var x := ExitOf(s, nBatchSize, t);
    s.(q := x.shared, threads := s.threads[t := PhaseAfter(x.outcome)])
  }

  lemma EnterCounts(s: State, nBatchSize: nat, t: nat)
    requires Inv(s) && CanEnter(s, t)
    ensures Shape(Unnotified(s, nBatchSize, t)) && Counted(Unnotified(s, nBatchSize, t))
    ensures Unnotified(s, nBatchSize, t).q.nTodo >= 0
  {
    var x := ExitOf(s, nBatchSize, t);
    CountersNonNegative(s);
    SectionEffect(s.q, nBatchSize, t == 0, EntryOf(s.threads[t]));
    CountUpdate(s, t, PhaseAfter(x.outcome));
  }

  lemma EnterConserves(s: State, nBatchSize: nat, t: nat)
    requires Inv(s) && CanEnter(s, t)
    ensures Conserved(Unnotified(s, nBatchSize, t))
  {
    var p := PhaseAfter(ExitOf(s, nBatchSize, t).outcome);
    var s' := Unnotified(s, nBatchSize, t);
    SectionEffect(s.q, nBatchSize, t == 0, EntryOf(s.threads[t]));
    forall c: Check ensures s'.added[c] == Accounted(s', c) {
      assert s.added[c] == Accounted(s, c);
      SumUpdate(s.threads, Holding(c), t, p);
    }
  }

  lemma EnterVerdict(s: State, nBatchSize: nat, t: nat)
    requires Inv(s) && CanEnter(s, t) && !ExitOf(s, nBatchSize, t).outcome.Return?
    ensures Verdict(Unnotified(s, nBatchSize, t))
  {
    var x := ExitOf(s, nBatchSize, t);
    var s' := Unnotified(s, nBatchSize, t);
    SectionEffect(s.q, nBatchSize, t == 0, EntryOf(s.threads[t]));
    assert forall u :: 0 <= u < |s.threads| && u != t ==> s'.threads[u] == s.threads[u];
    assert x.shared.fAllOk == (s.q.fAllOk && (s.threads[t].Running? ==> s.threads[t].fOk));
    if s'.q.fAllOk && RunningOk(s'.threads) {
      assert RunningOk(s.threads);
    }
    if s.q.fAllOk && RunningOk(s.threads) {
      assert RunningOk(s'.threads);
    }
  }

  lemma EnterKeeps(s: State, s': State, nBatchSize: nat, t: nat)
    requires Inv(s) && Next(s, s', nBatchSize, Enter(t))
    ensures Inv(s')
  {
    var x := ExitOf(s, nBatchSize, t);
    var u := Unnotified(s, nBatchSize, t);
    EnterCounts(s, nBatchSize, t);
    SectionEffect(s.q, nBatchSize, t == 0, EntryOf(s.threads[t]));
    if x.outcome.Return? {
      NothingHeld(u);
      assert s' == u.(added := multiset{}, ran := multiset{}, skipped := multiset{});
    } else {
      EnterConserves(s, nBatchSize, t);
      EnterVerdict(s, nBatchSize, t);
      RelabelKeeps(u, s'.threads);
      assert s' == u.(threads := s'.threads);
    }
  }

  /** When nothing is to do, no thread holds a batch. */
  lemma NothingHeld(s: State)
    requires Shape(s) && Counted(s) && s.q.nTodo == 0
    ensures s.q.queue == []
    ensures forall t :: 0 <= t < |s.threads| ==> !s.threads[t].Running?
    ensures forall c: Check :: Sum(s.threads, Holding(c)) == 0
  {
    SumZero(s.threads, InFlight);
    assert forall t :: 0 <= t < |s.threads| ==> InFlight(s.threads[t]) <= 0;
    forall c: Check ensures Sum(s.threads, Holding(c)) == 0 {
      SumAllZero(s.threads, Holding(c));
    }
  }

  // ---------------------------------------------------------------------------------------------
  // Main results
  // ---------------------------------------------------------------------------------------------

  ghost predicate IsRun(run: seq<State>, events: seq<Event>, nBatchSize: nat) {
    && |run| == |events| + 1
    && Init(run[0])
    && forall i :: 0 <= i < |events| ==> Next(run[i], run[i + 1], nBatchSize, events[i])
  }

  /** The invariant holds in every state of every interleaving. */
  lemma {:induction false} RunKeepsInv(run: seq<State>, events: seq<Event>, nBatchSize: nat, i: nat)
    requires IsRun(run, events, nBatchSize) && i < |run|
    ensures Inv(run[i])
  {
    if i == 0 {
      InitInv(run[0]);
    } else {
      RunKeepsInv(run, events, nBatchSize, i - 1);
      var s, s', ev := run[i - 1], run[i], events[i - 1];
      assert Next(s, s', nBatchSize, ev);
      match ev {
        case AddCall(checks) => AddKeeps(s, s', nBatchSize, checks);
        case Notify(woken) => NotifyKeeps(s, s', nBatchSize, woken);
        case Execute(t) => ExecuteKeeps(s, s', nBatchSize, t);
        case Enter(t) => EnterKeeps(s, s', nBatchSize, t);
      }
    }
  }

  /** nTodo is the queue plus the batches out; no check is ever run twice. */
  lemma RunIsSafe(run: seq<State>, events: seq<Event>, nBatchSize: nat, i: nat)
    requires IsRun(run, events, nBatchSize) && i < |run|
    ensures var s := run[i];
            && s.q.nTodo == |s.q.queue| + Sum(s.threads, InFlight)
            && s.q.nIdle == Sum(s.threads, IsIdle) && s.q.nTotal == Sum(s.threads, IsInLoop)
            && s.ran + s.skipped <= s.added
            && (forall t :: 0 <= t < |s.threads| && s.threads[t].Running? ==> s.threads[t].nNow <= s.q.nTodo)
  {
    RunKeepsInv(run, events, nBatchSize, i);
    var s := run[i];
    CountersNonNegative(s);
    assert forall t :: 0 <= t < |s.threads| ==> InFlight(s.threads[t]) <= s.q.nTodo;
    forall c: Check ensures (s.ran + s.skipped)[c] <= s.added[c] {
      assert s.added[c] == Accounted(s, c);
      SumZero(s.threads, Holding(c));
    }
  }

  /** Wait returns true exactly when every check added since it last returned evaluates to true; and
    * then each of them was run exactly once. */
  lemma WaitReturnsVerdict(run: seq<State>, events: seq<Event>, nBatchSize: nat, i: nat)
    requires IsRun(run, events, nBatchSize) && i < |events|
    requires events[i] == Enter(0) && CanEnter(run[i], 0) && ExitOf(run[i], nBatchSize, 0).outcome.Return?
    ensures var fRet := ExitOf(run[i], nBatchSize, 0).outcome.fRet;
            && (fRet <==> AllOk(run[i].added))
            && (fRet ==> run[i].ran == run[i].added)
            && run[i].ran + run[i].skipped == run[i].added
  {
    RunKeepsInv(run, events, nBatchSize, i);
    var s := run[i];
    var u := Unnotified(s, nBatchSize, 0);
    EnterCounts(s, nBatchSize, 0);
    SectionEffect(s.q, nBatchSize, true, EntryOf(s.threads[0]));
    NothingHeld(u);
    EnterConserves(s, nBatchSize, 0);
    forall c: Check ensures (s.ran + s.skipped)[c] == s.added[c] {
      assert u.added[c] == Accounted(u, c);
    }
    assert s.ran + s.skipped == s.added;
    ReturnValue(s, nBatchSize);
    if AllOk(s.ran) {
      assert s.skipped == multiset{};
      assert s.ran == s.added;
    } else {
      var c :| c in s.ran && !c.ok;
      assert c in s.added;
    }
  }

  lemma ReturnValue(s: State, nBatchSize: nat)
    requires Inv(s) && CanEnter(s, 0) && ExitOf(s, nBatchSize, 0).outcome.Return?
    ensures ExitOf(s, nBatchSize, 0).outcome.fRet <==> AllOk(s.ran)
  {
    var u := Unnotified(s, nBatchSize, 0);
    EnterCounts(s, nBatchSize, 0);
    SectionEffect(s.q, nBatchSize, true, EntryOf(s.threads[0]));
    NothingHeld(u);
    assert forall t :: 0 < t < |s.threads| ==> u.threads[t] == s.threads[t];
    if s.threads[0].Running? {
      assert RunningOk(s.threads) <==> s.threads[0].fOk;
    } else {
      assert RunningOk(s.threads);
    }
  }

  /** No wake-up of the master is lost: while it sleeps, it has been notified or a worker holds a
    * batch whose completion will notify it. */
  lemma SleepingMasterIsAwaited(run: seq<State>, events: seq<Event>, nBatchSize: nat, i: nat)
    requires IsRun(run, events, nBatchSize) && i < |run|
    requires run[i].threads != [] && run[i].threads[0].Sleeping?
    ensures run[i].threads[0].notified || exists t :: 0 < t < |run[i].threads| && run[i].threads[t].Running?
  {
    RunKeepsInv(run, events, nBatchSize, i);
    var s := run[i];
    if forall t :: 0 < t < |s.threads| ==> !s.threads[t].Running? {
      SumAllZero(s.threads, InFlight);
    }
  }

  // ---------------------------------------------------------------------------------------------
  // Progress
  // ---------------------------------------------------------------------------------------------

  /** Work left for one thread; a worker not yet started counts as work. */
  ghost function Weight(p: Phase): int {
    match p
    case Outside => 3
    case Adding(_) => 3
    case Running(_, batch, _) => |batch| + 2
    case Sleeping(notified) => if notified then 1 else 0
  }

  ghost function Work(s: State): int {
    4 * |s.q.queue| + Sum(s.threads, Weight)
  }

  ghost predicate InWait(s: State) {
    |s.threads| > 0 && (s.threads[0].Running? || s.threads[0].Sleeping?)
  }

  /** While the master waits, every step of any thread uses up work, except a spurious wake-up that
    * changes nothing and the step that returns. So Wait cannot run forever. */
  lemma StepUsesWork(s: State, s': State, nBatchSize: nat, ev: Event)
    requires Inv(s) && Next(s, s', nBatchSize, ev) && InWait(s) && InWait(s')
    ensures Work(s') >= 0
    ensures s' == s || Work(s') < Work(s)
  {
    SumZero(s'.threads, Weight);
    match ev {
      case AddCall(_) => assert false;
      case Notify(_) => assert false;
      case Execute(t) => ExecuteUsesWork(s, t);
      case Enter(t) => EnterUsesWork(s, nBatchSize, t);
    }
  }

  lemma ExecuteUsesWork(s: State, t: nat)
    requires CanExecute(s, t)
    ensures Work(Executed(s, t)) < Work(s)
  {
    SumUpdate(s.threads, Weight, t, Executed(s, t).threads[t]);
  }

  lemma EnterUsesWork(s: State, nBatchSize: nat, t: nat)
    requires Inv(s) && CanEnter(s, t) && InWait(s) && !ExitOf(s, nBatchSize, t).outcome.Return?
    ensures var s' := Entered(s, nBatchSize, t); s' == s || Work(s') < Work(s)
  {
    var x := ExitOf(s, nBatchSize, t);
    var p := PhaseAfter(x.outcome);
    var u := Unnotified(s, nBatchSize, t);
    SectionEffect(s.q, nBatchSize, t == 0, EntryOf(s.threads[t]));
    SumUpdate(s.threads, Weight, t, p);
    if x.notifyMaster {
      SumUpdate(u.threads, Weight, 0, Notified(u.threads[0]));
    } else if s.threads[t] == Sleeping(false) && x.outcome.Sleep? {
      assert u.threads == s.threads;
    }
  }

  /** Hence the master's Wait lasts at most `Work` effective steps of all threads together. */
  lemma {:induction false} WaitIsBounded(run: seq<State>, events: seq<Event>, nBatchSize: nat, i: nat, j: nat)
    requires IsRun(run, events, nBatchSize) && i <= j < |run|
    requires forall k :: i <= k <= j ==> InWait(run[k])
    requires forall k :: i <= k < j ==> run[k + 1] != run[k]
    ensures 0 <= Work(run[j]) <= Work(run[i]) - (j - i)
    decreases j - i
  {
    RunKeepsInv(run, events, nBatchSize, j);
    if i == j {
      SumZero(run[i].threads, Weight);
    } else {
      WaitIsBounded(run, events, nBatchSize, i, j - 1);
      RunKeepsInv(run, events, nBatchSize, j - 1);
      assert run[j - 1 + 1] != run[j - 1];
      StepUsesWork(run[j - 1], run[j], nBatchSize, events[j - 1]);
    }
  }

  /** While the master waits some thread can take a step that uses up work or returns: no deadlock. */
  lemma WaitIsNeverStuck(run: seq<State>, events: seq<Event>, nBatchSize: nat, i: nat)
    requires IsRun(run, events, nBatchSize) && i < |run| && InWait(run[i])
    ensures exists ev, s' :: Next(run[i], s', nBatchSize, ev) && (!InWait(s') || Work(s') < Work(run[i]))
  {
    RunKeepsInv(run, events, nBatchSize, i);
    var s := run[i];
    var t := 0;
    if s.threads[0] == Sleeping(false) {
      SleepingMasterIsAwaited(run, events, nBatchSize, i);
      t :| 0 < t < |s.threads| && s.threads[t].Running?;
    }
    var ev, s' := UsefulStep(s, nBatchSize, t);
  }

  lemma UsefulStep(s: State, nBatchSize: nat, t: nat) returns (ev: Event, s': State)
    requires Inv(s) && InWait(s) && t < |s.threads|
    requires s.threads[t].Running? || s.threads[t] == Sleeping(true)
    ensures Next(s, s', nBatchSize, ev) && (!InWait(s') || Work(s') < Work(s))
  {
    if CanExecute(s, t) {
      ev, s' := Execute(t), Executed(s, t);
      ExecuteUsesWork(s, t);
    } else {
      EnterAllowed(s, t);
      ev, s' := Enter(t), Entered(s, nBatchSize, t);
      if InWait(s') {
        EnterUsesWork(s, nBatchSize, t);
      }
    }
  }
}
