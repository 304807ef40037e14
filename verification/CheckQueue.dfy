/**
 The parallel verification queue of src/checkqueue.h as a state machine. One master (thread 0) and
 any number of workers run Loop; the mutex makes each critical section one atomic step, and every
 schedule, every choice of the thread a notify_one wakes, and spurious wake-ups are all allowed.

 Main results: WaitIsExact (a Wait returns the conjunction of the checks added since the previous
 one), NoLostWakeup, NeverStuck and WaitReturns (a bound on the steps until Wait returns), WorkersNeverStuck
 and WorkersDrain (no wake-up of the workers is lost either).
 */
module CheckQueue {
  import opened Wrappers

  // A queued job and what calling it would return.
  datatype Check = Check(id: nat, verdict: bool)

  /** Where a thread is. A thread at Working([], n, ok) has finished a batch of n checks, or has not
      started one when n is 0, and is about to lock the mutex. */
  datatype Thread =
    | Outside
    | Working(rest: seq<Check>, nNow: nat, ok: bool)
    | Blocked
    | Woken
  {
    function Held(): nat {
      if Working? then nNow else 0
    }

    function Idle(): nat {
      if Blocked? || Woken? then 1 else 0
    }

    // Counted in nTotal: past the first critical section.
    function Counted(): nat {
      if Blocked? || Woken? || (Working? && nNow > 0) then 1 else 0
    }

    // Steps this thread can still take without new work.
    function Weight(): nat {
      match this
      case Working(rest, _, _) => |rest| + 2
      case Woken => 1
      case _ => 0
    }

    function Pending(): multiset<Check> {
      if Working? then multiset(rest) else multiset{}
    }

    predicate Failed() {
      Working? && !ok
    }
  }

  /** The fields of CCheckQueue, the threads, and the history since the last return of Wait: checks
      added, run, and dropped because an earlier check had failed. */
  datatype State = State(
    queue: seq<Check>, nIdle: int, nTotal: int, fAllOk: bool, nTodo: int, nBatchSize: nat,
    threads: seq<Thread>,
    added: multiset<Check>, ran: multiset<Check>, skipped: multiset<Check>)

  datatype Step =
    | Add(checks: seq<Check>, woken: nat)  // master, outside Wait; woken is notify_one's choice
    | Wait                                 // master calls Wait
    | Lock(thread: nat)                    // enter the critical section at the top of the loop
    | Resume(thread: nat)                  // return from cond.wait
    | Call(thread: nat)                    // execute or drop the next check of the batch
    | Spurious(thread: nat)                // cond.wait returns without a notification

  predicate Enabled(s: State, step: Step) {
    match step
    case Add(checks, woken) =>
      && |s.threads| > 0 && s.threads[0].Outside?
      && (|checks| == 1 && (exists i :: 1 <= i < |s.threads| && s.threads[i].Blocked?) ==>
          1 <= woken < |s.threads| && s.threads[woken].Blocked?)
    case Wait => |s.threads| > 0 && s.threads[0].Outside?
    case Lock(i) => i < |s.threads| && s.threads[i].Working? && s.threads[i].rest == []
    case Resume(i) => i < |s.threads| && s.threads[i].Woken?
    case Call(i) => i < |s.threads| && s.threads[i].Working? && s.threads[i].rest != []
    case Spurious(i) => i < |s.threads| && s.threads[i].Blocked?
  }

  /** No schedule is excluded: every thread can always go on from where it is, a blocked one by a spurious wake-up,
      and notify_one may wake any blocked worker. */
  lemma EverySchedule(s: State, i: nat, checks: seq<Check>, woken: nat)
    requires i < |s.threads|
    ensures match s.threads[i]
            case Working(rest, _, _) => Enabled(s, if rest == [] then Lock(i) else Call(i))
            case Woken => Enabled(s, Resume(i))
            case Blocked => Enabled(s, Spurious(i))
            case Outside =>
              i == 0 ==>
                && Enabled(s, Wait)
                && (1 <= woken < |s.threads| && s.threads[woken].Blocked? ==> Enabled(s, Add(checks, woken)))
                && ((forall j :: 1 <= j < |s.threads| ==> !s.threads[j].Blocked?) ==> Enabled(s, Add(checks, woken)))
  {
  }

  // ----- the critical section -----

  function Min(a: nat, b: nat): nat { if a < b then a else b }

  function Max(a: nat, b: nat): nat { if a < b then b else a }

  // The share of the queue one thread takes; the divisor is positive in every reachable state.
  function Share(queued: nat, parts: int): (n: nat)
    ensures n <= queued
  {
    if parts <= 0 then 0 else
    DivAtMost(queued, parts);
    queued / parts
  }

  lemma DivAtMost(a: nat, b: nat)
    requires b > 0
    ensures 0 <= a / b <= a
  {
    MulAtLeast(b, a / b);
  }

  lemma {:induction false} MulAtLeast(b: nat, q: nat)
    requires b > 0
    ensures b * q >= q
  {
    if b > 1 {
      MulAtLeast(b - 1, q);
      assert b * q == (b - 1) * q + q;
    }
  }

  function BatchSize(s: State): (n: nat)
    requires s.queue != []
    ensures 1 <= n <= |s.queue| && n <= Max(1, s.nBatchSize)
  {
    Max(1, Min(s.nBatchSize, Share(|s.queue|, s.nTotal + s.nIdle + 1)))
  }

  /** A batch of several checks leaves as many for each of the other threads, and a batch is as large as this
      and the limit allow. */
  lemma BatchIsFair(s: State)
    requires s.queue != [] && s.nTotal + s.nIdle >= 0
    ensures BatchSize(s) > 1 ==> BatchSize(s) * (s.nTotal + s.nIdle) <= |s.queue| - BatchSize(s)
    ensures BatchSize(s) < s.nBatchSize ==> (BatchSize(s) + 1) * (s.nTotal + s.nIdle + 1) > |s.queue|
  {
    var parts, n := s.nTotal + s.nIdle + 1, BatchSize(s);
    ShareIs(|s.queue|, parts);
    hide Share;
    var q := Share(|s.queue|, parts);
    if n > 1 {
      MulMonotone(n, q, parts);
      OneLess(n, parts);
    }
    if n < s.nBatchSize {
      MulMonotone(q + 1, n + 1, parts);
    }
  }

  lemma ShareIs(queued: nat, parts: nat)
    requires parts > 0
    ensures var q := Share(queued, parts); q * parts <= queued < (q + 1) * parts
  {
    var q := queued / parts;
    assert queued == parts * q + queued % parts && (q + 1) * parts == q * parts + parts;
  }

  lemma OneLess(n: nat, parts: int)
    ensures n * (parts - 1) == n * parts - n
  {
  }

  lemma {:induction false} MulMonotone(a: nat, b: nat, c: nat)
    requires a <= b
    ensures a * c <= b * c
  {
    if c > 0 {
      MulMonotone(a, b, c - 1);
      assert a * c == a * (c - 1) + a && b * c == b * (c - 1) + b;
    }
  }

  function Reverse(c: seq<Check>): (r: seq<Check>)
    ensures |r| == |c|
  {
    if c == [] then [] else Reverse(c[1..]) + [c[0]]
  }

  lemma {:induction false} ReverseTurns(c: seq<Check>, k: nat)
    requires k < |c|
    ensures Reverse(c)[k] == c[|c| - 1 - k]
    decreases |c|
  {
    if k < |c| - 1 {
      ReverseTurns(c[1..], k);
    }
  }

  lemma {:induction false} ReverseKeeps(c: seq<Check>)
    ensures multiset(Reverse(c)) == multiset(c)
  {
    if c != [] {
      ReverseKeeps(c[1..]);
      assert c == [c[0]] + c[1..];
    }
  }

  // The loop that moves the last n queued checks into the batch, popping from the back.
  method TakeBatch(queue: seq<Check>, n: nat) returns (rest: seq<Check>, batch: seq<Check>)
    requires n <= |queue|
    ensures rest == queue[..|queue| - n] && batch == Reverse(queue[|queue| - n..])
    ensures |batch| == n && forall k :: 0 <= k < n ==> batch[k] == queue[|queue| - 1 - k]
  {
    rest, batch := queue, [];
    for i := 0 to n
      invariant rest == queue[..|queue| - i] && batch == Reverse(queue[|queue| - i..])
    {
      var last := |rest| - 1;
      assert queue[|queue| - i - 1..][1..] == queue[|queue| - i..];
      rest, batch := rest[..last], batch + [rest[last]];
    }
    forall k | 0 <= k < n
      ensures batch[k] == queue[|queue| - 1 - k]
    {
      ReverseTurns(queue[|queue| - n..], k);
    }
  }

  function Notified(t: Thread): Thread {
    if t.Blocked? then Woken else t
  }

  // The body of `while (queue.empty())` and what follows it, up to releasing the mutex.
  function Dispatch(s: State, i: nat): State
    requires i < |s.threads|
  {
    if s.queue == [] then
      if i == 0 && s.nTodo == 0 then
        s.(nTotal := s.nTotal - 1, fAllOk := true, threads := s.threads[0 := Outside],
           added := multiset{}, ran := multiset{}, skipped := multiset{})
      else
        s.(nIdle := s.nIdle + 1, threads := s.threads[i := Blocked])
    else
      var n := BatchSize(s);
      s.(queue := s.queue[..|s.queue| - n],
         threads := s.threads[i := Working(Reverse(s.queue[|s.queue| - n..]), n, s.fAllOk)])
  }

  // The clean-up of the previous batch at the top of the critical section.
  function CleanUp(s: State, i: nat): State
    requires Enabled(s, Lock(i))
  {
    var t := s.threads[i];
    if t.nNow == 0 then s.(nTotal := s.nTotal + 1) else
    var todo := s.nTodo - t.nNow;
    s.(fAllOk := s.fAllOk && t.ok, nTodo := todo,
       threads := if todo == 0 && i != 0 then s.threads[0 := Notified(s.threads[0])] else s.threads)
  }

  function NotifyWorkers(threads: seq<Thread>, n: nat, woken: nat): (r: seq<Thread>)
    ensures |r| == |threads|
  {
    if n == 0 then threads
    else if n == 1 then (if 1 <= woken < |threads| then threads[woken := Notified(threads[woken])] else threads)
    else seq(|threads|, i requires 0 <= i < |threads| => if i == 0 then threads[i] else Notified(threads[i]))
  }

  function Called(t: Thread): Thread
    requires t.Working? && t.rest != []
  {
    Working(t.rest[1..], t.nNow, t.ok && t.rest[0].verdict)
  }

  function Next(s: State, step: Step): State
    requires Enabled(s, step)
  {
    match step
    case Add(checks, woken) =>
      s.(queue := s.queue + checks, nTodo := s.nTodo + |checks|, added := s.added + multiset(checks),
         threads := NotifyWorkers(s.threads, |checks|, woken))
    case Wait => s.(threads := s.threads[0 := Working([], 0, true)])
    case Lock(i) => Dispatch(CleanUp(s, i), i)
    case Resume(i) => Dispatch(s.(nIdle := s.nIdle - 1), i)
    case Call(i) =>
      var t := s.threads[i];
      s.(ran := if t.ok then s.ran + multiset{t.rest[0]} else s.ran,
         skipped := if t.ok then s.skipped else s.skipped + multiset{t.rest[0]},
         threads := s.threads[i := Called(t)])
    case Spurious(i) => s.(threads := s.threads[i := Woken])
  }

  // The state in which the critical section of a step looks at the queue.
  function AtDispatch(s: State, step: Step): State
    requires Enabled(s, step) && (step.Lock? || step.Resume?)
  {
    if step.Lock? then CleanUp(s, step.thread) else s.(nIdle := s.nIdle - 1)
  }

  // What Wait returns, when this step is the one in which it returns.
  function Returns(s: State, step: Step): Option<bool>
    requires Enabled(s, step)
  {
    if (step.Lock? || step.Resume?) && step.thread == 0 && AtDispatch(s, step).queue == []
       && AtDispatch(s, step).nTodo == 0
    then Some(AtDispatch(s, step).fAllOk)
    else None
  }

  // ----- sums over the threads -----

  ghost function Sum(ts: seq<Thread>, f: Thread -> nat): nat {
    if ts == [] then 0 else f(ts[0]) + Sum(ts[1..], f)
  }

  lemma {:induction false} SumUpdate(ts: seq<Thread>, f: Thread -> nat, i: nat, t: Thread)
    requires i < |ts|
    ensures Sum(ts[i := t], f) + f(ts[i]) == Sum(ts, f) + f(t)
    ensures Sum(ts, f) >= f(ts[i])
  {
    if i > 0 {
      SumUpdate(ts[1..], f, i - 1, t);
      assert ts[i := t][1..] == ts[1..][i - 1 := t];
    } else {
      assert ts[i := t][1..] == ts[1..];
    }
  }

  lemma {:induction false} SumSame(ts: seq<Thread>, us: seq<Thread>, f: Thread -> nat)
    requires |ts| == |us| && forall i :: 0 <= i < |ts| ==> f(ts[i]) == f(us[i])
    ensures Sum(ts, f) == Sum(us, f)
  {
    if ts != [] {
      SumSame(ts[1..], us[1..], f);
    }
  }

  lemma {:induction false} SumPositive(ts: seq<Thread>, f: Thread -> nat) returns (i: nat)
    requires Sum(ts, f) > 0
    ensures i < |ts| && f(ts[i]) > 0
  {
    if f(ts[0]) > 0 {
      i := 0;
    } else {
      i := SumPositive(ts[1..], f);
      i := i + 1;
    }
  }

  function HeldBy(t: Thread): nat { t.Held() }

  function IdleBy(t: Thread): nat { t.Idle() }

  function CountedBy(t: Thread): nat { t.Counted() }

  // How often a check is pending in a thread's batch.
  function PendingBy(c: Check): Thread -> nat {
    (t: Thread) => t.Pending()[c]
  }

  // ----- the invariant -----

  ghost predicate SomeFailed(m: multiset<Check>) {
    exists c :: c in m && !c.verdict
  }

  ghost predicate SomeThreadFailed(ts: seq<Thread>) {
    exists i :: 0 <= i < |ts| && ts[i].Failed()
  }

  // Each check added is queued, pending in a batch, run or dropped, as often as it was added.
  ghost predicate ConservedAt(s: State, ts: seq<Thread>, c: Check) {
    s.added[c] == multiset(s.queue)[c] + Sum(ts, PendingBy(c)) + s.ran[c] + s.skipped[c]
  }

  ghost predicate Conserved(s: State, ts: seq<Thread>) {
    forall c :: ConservedAt(s, ts, c)
  }

  // The counters are exact and every added check is in exactly one place.
  ghost predicate Balanced(s: State) {
    && s.nTodo == |s.queue| + Sum(s.threads, HeldBy)
    && s.nIdle == Sum(s.threads, IdleBy)
    && s.nTotal == Sum(s.threads, CountedBy)
    && Conserved(s, s.threads)
  }

  // A failure is remembered until the clean-up reports it, and nothing else counts as one.
  ghost predicate Truthful(s: State) {
    && (!s.fAllOk || SomeThreadFailed(s.threads) <==> SomeFailed(s.ran))
    && (s.skipped != multiset{} ==> SomeFailed(s.ran))
  }

  ghost predicate Shaped(s: State) {
    && |s.threads| > 0
    && (forall i :: 0 < i < |s.threads| ==> !s.threads[i].Outside?)
    && (forall i :: 0 <= i < |s.threads| && s.threads[i].Working? ==>
          |s.threads[i].rest| <= s.threads[i].nNow && (s.threads[i].nNow == 0 ==> s.threads[i].ok))
    && (s.threads[0].Blocked? ==> s.queue == [] && s.nTodo > 0)
  }

  ghost predicate Inv(s: State) {
    Balanced(s) && Truthful(s) && Shaped(s)
  }

  predicate Init(s: State) {
    && s.queue == [] && s.nIdle == s.nTotal == s.nTodo == 0 && s.fAllOk
    && |s.threads| > 0 && s.threads[0] == Outside
    && (forall i :: 0 < i < |s.threads| ==> s.threads[i] == Working([], 0, true))
    && s.added == s.ran == s.skipped == multiset{}
  }

  // ----- every step keeps the invariant -----

  lemma {:induction false} SumZero(ts: seq<Thread>, f: Thread -> nat)
    requires forall i :: 0 <= i < |ts| ==> f(ts[i]) == 0
    ensures Sum(ts, f) == 0
  {
    if ts != [] {
      SumZero(ts[1..], f);
    }
  }

  lemma InitInv(s: State)
    requires Init(s)
    ensures Inv(s)
  {
    SumZero(s.threads, HeldBy);
    SumZero(s.threads, IdleBy);
    SumZero(s.threads, CountedBy);
    forall c
      ensures Sum(s.threads, PendingBy(c)) == 0
    {
      SumZero(s.threads, PendingBy(c));
    }
    assert forall c :: ConservedAt(s, s.threads, c);
  }

  // The effect on every counter of changing one thread.
  lemma Replaced(ts: seq<Thread>, i: nat, t: Thread)
    requires i < |ts|
    ensures Sum(ts[i := t], HeldBy) == Sum(ts, HeldBy) - ts[i].Held() + t.Held()
    ensures Sum(ts[i := t], IdleBy) == Sum(ts, IdleBy) - ts[i].Idle() + t.Idle()
    ensures Sum(ts[i := t], CountedBy) == Sum(ts, CountedBy) - ts[i].Counted() + t.Counted()
    ensures forall c :: Sum(ts[i := t], PendingBy(c)) == Sum(ts, PendingBy(c)) - ts[i].Pending()[c] + t.Pending()[c]
  {
    SumUpdate(ts, HeldBy, i, t);
    SumUpdate(ts, IdleBy, i, t);
    SumUpdate(ts, CountedBy, i, t);
    forall c
      ensures Sum(ts[i := t], PendingBy(c)) == Sum(ts, PendingBy(c)) - ts[i].Pending()[c] + t.Pending()[c]
    {
      SumUpdate(ts, PendingBy(c), i, t);
    }
  }

  // Whether some thread remembers a failure, apart from thread i.
  ghost predicate OtherFailed(ts: seq<Thread>, i: nat) {
    exists j :: 0 <= j < |ts| && j != i && ts[j].Failed()
  }

  lemma FailedSplit(ts: seq<Thread>, i: nat)
    requires i < |ts|
    ensures SomeThreadFailed(ts) <==> ts[i].Failed() || OtherFailed(ts, i)
  {
  }

  lemma OthersSame(ts: seq<Thread>, us: seq<Thread>, i: nat)
    requires |ts| == |us| && forall j :: 0 <= j < |ts| && j != i ==> us[j].Failed() == ts[j].Failed()
    ensures OtherFailed(us, i) <==> OtherFailed(ts, i)
  {
    if OtherFailed(ts, i) {
      var j :| 0 <= j < |ts| && j != i && ts[j].Failed();
      assert us[j].Failed();
    }
  }

  // Waking blocked threads changes no counter.
  lemma WokenSame(ts: seq<Thread>, us: seq<Thread>)
    requires |ts| == |us| && forall i :: 0 <= i < |ts| ==> us[i] == ts[i] || us[i] == Notified(ts[i])
    ensures Sum(us, HeldBy) == Sum(ts, HeldBy)
    ensures Sum(us, IdleBy) == Sum(ts, IdleBy)
    ensures Sum(us, CountedBy) == Sum(ts, CountedBy)
    ensures forall c :: Sum(us, PendingBy(c)) == Sum(ts, PendingBy(c))
    ensures SomeThreadFailed(us) <==> SomeThreadFailed(ts)
  {
    SumSame(ts, us, HeldBy);
    SumSame(ts, us, IdleBy);
    SumSame(ts, us, CountedBy);
    forall c
      ensures Sum(us, PendingBy(c)) == Sum(ts, PendingBy(c))
    {
      SumSame(ts, us, PendingBy(c));
    }
    OthersSame(ts, us, |ts|);
    assert SomeThreadFailed(us) <==> OtherFailed(us, |ts|);
    assert SomeThreadFailed(ts) <==> OtherFailed(ts, |ts|);
  }

  // Conservation carries over when neither the history nor what the threads hold changes.
  lemma SameConserved(s: State, ts: seq<Thread>, r: State, us: seq<Thread>)
    requires Conserved(s, ts)
    requires r.added == s.added && r.queue == s.queue && r.ran == s.ran && r.skipped == s.skipped
    requires forall c :: Sum(us, PendingBy(c)) == Sum(ts, PendingBy(c))
    ensures Conserved(r, us)
  {
    forall c
      ensures ConservedAt(r, us, c)
    {
      assert ConservedAt(s, ts, c);
    }
  }

  lemma AddInv(s: State, checks: seq<Check>, woken: nat)
    requires Inv(s) && Enabled(s, Add(checks, woken))
    ensures Inv(Next(s, Add(checks, woken)))
  {
    hide Sum;
    var s' := Next(s, Add(checks, woken));
    WokenSame(s.threads, s'.threads);
    assert multiset(s.queue + checks) == multiset(s.queue) + multiset(checks);
    forall c
      ensures ConservedAt(s', s'.threads, c)
    {
      assert ConservedAt(s, s.threads, c);
    }
  }

  lemma CalledPending(t: Thread, c: Check)
    requires t.Working? && t.rest != []
    ensures t.Pending()[c] == Called(t).Pending()[c] + if c == t.rest[0] then 1 else 0
  {
    assert t.rest == [t.rest[0]] + t.rest[1..];
  }

  lemma CallConserved(s: State, i: nat, c: Check)
    requires Enabled(s, Call(i)) && ConservedAt(s, s.threads, c)
    ensures ConservedAt(Next(s, Call(i)), s.threads[i := Called(s.threads[i])], c)
  {
    hide Sum;
    var r, t := Next(s, Call(i)), s.threads[i];
    SumUpdate(s.threads, PendingBy(c), i, Called(t));
    CalledPending(t, c);
    assert r.ran[c] + r.skipped[c] == s.ran[c] + s.skipped[c] + if c == t.rest[0] then 1 else 0;
  }

  lemma CallBalanced(s: State, i: nat)
    requires Balanced(s) && Enabled(s, Call(i))
    ensures Balanced(Next(s, Call(i)))
  {
    hide ConservedAt, Sum;
    var t := s.threads[i];
    SumUpdate(s.threads, HeldBy, i, Called(t));
    SumUpdate(s.threads, IdleBy, i, Called(t));
    SumUpdate(s.threads, CountedBy, i, Called(t));
    var r, us := Next(s, Call(i)), s.threads[i := Called(t)];
    forall c
      ensures ConservedAt(r, us, c)
    {
      CallConserved(s, i, c);
    }
  }

  lemma CallShaped(s: State, i: nat)
    requires Shaped(s) && Enabled(s, Call(i))
    ensures Shaped(Next(s, Call(i)))
  {
  }

  lemma CallTruthful(s: State, i: nat)
    requires Inv(s) && Enabled(s, Call(i))
    ensures Truthful(Next(s, Call(i)))
  {
    var t, c := s.threads[i], s.threads[i].rest[0];
    var s' := Next(s, Call(i));
    FailedSplit(s.threads, i);
    FailedSplit(s'.threads, i);
    OthersSame(s.threads, s'.threads, i);
    if t.ok {
      assert SomeFailed(s'.ran) <==> SomeFailed(s.ran) || !c.verdict by {
        assert c in s'.ran;
        assert forall d :: d in s.ran ==> d in s'.ran;
      }
    }
  }

  // A thread whose batch is counted, or that is only waking up, at the point where it looks at the
  // queue: the invariant with that thread set aside.
  ghost predicate ReadyBalanced(s: State, i: nat) {
    && i < |s.threads|
    && s.nTodo == |s.queue| + Sum(s.threads[i := Outside], HeldBy)
    && s.nIdle == Sum(s.threads[i := Outside], IdleBy)
    && s.nTotal == Sum(s.threads[i := Outside], CountedBy) + 1
    && Conserved(s, s.threads[i := Outside])
  }

  ghost predicate ReadyTruthful(s: State, i: nat) {
    && i < |s.threads|
    && (!s.fAllOk || OtherFailed(s.threads, i) <==> SomeFailed(s.ran))
    && (s.skipped != multiset{} ==> SomeFailed(s.ran))
  }

  ghost predicate ReadyShaped(s: State, i: nat) {
    && i < |s.threads|
    && (forall j :: 0 < j < |s.threads| && j != i ==> !s.threads[j].Outside?)
    && (forall j :: 0 <= j < |s.threads| && j != i && s.threads[j].Working? ==>
          |s.threads[j].rest| <= s.threads[j].nNow && (s.threads[j].nNow == 0 ==> s.threads[j].ok))
    && (i != 0 && s.threads[0].Blocked? ==> s.queue == [] && s.nTodo > 0)
  }

  lemma CleanUpBalanced(s: State, i: nat)
    requires Balanced(s) && Enabled(s, Lock(i))
    ensures ReadyBalanced(CleanUp(s, i), i)
  {
    hide Sum;
    var r := CleanUp(s, i);
    Replaced(s.threads, i, Outside);
    WokenSame(s.threads[i := Outside], r.threads[i := Outside]);
    assert s.threads[i].Pending() == multiset{};
    SameConserved(s, s.threads, r, r.threads[i := Outside]);
  }

  lemma CleanUpTruthful(s: State, i: nat)
    requires Truthful(s) && Shaped(s) && Enabled(s, Lock(i))
    ensures ReadyTruthful(CleanUp(s, i), i)
  {
    var r := CleanUp(s, i);
    FailedSplit(s.threads, i);
    OthersSame(s.threads, r.threads, i);
  }

  lemma CleanUpShaped(s: State, i: nat)
    requires Balanced(s) && Shaped(s) && Enabled(s, Lock(i))
    ensures ReadyShaped(CleanUp(s, i), i)
  {
    SumUpdate(s.threads, HeldBy, i, s.threads[i]);
  }

  lemma ResumeReady(s: State, i: nat)
    requires Inv(s) && Enabled(s, Resume(i))
    ensures var r := s.(nIdle := s.nIdle - 1);
            ReadyBalanced(r, i) && ReadyTruthful(r, i) && ReadyShaped(r, i)
  {
    hide Sum;
    Replaced(s.threads, i, Outside);
    FailedSplit(s.threads, i);
    SameConserved(s, s.threads, s.(nIdle := s.nIdle - 1), s.threads[i := Outside]);
  }

  // With nothing queued and nothing held, every added check has been run or dropped.
  lemma AllDone(s: State)
    requires ReadyBalanced(s, 0) && ReadyShaped(s, 0) && s.queue == [] && s.nTodo == 0
    ensures s.added == s.ran + s.skipped
    ensures !OtherFailed(s.threads, 0)
    ensures forall c :: Sum(s.threads[0 := Outside], PendingBy(c)) == 0
  {
    var us := s.threads[0 := Outside];
    forall j | 0 <= j < |us|
      ensures us[j].Pending() == multiset{} && !us[j].Failed()
    {
      SumUpdate(us, HeldBy, j, us[j]);
      assert us[j].Held() == 0;
    }
    forall c
      ensures Sum(us, PendingBy(c)) == 0 && s.added[c] == (s.ran + s.skipped)[c]
    {
      SumZero(us, PendingBy(c));
      assert ConservedAt(s, us, c);
    }
  }

  lemma BatchConserved(queue: seq<Check>, k: nat, c: Check)
    requires k <= |queue|
    ensures multiset(queue)[c] == multiset(queue[..k])[c] + multiset(Reverse(queue[k..]))[c]
  {
    assert queue == queue[..k] + queue[k..];
    assert multiset(queue) == multiset(queue[..k]) + multiset(queue[k..]);
    ReverseKeeps(queue[k..]);
  }

  // The checks that leave the queue are pending in the batch.
  lemma TakenConserved(s: State, i: nat, c: Check)
    requires i < |s.threads| && s.queue != [] && ConservedAt(s, s.threads[i := Outside], c)
    ensures ConservedAt(Dispatch(s, i), Dispatch(s, i).threads, c)
  {
    hide Sum, Reverse, BatchSize;
    var us, r := s.threads[i := Outside], Dispatch(s, i);
    assert r.threads == us[i := r.threads[i]];
    SumUpdate(us, PendingBy(c), i, r.threads[i]);
    BatchConserved(s.queue, |s.queue| - BatchSize(s), c);
  }

  lemma DispatchConserved(s: State, i: nat, c: Check)
    requires ReadyBalanced(s, i) && ReadyShaped(s, i)
    ensures ConservedAt(Dispatch(s, i), Dispatch(s, i).threads, c)
  {
    hide Sum, Reverse, BatchSize, ReadyShaped;
    var us, r := s.threads[i := Outside], Dispatch(s, i);
    assert ConservedAt(s, us, c);
    if s.queue != [] {
      TakenConserved(s, i, c);
    } else {
      assert r.threads == us[i := r.threads[i]];
      SumUpdate(us, PendingBy(c), i, r.threads[i]);
      if i == 0 && s.nTodo == 0 {
        AllDone(s);
      }
    }
  }

  lemma DispatchBalanced(s: State, i: nat)
    requires ReadyBalanced(s, i) && ReadyShaped(s, i)
    ensures Balanced(Dispatch(s, i))
  {
    hide ConservedAt, Sum;
    var us := s.threads[i := Outside];
    var r := Dispatch(s, i);
    assert r.threads == us[i := r.threads[i]];
    SumUpdate(us, HeldBy, i, r.threads[i]);
    SumUpdate(us, IdleBy, i, r.threads[i]);
    SumUpdate(us, CountedBy, i, r.threads[i]);
    forall c
      ensures ConservedAt(r, r.threads, c)
    {
      DispatchConserved(s, i, c);
    }
  }

  lemma DispatchTruthful(s: State, i: nat)
    requires ReadyBalanced(s, i) && ReadyTruthful(s, i) && ReadyShaped(s, i)
    ensures Truthful(Dispatch(s, i))
  {
    hide ReadyBalanced, ReadyShaped;
    var r := Dispatch(s, i);
    FailedSplit(r.threads, i);
    OthersSame(s.threads, r.threads, i);
    if s.queue == [] && i == 0 && s.nTodo == 0 {
      AllDone(s);
    }
  }

  lemma DispatchShaped(s: State, i: nat)
    requires ReadyBalanced(s, i) && ReadyShaped(s, i)
    ensures Shaped(Dispatch(s, i))
  {
    var r := Dispatch(s, i);
    assert forall j :: 0 <= j < |s.threads| && j != i ==> r.threads[j] == s.threads[j];
    if s.queue == [] {
    }
  }

  lemma DispatchInv(s: State, i: nat)
    requires ReadyBalanced(s, i) && ReadyTruthful(s, i) && ReadyShaped(s, i)
    ensures Inv(Dispatch(s, i))
  {
    hide Balanced, Truthful, Shaped, ReadyBalanced, ReadyTruthful, ReadyShaped, Dispatch;
    DispatchBalanced(s, i);
    DispatchTruthful(s, i);
    DispatchShaped(s, i);
  }

  lemma WaitInv(s: State)
    requires Inv(s) && Enabled(s, Wait)
    ensures Inv(Next(s, Wait))
  {
    hide Sum;
    var r := Next(s, Wait);
    Replaced(s.threads, 0, Working([], 0, true));
    FailedSplit(s.threads, 0);
    FailedSplit(r.threads, 0);
    OthersSame(s.threads, r.threads, 0);
    SameConserved(s, s.threads, r, r.threads);
  }

  lemma SpuriousInv(s: State, i: nat)
    requires Inv(s) && Enabled(s, Spurious(i))
    ensures Inv(Next(s, Spurious(i)))
  {
    hide Sum;
    var r := Next(s, Spurious(i));
    WokenSame(s.threads, r.threads);
    SameConserved(s, s.threads, r, r.threads);
  }

  lemma LockInv(s: State, i: nat)
    requires Inv(s) && Enabled(s, Lock(i))
    ensures Inv(Next(s, Lock(i)))
  {
    hide Balanced, Truthful, Shaped, ReadyBalanced, ReadyTruthful, ReadyShaped, Dispatch, CleanUp;
    CleanUpBalanced(s, i);
    CleanUpTruthful(s, i);
    CleanUpShaped(s, i);
    DispatchInv(CleanUp(s, i), i);
  }

  lemma CallInv(s: State, i: nat)
    requires Inv(s) && Enabled(s, Call(i))
    ensures Inv(Next(s, Call(i)))
  {
    hide Balanced, Truthful, Shaped, Next;
    CallBalanced(s, i);
    CallTruthful(s, i);
    CallShaped(s, i);
  }

  lemma NextInv(s: State, step: Step)
    requires Inv(s) && Enabled(s, step)
    ensures Inv(Next(s, step))
  {
    hide Inv, Balanced, Truthful, Shaped, ReadyBalanced, ReadyTruthful, ReadyShaped, Dispatch, CleanUp;
    match step
    case Add(checks, woken) => AddInv(s, checks, woken);
    case Wait => WaitInv(s);
    case Lock(i) => LockInv(s, i);
    case Resume(i) =>
      ResumeReady(s, i);
      DispatchInv(s.(nIdle := s.nIdle - 1), i);
    case Call(i) => CallInv(s, i);
    case Spurious(i) => SpuriousInv(s, i);
  }

  // ----- runs -----

  ghost predicate Run(s: State, steps: seq<Step>, t: State)
    decreases |steps|
  {
    if steps == [] then s == t
    else Enabled(s, steps[0]) && Run(Next(s, steps[0]), steps[1..], t)
  }

  ghost predicate Reachable(t: State) {
    exists s, steps :: Init(s) && Run(s, steps, t)
  }

  lemma {:induction false} RunInv(s: State, steps: seq<Step>, t: State)
    requires Inv(s) && Run(s, steps, t)
    ensures Inv(t)
    decreases |steps|
  {
    if steps != [] {
      NextInv(s, steps[0]);
      RunInv(Next(s, steps[0]), steps[1..], t);
    }
  }

  lemma ReachableInv(t: State)
    requires Reachable(t)
    ensures Inv(t)
  {
    var s, steps :| Init(s) && Run(s, steps, t);
    InitInv(s);
    RunInv(s, steps, t);
  }

  /** In every reachable state nTodo counts the queued checks and those of unfinished batches, and
      no check has been run more often than it was added. */
  lemma CountersExact(s: State)
    requires Reachable(s)
    ensures s.nTodo == |s.queue| + Sum(s.threads, HeldBy)
    ensures s.ran <= s.added
    ensures s.nTotal + s.nIdle + 1 > 0
  {
    ReachableInv(s);
    forall c
      ensures s.ran[c] <= s.added[c]
    {
      assert ConservedAt(s, s.threads, c);
    }
  }

  /** A Wait that returns in a reachable state returns whether all checks added since the previous
      return of Wait are true; when they are, each of them has been run exactly once. */
  lemma WaitIsExact(s: State, step: Step)
    requires Reachable(s) && Enabled(s, step) && Returns(s, step).Some?
    ensures Returns(s, step).value <==> (forall c :: c in s.added ==> c.verdict)
    ensures Returns(s, step).value ==> s.ran == s.added
    ensures Next(s, step).threads[0] == Outside && Next(s, step).fAllOk
  {
    hide ReadyTruthful, Sum, Conserved;
    ReachableInv(s);
    var r := AtDispatch(s, step);
    if step.Lock? {
      CleanUpBalanced(s, 0);
      CleanUpTruthful(s, 0);
      CleanUpShaped(s, 0);
    } else {
      ResumeReady(s, 0);
    }
    AllDone(r);
    ReturnsConjunction(r);
  }

  lemma ReturnsConjunction(r: State)
    requires r.added == r.ran + r.skipped && ReadyTruthful(r, 0) && !OtherFailed(r.threads, 0)
    ensures r.fAllOk <==> (forall c :: c in r.added ==> c.verdict)
    ensures r.fAllOk ==> r.ran == r.added
  {
    if r.fAllOk {
      assert !SomeFailed(r.ran);
    } else {
      var c :| c in r.ran && !c.verdict;
      assert c in r.added;
    }
  }

  // ----- progress -----

  /** Whenever the master is blocked and nobody has notified it, the queue is empty and some worker
      that is not blocked still holds checks it has to count. */
  lemma NoLostWakeup(s: State) returns (i: nat)
    requires Reachable(s) && s.threads != [] && s.threads[0].Blocked?
    ensures s.queue == [] && s.nTodo > 0
    ensures 0 < i < |s.threads| && s.threads[i].Working? && s.threads[i].nNow > 0
  {
    ReachableInv(s);
    i := SumPositive(s.threads, HeldBy);
  }

  /** Until Wait returns, some thread can take a step without a spurious wake-up. */
  lemma NeverStuck(s: State) returns (step: Step)
    requires Reachable(s) && s.threads != [] && !s.threads[0].Outside?
    ensures Enabled(s, step) && !step.Spurious? && !step.Add? && !step.Wait?
  {
    var i := 0;
    if s.threads[0].Blocked? {
      i := NoLostWakeup(s);
    }
    match s.threads[i]
    case Working(rest, _, _) => step := if rest == [] then Lock(i) else Call(i);
    case Woken => step := Resume(i);
  }

  // While checks are queued, some worker is not blocked.
  ghost predicate WorkerAwake(s: State) {
    s.queue == [] || |s.threads| <= 1 || exists i :: 1 <= i < |s.threads| && !s.threads[i].Blocked?
  }

  lemma AddAwake(s: State, checks: seq<Check>, woken: nat)
    requires WorkerAwake(s) && Enabled(s, Add(checks, woken))
    ensures WorkerAwake(Next(s, Add(checks, woken)))
  {
    var t := Next(s, Add(checks, woken));
    if t.queue != [] && |t.threads| > 1 {
      if checks == [] {
        assert !t.threads[AwakeWorker(s)].Blocked?;
      } else if |checks| == 1 && s.threads[1].Blocked? {
        assert !t.threads[woken].Blocked?;
      } else {
        assert !t.threads[1].Blocked?;
      }
    }
  }

  // One thread changes, and if it is a worker it is not blocked afterwards.
  lemma OneChangeAwake(s: State, t: State, i: nat)
    requires WorkerAwake(s) && i < |s.threads| && |t.threads| == |s.threads| && (s.queue == [] ==> t.queue == [])
    requires forall j :: 1 <= j < |s.threads| && j != i ==> t.threads[j] == s.threads[j]
    requires i > 0 && t.queue != [] ==> !t.threads[i].Blocked?
    ensures WorkerAwake(t)
  {
    if t.queue != [] && |t.threads| > 1 {
      var j := if i == 0 then AwakeWorker(s) else i;
      assert !t.threads[j].Blocked?;
    }
  }

  lemma DispatchAwake(s: State, i: nat)
    requires WorkerAwake(s) && i < |s.threads|
    ensures WorkerAwake(Dispatch(s, i))
  {
    hide BatchSize, Reverse, WorkerAwake;
    OneChangeAwake(s, Dispatch(s, i), i);
  }

  lemma CleanUpAwake(s: State, i: nat)
    requires WorkerAwake(s) && Enabled(s, Lock(i))
    ensures WorkerAwake(CleanUp(s, i)) && |CleanUp(s, i).threads| == |s.threads|
  {
    hide WorkerAwake;
    OneChangeAwake(s, CleanUp(s, i), 0);
  }

  lemma NextAwake(s: State, step: Step)
    requires WorkerAwake(s) && Enabled(s, step)
    ensures WorkerAwake(Next(s, step))
  {
    hide WorkerAwake, NotifyWorkers, Dispatch, CleanUp;
    match step
    case Add(checks, woken) => AddAwake(s, checks, woken);
    case Wait => OneChangeAwake(s, Next(s, step), 0);
    case Lock(i) =>
      CleanUpAwake(s, i);
      DispatchAwake(CleanUp(s, i), i);
    case Resume(i) =>
      var r := s.(nIdle := s.nIdle - 1);
      OneChangeAwake(s, r, 0);
      DispatchAwake(r, i);
    case Call(i) => OneChangeAwake(s, Next(s, step), i);
    case Spurious(i) => OneChangeAwake(s, Next(s, step), i);
  }

  ghost function AwakeWorker(s: State): (i: nat)
    requires WorkerAwake(s) && s.queue != [] && |s.threads| > 1
    ensures 1 <= i < |s.threads| && !s.threads[i].Blocked?
  {
    var i :| 1 <= i < |s.threads| && !s.threads[i].Blocked?;
    i
  }

  lemma {:induction false} RunAwake(s: State, steps: seq<Step>, t: State)
    requires WorkerAwake(s) && Run(s, steps, t)
    ensures WorkerAwake(t)
    decreases |steps|
  {
    if steps != [] {
      NextAwake(s, steps[0]);
      RunAwake(Next(s, steps[0]), steps[1..], t);
    }
  }

  /** No wake-up of the workers is lost: in every reachable state with queued checks, some worker can go on
      without the master and without a spurious wake-up. */
  lemma WorkersNeverStuck(s: State) returns (step: Step)
    requires Reachable(s) && s.queue != [] && |s.threads| > 1
    ensures WorkerAwake(s)
    ensures Enabled(s, step) && (step.Lock? || step.Resume? || step.Call?) && 1 <= step.thread < |s.threads|
  {
    ReachableInv(s);
    var r, steps :| Init(r) && Run(r, steps, s);
    RunAwake(r, steps, s);
    var i := AwakeWorker(s);
    match s.threads[i]
    case Working(rest, _, _) => step := if rest == [] then Lock(i) else Call(i);
    case Woken => step := Resume(i);
  }

  lemma {:induction false} RunExtends(s: State, steps: seq<Step>, t: State, step: Step)
    requires Run(s, steps, t) && Enabled(t, step)
    ensures Run(s, steps + [step], Next(t, step))
    decreases |steps|
  {
    if steps != [] {
      RunExtends(Next(s, steps[0]), steps[1..], t, step);
      assert (steps + [step])[1..] == steps[1..] + [step];
    } else {
      assert Run(Next(s, step), [step][1..], Next(t, step));
    }
  }

  lemma ReachableNext(s: State, step: Step)
    requires Reachable(s) && Enabled(s, step)
    ensures Reachable(Next(s, step))
  {
    var r, steps :| Init(r) && Run(r, steps, s);
    RunExtends(r, steps, s, step);
  }

  predicate ByWorkers(steps: seq<Step>) {
    forall k :: 0 <= k < |steps| ==> (steps[k].Lock? || steps[k].Resume? || steps[k].Call?) && steps[k].thread >= 1
  }

  /** With at least one worker, the workers alone can always empty the queue. */
  lemma {:induction false} WorkersDrain(s: State) returns (steps: seq<Step>, t: State)
    requires Reachable(s) && |s.threads| > 1
    ensures Run(s, steps, t) && ByWorkers(steps) && t.queue == []
    decreases Measure(s)
  {
    hide Measure, Next, Enabled, Inv, Init;
    if s.queue == [] {
      steps, t := [], s;
    } else {
      var step := WorkersNeverStuck(s);
      WorkerStep(s, step);
      var rest;
      rest, t := WorkersDrain(Next(s, step));
      steps := [step] + rest;
      assert steps[1..] == rest;
    }
  }

  lemma WorkerStep(s: State, step: Step)
    requires Reachable(s) && Enabled(s, step) && (step.Lock? || step.Resume? || step.Call?)
    ensures Reachable(Next(s, step)) && Measure(Next(s, step)) < Measure(s)
    ensures |Next(s, step).threads| == |s.threads|
  {
    hide Measure, Reachable, Balanced, Truthful, Shaped, Next, Enabled;
    ReachableNext(s, step);
    ReachableInv(s);
    StepShrinks(s, step);
    ThreadsStay(s, step);
  }

  lemma ThreadsStay(s: State, step: Step)
    requires Enabled(s, step)
    ensures |Next(s, step).threads| == |s.threads|
  {
    hide BatchSize, Reverse, NotifyWorkers, Called, Notified;
  }

  function WeightBy(t: Thread): nat { t.Weight() }

  ghost function Measure(s: State): nat {
    3 * |s.queue| + Sum(s.threads, WeightBy)
  }

  function Spuriousness(steps: seq<Step>): nat {
    if steps == [] then 0 else (if steps[0].Spurious? then 1 else 0) + Spuriousness(steps[1..])
  }

  lemma DispatchShrinks(s: State, i: nat)
    requires i < |s.threads| && s.threads[i].Weight() > 0
    requires s.threads[i].Working? ==> s.threads[i].rest == []
    ensures Measure(Dispatch(s, i)) < Measure(s)
    ensures s.queue == [] ==> Measure(Dispatch(s, i)) == Measure(s) - s.threads[i].Weight()
  {
    hide Sum;
    SumUpdate(s.threads, WeightBy, i, Dispatch(s, i).threads[i]);
  }

  // A clean-up wakes the master only when nothing is queued any more.
  lemma LockShrinks(s: State, i: nat)
    requires Balanced(s) && Enabled(s, Lock(i))
    ensures Measure(Next(s, Lock(i))) < Measure(s)
  {
    hide Dispatch, Sum, Conserved;
    var r := CleanUp(s, i);
    DispatchShrinks(r, i);
    if r.threads != s.threads {
      SumUpdate(s.threads, WeightBy, 0, Notified(s.threads[0]));
      SumUpdate(s.threads, HeldBy, i, Outside);
    }
  }

  lemma StepShrinks(s: State, step: Step)
    requires Balanced(s) && Enabled(s, step) && !step.Add? && !step.Wait?
    ensures Measure(Next(s, step)) + 1 <= Measure(s) + if step.Spurious? then 2 else 0
  {
    hide Balanced, Dispatch, CleanUp, Sum;
    match step
    case Lock(i) => LockShrinks(s, i);
    case Resume(i) => DispatchShrinks(s.(nIdle := s.nIdle - 1), i);
    case Call(i) => SumUpdate(s.threads, WeightBy, i, Next(s, step).threads[i]);
    case Spurious(i) => SumUpdate(s.threads, WeightBy, i, Woken);
  }

  /** While the master is in Wait, the number of steps all threads together can take is bounded,
      whatever the schedule: at most Measure, plus two for each spurious wake-up. Together with
      NeverStuck, Wait returns. */
  lemma {:induction false} WaitReturns(s: State, steps: seq<Step>, t: State)
    requires Inv(s) && Run(s, steps, t)
    requires forall k :: 0 <= k < |steps| ==> !steps[k].Add? && !steps[k].Wait?
    ensures |steps| + Measure(t) <= Measure(s) + 2 * Spuriousness(steps)
    decreases |steps|
  {
    hide Balanced, Truthful, Shaped, Measure, Next;
    if steps != [] {
      StepShrinks(s, steps[0]);
      NextInv(s, steps[0]);
      WaitReturns(Next(s, steps[0]), steps[1..], t);
    }
  }
}
