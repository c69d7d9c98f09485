/** The clang-tidy runner: a producer puts every entry on a bounded queue, worker threads take
    entries, check them and record the result under a lock, and the producer joins the queue.
    The threads interleave in atomic steps. */
module TidyPool {

  /** The entries by number: their paths, whether their check succeeds, and the bound on the queue. */
  datatype Job = Job(paths: seq<string>, ok: seq<bool>, capacity: nat) {
    predicate Valid() {
      |paths| == |ok| && capacity > 0
    }

    predicate Fails(i: nat) {
      i < |paths| && i < |ok| && !ok[i]
    }
  }

  /** Where a worker is in its loop: waiting to take, checking an entry, about to record its result,
      about to report the task done. */
  datatype Worker = Idle | Checking(item: nat) | Checked(item: nat) | Recorded(item: nat)

  /** `put` entries have been put; `checked` and `recorded` are the histories of completed checks and of
      recorded results; `unfinished` is the queue's count of tasks not reported done. */
  datatype Pool = Pool(
    put: nat,
    queue: seq<nat>,
    unfinished: nat,
    joined: bool,
    workers: seq<Worker>,
    checked: seq<nat>,
    recorded: seq<nat>,
    successes: nat,
    failures: nat,
    failedFiles: seq<string>)

  datatype Step = Put | Get(w: nat) | Check(w: nat) | Record(w: nat) | TaskDone(w: nat) | Join

  ghost predicate Enabled(job: Job, s: Pool, step: Step) {
    match step
    case Put => s.put < |job.paths| && |s.queue| < job.capacity
    case Get(w) => w < |s.workers| && s.workers[w].Idle? && s.queue != []
    case Check(w) => w < |s.workers| && s.workers[w].Checking?
    case Record(w) => w < |s.workers| && s.workers[w].Checked? && s.workers[w].item < |job.ok|
    case TaskDone(w) => w < |s.workers| && s.workers[w].Recorded? && s.unfinished > 0
    case Join => s.put == |job.paths| && s.unfinished == 0 && !s.joined
  }

  ghost function Do(job: Job, s: Pool, step: Step): Pool
    requires job.Valid() && Enabled(job, s, step)
  {
    match step
    case Put => s.(put := s.put + 1, queue := s.queue + [s.put], unfinished := s.unfinished + 1)
    case Get(w) => s.(queue := s.queue[1..], workers := s.workers[w := Checking(s.queue[0])])
    case Check(w) =>
      var i := s.workers[w].item;
      s.(workers := s.workers[w := Checked(i)], checked := s.checked + [i])
    case Record(w) =>
      var i := s.workers[w].item;
      var s' := s.(workers := s.workers[w := Recorded(i)], recorded := s.recorded + [i]);
      if job.ok[i] then s'.(successes := s.successes + 1)
      else s'.(failures := s.failures + 1, failedFiles := s.failedFiles + [job.paths[i]])
    case TaskDone(w) => s.(workers := s.workers[w := Idle], unfinished := s.unfinished - 1)
    case Join => s.(joined := true)
  }

  ghost predicate IsStart(s: Pool) {
    s.put == 0 && s.queue == [] && s.unfinished == 0 && !s.joined && s.checked == [] && s.recorded == [] &&
    |s.workers| > 0 && forall w :: 0 <= w < |s.workers| ==> s.workers[w] == Idle
  }

  ghost predicate IsRun(job: Job, s: Pool, steps: seq<Step>)
    requires job.Valid()
    decreases |steps|
  {
    steps == [] || (Enabled(job, s, steps[0]) && IsRun(job, Do(job, s, steps[0]), steps[1..]))
  }

  ghost function After(job: Job, s: Pool, steps: seq<Step>): Pool
    requires job.Valid() && IsRun(job, s, steps)
    decreases |steps|
  {
    if steps == [] then s else After(job, Do(job, s, steps[0]), steps[1..])
  }

  // ----- Invariant -----

  /** The paths of the entries that fail, in the order given. */
  ghost function Failing(job: Job, items: seq<nat>): seq<string> {
    if items == [] then []
    else
      var n := |items| - 1;
      Failing(job, items[..n]) + (if job.Fails(items[n]) then [job.paths[items[n]]] else [])
  }

  ghost function Count<T>(s: seq<T>, x: T): nat {
    if s == [] then 0 else Count(s[..|s| - 1], x) + if s[|s| - 1] == x then 1 else 0
  }

  lemma {:induction false} CountIsMultiplicity<T>(s: seq<T>, x: T)
    ensures Count(s, x) == multiset(s)[x]
  {
    if s != [] {
      CountIsMultiplicity(s[..|s| - 1], x);
      assert s == s[..|s| - 1] + [s[|s| - 1]];
    }
  }

  lemma CountAppend<T>(s: seq<T>, y: T, x: T)
    ensures Count(s + [y], x) == Count(s, x) + if y == x then 1 else 0
  {
    assert (s + [y])[..|s|] == s;
  }

  lemma {:induction false} CountTail<T>(s: seq<T>, x: T)
    requires s != []
    ensures Count(s, x) == Count(s[1..], x) + if s[0] == x then 1 else 0
  {
    var n := |s| - 1;
    if n > 0 {
      CountTail(s[..n], x);
      assert s[..n][1..] == s[1..][..n - 1];
    }
  }

  lemma {:induction false} CountUpdate<T>(s: seq<T>, k: nat, y: T, x: T)
    requires k < |s|
    ensures Count(s[k := y], x) + (if s[k] == x then 1 else 0) == Count(s, x) + if y == x then 1 else 0
  {
    var n := |s| - 1;
    if k == n {
      assert s[k := y][..n] == s[..n];
    } else {
      CountUpdate(s[..n], k, y, x);
      assert s[k := y][..n] == s[..n][k := y];
    }
  }

  /** An entry that was put is in exactly one place: queued, being checked, or checked. */
  ghost predicate Placed(s: Pool, i: nat) {
    Count(s.queue, i) + Count(s.workers, Checking(i)) + Count(s.checked, i) == if i < s.put then 1 else 0
  }

  /** A checked entry is about to be recorded or has been. */
  ghost predicate Tracked(s: Pool, i: nat) {
    Count(s.checked, i) == Count(s.workers, Checked(i)) + Count(s.recorded, i)
  }

  ghost predicate Counted(job: Job, start: Pool, s: Pool) {
    s.failedFiles == start.failedFiles + Failing(job, s.recorded) &&
    s.failures == start.failures + |Failing(job, s.recorded)| &&
    s.successes + s.failures == start.successes + start.failures + |s.recorded|
  }

  ghost predicate Inv(job: Job, start: Pool, s: Pool)
    requires job.Valid()
  {
    s.put <= |job.paths| && |s.queue| <= job.capacity && |s.workers| == |start.workers| &&
    (forall i: nat :: Placed(s, i)) &&
    (forall i: nat :: Tracked(s, i)) &&
    s.unfinished + Count(s.workers, Idle) == |s.queue| + |s.workers| &&
    (s.joined ==> s.put == |job.paths| && s.unfinished == 0) &&
    Counted(job, start, s)
  }

  lemma {:induction false} AllIdleCount(ws: seq<Worker>)
    ensures Count(ws, Idle) <= |ws|
    ensures Count(ws, Idle) == |ws| <==> forall w :: 0 <= w < |ws| ==> ws[w] == Idle
  {
    if ws != [] {
      var n := |ws| - 1;
      AllIdleCount(ws[..n]);
      assert (forall w :: 0 <= w < |ws| ==> ws[w] == Idle) <==>
             ws[n] == Idle && forall w :: 0 <= w < n ==> ws[..n][w] == Idle;
    }
  }

  lemma {:induction false} NoneBusy(ws: seq<Worker>, x: Worker)
    requires x != Idle && forall w :: 0 <= w < |ws| ==> ws[w] == Idle
    ensures Count(ws, x) == 0
  {
    if ws != [] {
      NoneBusy(ws[..|ws| - 1], x);
    }
  }

  lemma {:induction false} CountMember<T>(s: seq<T>, k: nat)
    requires k < |s|
    ensures Count(s, s[k]) > 0
  {
    if k < |s| - 1 {
      CountMember(s[..|s| - 1], k);
    }
  }

  lemma StartInv(job: Job, s: Pool)
    requires job.Valid() && IsStart(s)
    ensures Inv(job, s, s)
  {
    AllIdleCount(s.workers);
    forall i: nat
      ensures Placed(s, i) && Tracked(s, i)
    {
      NoneBusy(s.workers, Checking(i));
      NoneBusy(s.workers, Checked(i));
    }
  }

  lemma StepKeepsPlaced(job: Job, s: Pool, step: Step, i: nat)
    requires job.Valid() && Enabled(job, s, step) && Placed(s, i)
    ensures Placed(Do(job, s, step), i)
  {
    match step
    case Put => CountAppend(s.queue, s.put, i);
    case Get(w) =>
      CountTail(s.queue, i);
      CountUpdate(s.workers, w, Checking(s.queue[0]), Checking(i));
    case Check(w) =>
      CountAppend(s.checked, s.workers[w].item, i);
      CountUpdate(s.workers, w, Checked(s.workers[w].item), Checking(i));
    case Record(w) => CountUpdate(s.workers, w, Recorded(s.workers[w].item), Checking(i));
    case TaskDone(w) => CountUpdate(s.workers, w, Idle, Checking(i));
    case Join =>
  }

  lemma StepKeepsTracked(job: Job, s: Pool, step: Step, i: nat)
    requires job.Valid() && Enabled(job, s, step) && Tracked(s, i)
    ensures Tracked(Do(job, s, step), i)
  {
    match step
    case Put =>
    case Get(w) => CountUpdate(s.workers, w, Checking(s.queue[0]), Checked(i));
    case Check(w) =>
      CountAppend(s.checked, s.workers[w].item, i);
      CountUpdate(s.workers, w, Checked(s.workers[w].item), Checked(i));
    case Record(w) =>
      CountAppend(s.recorded, s.workers[w].item, i);
      CountUpdate(s.workers, w, Recorded(s.workers[w].item), Checked(i));
    case TaskDone(w) => CountUpdate(s.workers, w, Idle, Checked(i));
    case Join =>
  }

  lemma StepKeepsCounts(job: Job, start: Pool, s: Pool, step: Step)
    requires job.Valid() && Enabled(job, s, step) && Counted(job, start, s)
    ensures Counted(job, start, Do(job, s, step))
  {
    if step.Record? {
      FailingAppend(job, s.recorded, s.workers[step.w].item);
    }
  }

  lemma FailingAppend(job: Job, items: seq<nat>, i: nat)
    ensures Failing(job, items + [i]) == Failing(job, items) + if job.Fails(i) then [job.paths[i]] else []
  {
    assert (items + [i])[..|items|] == items;
  }

  lemma StepKeepsInv(job: Job, start: Pool, s: Pool, step: Step)
    requires job.Valid() && Inv(job, start, s) && Enabled(job, s, step)
    ensures Inv(job, start, Do(job, s, step))
  {
    var s' := Do(job, s, step);
    forall i: nat
      ensures Placed(s', i) && Tracked(s', i)
    {
      StepKeepsPlaced(job, s, step, i);
      StepKeepsTracked(job, s, step, i);
    }
    StepKeepsCounts(job, start, s, step);
    AllIdleCount(s.workers);
    if step.Get? || step.Check? || step.Record? || step.TaskDone? {
      CountUpdate(s.workers, step.w, s'.workers[step.w], Idle);
    }
  }

  /** The invariant holds in every state of every interleaving. */
  lemma {:induction false} RunKeepsInv(job: Job, start: Pool, s: Pool, steps: seq<Step>)
    requires job.Valid() && Inv(job, start, s) && IsRun(job, s, steps)
    ensures Inv(job, start, After(job, s, steps))
    decreases |steps|
  {
    if steps != [] {
      StepKeepsInv(job, start, s, steps[0]);
      RunKeepsInv(job, start, Do(job, s, steps[0]), steps[1..]);
    }
  }

  // ----- What a run achieves -----

  ghost function UpTo(n: nat): (r: seq<nat>)
    ensures |r| == n && forall i :: 0 <= i < n ==> r[i] == i
  {
    seq(n, i => i)
  }

  lemma {:induction false} UpToCounts(n: nat, i: nat)
    ensures Count(UpTo(n), i) == if i < n then 1 else 0
  {
    if n > 0 {
      UpToCounts(n - 1, i);
      assert UpTo(n)[..n - 1] == UpTo(n - 1);
    }
  }

  /** In every interleaving, at every moment, no entry has been checked twice. */
  lemma CheckedAtMostOnce(job: Job, start: Pool, steps: seq<Step>, i: nat)
    requires job.Valid() && IsStart(start) && IsRun(job, start, steps)
    ensures Count(After(job, start, steps).checked, i) <= 1
  {
    StartInv(job, start);
    RunKeepsInv(job, start, start, steps);
    assert Placed(After(job, start, steps), i);
  }

  lemma {:induction false} FailingConcat(job: Job, a: seq<nat>, b: seq<nat>)
    ensures Failing(job, a + b) == Failing(job, a) + Failing(job, b)
  {
    if b == [] {
      assert a + b == a;
    } else {
      var n := |b| - 1;
      FailingConcat(job, a, b[..n]);
      assert (a + b)[..|a + b| - 1] == a + b[..n];
    }
  }

  lemma FailingWithout(job: Job, b: seq<nat>, k: nat)
    requires k < |b|
    ensures multiset(Failing(job, b)) == multiset(Failing(job, b[..k] + b[k + 1..])) + multiset(Failing(job, [b[k]]))
  {
    FailingConcat(job, b[..k], b[k + 1..]);
    FailingConcat(job, b[..k], [b[k]]);
    FailingConcat(job, b[..k] + [b[k]], b[k + 1..]);
    assert b == b[..k] + [b[k]] + b[k + 1..];
  }

  lemma MultisetWithout(b: seq<nat>, k: nat)
    requires k < |b|
    ensures multiset(b[..k] + b[k + 1..]) == multiset(b) - multiset{b[k]}
  {
    assert b == b[..k] + [b[k]] + b[k + 1..];
  }

  /** Checking the same entries in another order fails the same paths. */
  lemma {:induction false} FailingIgnoresOrder(job: Job, a: seq<nat>, b: seq<nat>)
    requires multiset(a) == multiset(b)
    ensures multiset(Failing(job, a)) == multiset(Failing(job, b))
    decreases |a|
  {
    assert |a| == |multiset(a)| == |multiset(b)| == |b|;
    if a != [] {
      var n := |a| - 1;
      assert a[n] in multiset(a);
      assert a[n] in multiset(b);
      var k :| 0 <= k < |b| && b[k] == a[n];
      MultisetWithout(a, n);
      MultisetWithout(b, k);
      FailingIgnoresOrder(job, a[..n] + a[n + 1..], b[..k] + b[k + 1..]);
      FailingWithout(job, a, n);
      FailingWithout(job, b, k);
    }
  }

  /** When join has returned every result is in: the counts have grown by the number of entries, and
      the failed files by exactly the failing paths. The run reports success exactly when nothing had
      failed before and no entry's check failed. */
  lemma JoinedMeansComplete(job: Job, start: Pool, steps: seq<Step>)
    requires job.Valid() && IsStart(start) && IsRun(job, start, steps)
    requires After(job, start, steps).joined
    ensures var s, n := After(job, start, steps), |job.paths|;
            multiset(s.checked) == multiset(UpTo(n)) &&
            s.successes + s.failures == start.successes + start.failures + n &&
            multiset(s.failedFiles) == multiset(start.failedFiles) + multiset(Failing(job, UpTo(n))) &&
            s.failures == start.failures + |Failing(job, UpTo(n))| &&
            (s.failures == 0 <==> start.failures == 0 && forall i :: 0 <= i < n ==> job.ok[i])
  {
    var s, n := After(job, start, steps), |job.paths|;
    StartInv(job, start);
    RunKeepsInv(job, start, start, steps);
    AllIdleCount(s.workers);
    assert s.queue == [] && forall w :: 0 <= w < |s.workers| ==> s.workers[w] == Idle;
    forall i: nat
      ensures multiset(s.checked)[i] == multiset(s.recorded)[i] == multiset(UpTo(n))[i]
    {
      assert Placed(s, i) && Tracked(s, i);
      NoneBusy(s.workers, Checking(i));
      NoneBusy(s.workers, Checked(i));
      UpToCounts(n, i);
      CountIsMultiplicity(s.checked, i);
      CountIsMultiplicity(s.recorded, i);
      CountIsMultiplicity(UpTo(n), i);
    }
    assert multiset(s.recorded) == multiset(UpTo(n));
    assert multiset(s.checked) == multiset(UpTo(n));
    assert |s.recorded| == |multiset(s.recorded)| == |multiset(UpTo(n))| == n;
    FailingIgnoresOrder(job, s.recorded, UpTo(n));
    assert |Failing(job, s.recorded)| == |multiset(Failing(job, s.recorded))| == |Failing(job, UpTo(n))|;
    NoneFailing(job, n);
  }

  lemma {:induction false} NoneFailing(job: Job, n: nat)
    requires job.Valid() && n <= |job.paths|
    ensures Failing(job, UpTo(n)) == [] <==> forall i :: 0 <= i < n ==> job.ok[i]
  {
    if n > 0 {
      NoneFailing(job, n - 1);
      assert UpTo(n)[..n - 1] == UpTo(n - 1);
    }
  }

  /** The entries whose check fails and that have this path. */
  ghost function FailingAt(job: Job, n: nat, path: string): set<nat>
    requires job.Valid() && n <= |job.paths|
  {
    set i: nat | i < n && !job.ok[i] && job.paths[i] == path
  }

  /** A path is among the failing ones as often as an entry with this path fails. */
  lemma {:induction false} FailingExactly(job: Job, n: nat, path: string)
    requires job.Valid() && n <= |job.paths|
    ensures Count(Failing(job, UpTo(n)), path) == |FailingAt(job, n, path)|
  {
    if n > 0 {
      FailingExactly(job, n - 1, path);
      assert UpTo(n) == UpTo(n - 1) + [n - 1];
      FailingAppend(job, UpTo(n - 1), n - 1);
      FailingAtMore(job, n - 1, path);
      var failing := Failing(job, UpTo(n - 1));
      assert failing + [] == failing;
      CountAppend(failing, job.paths[n - 1], path);
    }
  }

  lemma FailingAtMore(job: Job, n: nat, path: string)
    requires job.Valid() && n < |job.paths|
    ensures |FailingAt(job, n + 1, path)| ==
            |FailingAt(job, n, path)| + if !job.ok[n] && job.paths[n] == path then 1 else 0
  {
    if !job.ok[n] && job.paths[n] == path {
      assert FailingAt(job, n + 1, path) == FailingAt(job, n, path) + {n};
    } else {
      assert FailingAt(job, n + 1, path) == FailingAt(job, n, path);
    }
  }

  /** When join has returned, a path has been added to the failed files as often as an entry with this path fails. */
  lemma JoinedFailures(job: Job, start: Pool, steps: seq<Step>, path: string)
    requires job.Valid() && IsStart(start) && IsRun(job, start, steps) && After(job, start, steps).joined
    ensures multiset(After(job, start, steps).failedFiles)[path] ==
            multiset(start.failedFiles)[path] + |FailingAt(job, |job.paths|, path)|
  {
    JoinedMeansComplete(job, start, steps);
    FailingExactly(job, |job.paths|, path);
    CountIsMultiplicity(Failing(job, UpTo(|job.paths|)), path);
  }

  // ----- Termination -----

  /** How many steps lie behind a state: puts, takes, checks, records, reports, and the join. */
  ghost function Progress(s: Pool): int {
    s.put + (s.put - |s.queue|) + |s.checked| + |s.recorded| + (s.put - s.unfinished) + (if s.joined then 1 else 0)
  }

  lemma ProgressBound(job: Job, start: Pool, s: Pool)
    requires job.Valid() && Inv(job, start, s)
    ensures Progress(s) <= 5 * |job.paths| + 1
  {
    forall i: nat
      ensures multiset(s.recorded)[i] <= multiset(s.checked)[i] <= multiset(UpTo(s.put))[i]
    {
      assert Placed(s, i) && Tracked(s, i);
      UpToCounts(s.put, i);
      CountIsMultiplicity(s.checked, i);
      CountIsMultiplicity(s.recorded, i);
      CountIsMultiplicity(UpTo(s.put), i);
    }
    SmallerMultiset(multiset(s.checked), multiset(UpTo(s.put)));
    SmallerMultiset(multiset(s.recorded), multiset(s.checked));
    assert |s.checked| == |multiset(s.checked)| && |s.recorded| == |multiset(s.recorded)|;
    AllIdleCount(s.workers);
  }

  lemma SmallerMultiset(a: multiset<nat>, b: multiset<nat>)
    requires forall i: nat :: a[i] <= b[i]
    ensures |a| <= |b|
  {
    assert b == a + (b - a);
  }

  /** No deadlock: until join has returned some thread can move. */
  lemma SomethingEnabled(job: Job, start: Pool, s: Pool) returns (step: Step)
    requires job.Valid() && Inv(job, start, s) && |start.workers| > 0 && !s.joined
    ensures Enabled(job, s, step)
  {
    if s.put < |job.paths| && |s.queue| < job.capacity {
      return Put;
    }
    AllIdleCount(s.workers);
    if w :| 0 <= w < |s.workers| && s.workers[w] != Idle {
      match s.workers[w]
      case Checking(i) => return Check(w);
      case Checked(i) =>
        assert Tracked(s, i) && Placed(s, i);
        CountMember(s.workers, w);
        return Record(w);
      case Recorded(i) => return TaskDone(w);
    } else if s.queue != [] {
      return Get(0);
    } else {
      return Join;
    }
  }

  lemma {:induction false} RunMakesProgress(job: Job, s: Pool, steps: seq<Step>)
    requires job.Valid() && IsRun(job, s, steps)
    ensures Progress(After(job, s, steps)) == Progress(s) + |steps|
    decreases |steps|
  {
    if steps != [] {
      RunMakesProgress(job, Do(job, s, steps[0]), steps[1..]);
    }
  }

  /** Every interleaving is finite, of at most five steps an entry and one for the join, and one that
      cannot be continued has joined. */
  lemma EveryRunEndsJoined(job: Job, start: Pool, steps: seq<Step>)
    requires job.Valid() && IsStart(start) && IsRun(job, start, steps)
    ensures |steps| <= 5 * |job.paths| + 1
    ensures (forall step :: !Enabled(job, After(job, start, steps), step)) ==> After(job, start, steps).joined
  {
    StartInv(job, start);
    RunKeepsInv(job, start, start, steps);
    RunMakesProgress(job, start, steps);
    ProgressBound(job, start, After(job, start, steps));
    if !After(job, start, steps).joined {
      var step := SomethingEnabled(job, start, After(job, start, steps));
    }
  }
}
