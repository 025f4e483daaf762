/** The download manager: the pool of download threads, the bookkeeping
    of reported outcomes, the autoscaling control loop of `manage` (one
    tick at a time, with the sampled speeds and the clock as inputs) and
    the reader of download-list lines. Thread liveness is a field of each
    thread record that the environment sets. */
module DownloadManager {
  import opened Wrappers
  import opened PyStr
  import opened DownloadQueue
  import opened DownloadThread
  import FileSystem
  import ProtocolHandler

  /** `results`: files done, failures, bytes and files fetched remotely. */
  datatype Results = Results(done: nat, failed: nat, failedData: seq<Outcome>, doneB: int, doneDL: nat)

  datatype ThreadInfo = ThreadInfo(name: Str, alive: bool)

  datatype Manager = Manager(
    queue: seq<Entry>,
    threads: seq<ThreadInfo>,
    started: bool,
    current: int,          // currentThreads
    retry: bool,
    results: Results,
    startThreads: int,
    maxThreads: int)

  /** A fresh manager: 2 threads at start, at most 4, no retries. */
  function Init(): (m: Manager)
    ensures PoolInv(m) && m.queue == [] && m.threads == [] && !m.started
  {
    Manager([], [], false, 0, false, Results(0, 0, [], 0, 0), 2, 4)
  }

  /** The pool counter stays within [0, maxThreads]. */
  predicate PoolInv(m: Manager) {
    0 <= m.current <= m.maxThreads
  }

  /** The number of STOP sentinels waiting in the queue. */
  function StopsQueued(q: seq<Entry>): (n: nat)
    ensures n <= |q|
  {
    if |q| == 0 then 0
    else StopsQueued(q[..|q| - 1]) + (if q[|q| - 1].payload.Stop? then 1 else 0)
  }

  lemma StopsQueuedPut(q: seq<Entry>, e: Entry)
    ensures StopsQueued(Put(q, e)) == StopsQueued(q) + (if e.payload.Stop? then 1 else 0)
  {
    assert Put(q, e)[..|q|] == q;
  }

  /** `download(url, file, size, flags)`: queue the task at normal priority. */
  function Download(m: Manager, url: Str, file: Str, size: Option<int>, flags: Flags): (m': Manager)
    ensures m'.queue == Put(m.queue, Entry(PRIO_NORMAL, Work(Task(file, url, size, flags))))
    ensures m' == m.(queue := m'.queue)
  {
    m.(queue := Put(m.queue, Entry(PRIO_NORMAL, Work(Task(file, url, size, flags)))))
  }

  /** `_addThread`: a new, running thread unless the pool is full; it is
      named after the current length of the thread list. */
  function AddThread(m: Manager): (m': Manager)
    ensures m.current >= m.maxThreads ==> m' == m
    ensures m.current < m.maxThreads ==>
              m'.current == m.current + 1 &&
              m'.threads == m.threads + [ThreadInfo("DownloadThread-" + IntToStr(|m.threads|), true)]
    ensures m'.queue == m.queue && m'.maxThreads == m.maxThreads
  {
    if m.current >= m.maxThreads then m
    else m.(current := m.current + 1,
            threads := m.threads + [ThreadInfo("DownloadThread-" + IntToStr(|m.threads|), true)])
  }

  /** `a` is `b` with some elements left out, the rest in their order. */
  predicate SubSeq<T(==)>(a: seq<T>, b: seq<T>)
    decreases |b|
  {
    |a| == 0 || (|b| > 0 && ((a[0] == b[0] && SubSeq(a[1..], b[1..])) || SubSeq(a, b[1..])))
  }

  /** `_cleanList`: drop the threads that are no longer alive. */
  function CleanList(ts: seq<ThreadInfo>): (r: seq<ThreadInfo>)
    ensures |r| <= |ts|
    ensures forall k :: 0 <= k < |r| ==> r[k].alive && r[k] in ts
    ensures forall k :: 0 <= k < |ts| && ts[k].alive ==> ts[k] in r
  {
    if |ts| == 0 then []
    else (if ts[0].alive then [ts[0]] else []) + CleanList(ts[1..])
  }

  /** Thread records may repeat (names come from the list's length), so
      cleaning keeps every living record exactly as often as it occurs,
      drops every dead one, and keeps the survivors in their order. */
  lemma {:induction false} CleanListExact(ts: seq<ThreadInfo>)
    ensures forall x :: multiset(CleanList(ts))[x] == if x.alive then multiset(ts)[x] else 0
    ensures SubSeq(CleanList(ts), ts)
    decreases |ts|
  {
    if |ts| > 0 {
      CleanListExact(ts[1..]);
      CleanListUnfold(ts);
      LivingStep(ts[0], ts[1..], CleanList(ts[1..]));
    }
  }

  /** One step of `CleanList`. */
  lemma CleanListUnfold(ts: seq<ThreadInfo>)
    requires |ts| > 0
    ensures ts == [ts[0]] + ts[1..]
    ensures CleanList(ts) == if ts[0].alive then [ts[0]] + CleanList(ts[1..]) else CleanList(ts[1..])
  {
  }

  /** `r` holds the living records of `ts`, each as often, in order. */
  ghost predicate LivingOf(r: seq<ThreadInfo>, ts: seq<ThreadInfo>) {
    (forall x :: multiset(r)[x] == if x.alive then multiset(ts)[x] else 0) && SubSeq(r, ts)
  }

  /** Putting one record in front keeps `LivingOf`. */
  lemma LivingStep(t: ThreadInfo, tail: seq<ThreadInfo>, rest: seq<ThreadInfo>)
    requires LivingOf(rest, tail)
    ensures LivingOf(if t.alive then [t] + rest else rest, [t] + tail)
  {
    assert ([t] + tail)[1..] == tail;
    if t.alive {
      assert ([t] + rest)[1..] == rest;
    }
  }

  /** Cleaning distributes over concatenation: the threads of each part
      stay together and in order. */
  lemma {:induction false} CleanListAppend(a: seq<ThreadInfo>, b: seq<ThreadInfo>)
    ensures CleanList(a + b) == CleanList(a) + CleanList(b)
    decreases |a|
  {
    if |a| > 0 {
      var head := if a[0].alive then [a[0]] else [];
      assert (a + b)[0] == a[0] && (a + b)[1..] == a[1..] + b;
      assert CleanList(a + b) == head + CleanList(a[1..] + b);
      CleanListAppend(a[1..], b);
      ConcatAssoc(head, CleanList(a[1..]), CleanList(b));
    } else {
      assert a + b == b;
    }
  }

  /** Cleaning an already cleaned list changes nothing. */
  lemma {:induction false} CleanListIdempotent(ts: seq<ThreadInfo>)
    ensures CleanList(CleanList(ts)) == CleanList(ts)
    decreases |ts|
  {
    if |ts| > 0 {
      CleanListIdempotent(ts[1..]);
      CleanListUnfold(ts);
      if ts[0].alive {
        var c := [ts[0]] + CleanList(ts[1..]);
        CleanListUnfold(c);
        assert c[1..] == CleanList(ts[1..]);
      }
    }
  }

  /** `_removeThread`: after cleaning the list, queue one STOP and count
      one thread fewer, unless the count is already 0. */
  function RemoveThread(m: Manager): (m': Manager)
    ensures m'.threads == CleanList(m.threads)
    ensures m.current <= 0 ==> m'.queue == m.queue && m'.current == m.current
    ensures m.current > 0 ==>
              m'.current == m.current - 1 && m'.queue == Put(m.queue, Entry(PRIO_HIGH, Stop))
    ensures m'.maxThreads == m.maxThreads
  {
    var m1 := m.(threads := CleanList(m.threads));
    if m1.current <= 0 then m1
    else m1.(current := m1.current - 1, queue := Put(m1.queue, Entry(PRIO_HIGH, Stop)))
  }

  /** Adding and removing threads keep the pool counter in range. */
  lemma PoolOpsKeepInv(m: Manager)
    requires PoolInv(m)
    ensures PoolInv(AddThread(m)) && PoolInv(RemoveThread(m))
  {
  }

  /** A removal never loses track of a thread: the counter and the queued
      STOPs together are unchanged. An addition raises them by one exactly
      when the pool was not full. */
  lemma PoolAccounting(m: Manager)
    ensures var r := RemoveThread(m);
            r.current + StopsQueued(r.queue) == m.current + StopsQueued(m.queue)
    ensures var a := AddThread(m);
            a.current + StopsQueued(a.queue) ==
            m.current + StopsQueued(m.queue) + (if m.current < m.maxThreads then 1 else 0)
  {
    StopsQueuedPut(m.queue, Entry(PRIO_HIGH, Stop));
  }

  /** `_addThread` repeated `n` times. */
  function AddThreads(m: Manager, n: nat): (m': Manager)
    ensures m'.queue == m.queue && m'.maxThreads == m.maxThreads && m'.started == m.started
    decreases n
  {
    if n == 0 then m else AddThreads(AddThread(m), n - 1)
  }

  /** `n` additions raise the counter by `n`, but never past the limit. */
  lemma {:induction false} AddThreadsCount(m: Manager, n: nat)
    requires PoolInv(m)
    ensures AddThreads(m, n).current == if m.current + n <= m.maxThreads then m.current + n else m.maxThreads
    decreases n
  {
    if n > 0 {
      AddThreadsCount(AddThread(m), n - 1);
    }
  }

  /** `start()`: the first call adds `startThreads` threads; later calls
      do nothing. */
  function Start(m: Manager): (m': Manager)
    ensures m'.started
    ensures m.started ==> m' == m
  {
    if m.started then m
    else AddThreads(m, if m.startThreads < 0 then 0 else m.startThreads).(started := true)
  }

  /** Starting twice is starting once. */
  lemma StartIdempotent(m: Manager)
    ensures Start(Start(m)) == Start(m)
  {
  }

  /** A fresh manager starts with two running threads. */
  lemma StartFresh()
    ensures Start(Init()).current == 2
    ensures |Start(Init()).threads| == 2
  {
    AddThreadsCount(Init(), 2);
  }

  /** `_removeThread` repeated `n` times. */
  function RemoveThreads(m: Manager, n: nat): (m': Manager)
    ensures m'.maxThreads == m.maxThreads
    decreases n
  {
    if n == 0 then m else RemoveThreads(RemoveThread(m), n - 1)
  }

  lemma RemoveThreadsCount(m: Manager, n: nat)
    requires m.current >= 0
    ensures var r := RemoveThreads(m, n);
            r.current == (if m.current >= n then m.current - n else 0) &&
            StopsQueued(r.queue) == StopsQueued(m.queue) + (m.current - r.current)
  {
    RemoveThreadsCurrent(m, n);
    RemoveThreadsStops(m, n);
  }

  /** `n` removals lower the counter by `n`, but not below 0. */
  lemma {:induction false} RemoveThreadsCurrent(m: Manager, n: nat)
    requires m.current >= 0
    ensures RemoveThreads(m, n).current == (if m.current >= n then m.current - n else 0)
    decreases n
  {
    if n > 0 {
      var m1 := RemoveThread(m);
      assert RemoveThreads(m, n).current == RemoveThreads(m1, n - 1).current;
      assert m1.current == (if m.current > 0 then m.current - 1 else 0);
      RemoveThreadsCurrent(m1, n - 1);
    }
  }

  /** Every unit the counter loses is a STOP queued. */
  lemma {:induction false} RemoveThreadsStops(m: Manager, n: nat)
    requires m.current >= 0
    ensures StopsQueued(RemoveThreads(m, n).queue) == StopsQueued(m.queue) + (m.current - RemoveThreads(m, n).current)
    decreases n
  {
    if n > 0 {
      var m1 := RemoveThread(m);
      assert RemoveThreads(m, n) == RemoveThreads(m1, n - 1);
      PoolAccounting(m);
      assert m1.current >= 0;
      RemoveThreadsStops(m1, n - 1);
    }
  }

  /** `stop(*force)`: one removal per thread listed when the call began,
      then the manager is marked stopped. When any argument was passed the
      transfers of all those threads are killed; their names are returned. */
  function StopPool(m: Manager, force: bool): (r: (Manager, seq<Str>))
    ensures !r.0.started
    ensures force ==> |r.1| == |m.threads| && forall k :: 0 <= k < |m.threads| ==> r.1[k] == m.threads[k].name
    ensures !force ==> r.1 == []
  {
    var killed := if force then seq(|m.threads|, k requires 0 <= k < |m.threads| => m.threads[k].name) else [];
    (RemoveThreads(m, |m.threads|).(started := false), killed)
  }

  /** Stopping queues one STOP per listed thread, as far as the counter
      allows, and lowers the counter by the same amount. */
  lemma StopQueuesStops(m: Manager, force: bool)
    requires PoolInv(m)
    ensures var m' := StopPool(m, force).0;
            var n := |m.threads|;
            m'.current == (if m.current >= n then m.current - n else 0) &&
            StopsQueued(m'.queue) == StopsQueued(m.queue) + (m.current - m'.current)
  {
    RemoveThreadsCount(m, |m.threads|);
  }

  // ----- outcome bookkeeping --------------------------------------------

  /** `_callback` for one task outcome, with the retry re-queueing the
      task the way `download(url, file, size)` expects it and keeping the
      expected size the failure reported. */
  function Callback(m: Manager, o: Outcome): (m': Manager)
    ensures o.IoError? ==> m' == m
    ensures Code(o) == EXIT_DONE ==> m'.results.done == m.results.done + 1
    ensures Code(o) == EXIT_DONE ==>
              (m'.results.doneDL == m.results.doneDL + 1 <==> Find(o.url, "file://") != 0)
    ensures o.DownloadFailed? && m.retry ==>
              m' == Download(m, o.url, o.file, o.end, FlagInt(0))
    ensures o.DownloadFailed? && !m.retry ==>
              m'.results.failed == m.results.failed + 1 && m'.results.failedData == m.results.failedData + [o]
    ensures m'.threads == m.threads && m'.current == m.current
  {
    match o
    case IoError(_) => m
    case DownloadFailed(file, url, _, end, _) =>
      if m.retry then Download(m, url, file, end, FlagInt(0))
      else m.(results := m.results.(failed := m.results.failed + 1,
                                    failedData := m.results.failedData + [o]))
    case _ =>
      var r := m.results.(done := m.results.done + 1);
      if Find(o.url, "file://") != 0 then
        m.(results := r.(doneB := r.doneB + ReportedSize(o), doneDL := r.doneDL + 1))
      else m.(results := r)
  }

  /** The retry line as the source has it: `download(file, url)` against
      the signature `download(url, file)`, so the re-queued task has the
      URL and the target path exchanged, and no size. */
  function CallbackAsWritten(m: Manager, o: Outcome): (m': Manager)
    ensures !(o.DownloadFailed? && m.retry) ==> m' == Callback(m, o)
  {
    if o.DownloadFailed? && m.retry then Download(m, o.file, o.url, None, FlagInt(0))
    else Callback(m, o)
  }

  /** The re-queued task of the retry as written targets the URL and
      fetches from the local path; an absolute local path is then taken
      for a `file` URL. The corrected retry re-queues the same target and
      URL. */
  lemma RetrySwapsTargetAndUrl(m: Manager, o: Outcome)
    requires o.DownloadFailed? && m.retry
    requires StartsWith(o.file, "/")
    ensures var q := CallbackAsWritten(m, o).queue;
            var t := q[|q| - 1].payload.task;
            t.fullPath == o.url && t.url == o.file && ProtocolHandler.GetProtocol(t.url) == "file"
    ensures var q := Callback(m, o).queue;
            var t := q[|q| - 1].payload.task;
            t.fullPath == o.file && t.url == o.url
  {
    ProtocolHandler.ProtocolOfPath(o.file);
  }

  /** The task a retry puts at the end of the queue. */
  function RetryTask(m': Manager): Task
    requires |m'.queue| > 0 && m'.queue[|m'.queue| - 1].payload.Work?
  {
    m'.queue[|m'.queue| - 1].payload.task
  }

  /** The retry as written re-queues the task without its size, and the
      check then takes any file present at the target as too big (every
      number is greater than `None`): the task fails again, and with retry
      set it is re-queued the same way, for ever. */
  lemma RetriedPartialFileFailsAgain(m: Manager, o: Outcome, fs: FileSystem.FS)
    requires o.DownloadFailed? && m.retry
    ensures var t := RetryTask(CallbackAsWritten(m, o));
            t.size.None? &&
            (fs.IsFile(t.fullPath) ==>
               CheckDownload(fs, t).Success? && CheckDownload(fs, t).value.Settled? &&
               CheckDownload(fs, t).value.outcome.DownloadFailed?)
  {
    var t := RetryTask(CallbackAsWritten(m, o));
    if fs.IsFile(t.fullPath) {
      CheckPresentFile(fs, t);
    }
  }

  /** When the target is absent, the sizeless retry is fetched from byte 0
      and a successful transfer then raises on `end - start`. */
  lemma RetriedAbsentFileRaises(m: Manager, o: Outcome, fs: FileSystem.FS, w: Worker, table: ProtocolHandler.Table, now: real)
    requires o.DownloadFailed? && m.retry
    requires var t := RetryTask(CallbackAsWritten(m, o));
             !fs.IsFile(t.fullPath) && CheckDownload(fs, t).value.Fetch? && ProtocolHandler.GetHandler(table, t.url).Success?
    ensures var t := RetryTask(CallbackAsWritten(m, o));
            var c := CheckDownload(fs, t).value;
            c.start == 0 && Transfer(w, table, t, c.start, c.end, now, Success(0)).1 == Failure(TypeError)
  {
  }

  /** The corrected retry re-queues the expected size, so a partial file
      resumes at its present size and an absent one is fetched whole. */
  lemma RetryResumes(m: Manager, o: Outcome, fs: FileSystem.FS)
    requires o.DownloadFailed? && m.retry && o.end.Some?
    ensures var t := RetryTask(Callback(m, o));
            t == Task(o.file, o.url, o.end, FlagInt(0)) &&
            (fs.IsFile(o.file) && fs.files[o.file] < o.end.value ==>
               CheckDownload(fs, t) == Success(Fetch(fs.files[o.file], o.end, fs))) &&
            (!fs.IsFile(o.file) && CheckDownload(fs, t).value.Fetch? ==>
               CheckDownload(fs, t).value.start == 0 && CheckDownload(fs, t).value.end == o.end)
  {
    var t := RetryTask(Callback(m, o));
    if fs.IsFile(o.file) {
      CheckPresentFile(fs, t);
    }
  }

  /** Every outcome is counted at most once, and only downloads that
      fail without retry count as failures. */
  lemma CallbackCounts(m: Manager, o: Outcome)
    ensures var r := Callback(m, o).results;
            r.done + r.failed <= m.results.done + m.results.failed + 1 &&
            (r.failed == m.results.failed + 1 <==> o.DownloadFailed? && !m.retry)
  {
  }

  // ----- the control loop of manage -------------------------------------

  /** The variables `manage` keeps between ticks. */
  datatype Control = Control(lastSpeed: real, oldSpeeds: seq<real>, checking: bool,
                             tryNewThread: bool, lastTime: real)

  function InitControl(now: real): Control {
    Control(0.0001, [], true, true, now)
  }

  /** 128 KiB/s: below this total speed more threads are not tried. */
  const Threshold: real := 131072.0

  function Sum(xs: seq<real>): real
    decreases |xs|
  {
    if |xs| == 0 then 0.0 else Sum(xs[..|xs| - 1]) + xs[|xs| - 1]
  }

  /** The probing branch while the pool is below its maximum. A zero last
      speed makes the ratio raise; `manage` swallows the exception and the
      tick ends with only the history extended. */
  function Probe(c: Control, m: Manager, avg: real, elapsed: real): (r: (Control, Manager))
    requires c.checking && c.lastSpeed != 0.0
    ensures c.tryNewThread ==> r.0.tryNewThread
    ensures r.1 == m || (m.current > 1 && r.1 == RemoveThread(m))
  {
    var idx := avg / c.lastSpeed;
    if idx > 1.2 then (c.(tryNewThread := true), m)
    else if elapsed > 30.0 then
      (c.(checking := false), if m.current > 1 && idx < 0.8 then RemoveThread(m) else m)
    else (c, m)
  }

  /** One iteration of the `manage` loop, given the speeds of the active
      threads and the clock. */
  function Tick(c: Control, m: Manager, speeds: seq<real>, now: real): (r: (Control, Manager))
    ensures r.1.maxThreads == m.maxThreads
    ensures r == (c, m) || r.0.oldSpeeds == c.oldSpeeds + [Sum(speeds)] || r.0.oldSpeeds == []
    ensures r.0.oldSpeeds == [] ==> r == (c, m) || (r.0.checking && !r.0.tryNewThread && r.0.lastTime == now)
    ensures r.0.lastTime == c.lastTime || r.0.lastTime == now
  {
    if |speeds| == 0 && m.current != 0 then (c, m)
    else
      var total := Sum(speeds);
      var c1 := c.(oldSpeeds := c.oldSpeeds + [total]);
      if total < Threshold then (c1, m)
      else
        var elapsed := now - c.lastTime;
        if m.current < m.maxThreads then
          var avg := Sum(c1.oldSpeeds) / (|c1.oldSpeeds| as real);
          if c.checking && c.lastSpeed == 0.0 then (c1, m)
          else
            var (c2, m2) := if c.checking then Probe(c1, m, avg, elapsed) else (c1, m);
            if c2.tryNewThread || elapsed > 300.0 then
              (Control(avg, [], true, false, now), AddThread(m2))
            else (c2, m2)
        else if elapsed > 600.0 && m.current > 1 then
          (c1.(lastTime := now, checking := true), RemoveThread(m))
        else (c1, m)
  }

  /** No active speeds while threads exist: nothing changes. */
  lemma TickIdle(c: Control, m: Manager, now: real)
    requires m.current != 0
    ensures Tick(c, m, [], now) == (c, m)
  {
  }

  /** Below the threshold only the speed history grows. */
  lemma TickSlow(c: Control, m: Manager, speeds: seq<real>, now: real)
    requires |speeds| > 0 || m.current == 0
    requires Sum(speeds) < Threshold
    ensures Tick(c, m, speeds, now) == (c.(oldSpeeds := c.oldSpeeds + [Sum(speeds)]), m)
  {
  }

  /** Below the maximum, a pending probe or five quiet minutes add a
      thread and restart the measurement with the mean speed as baseline. */
  lemma TickGrows(c: Control, m: Manager, speeds: seq<real>, now: real)
    requires PoolInv(m)
    requires |speeds| > 0 && Sum(speeds) >= Threshold
    requires m.current < m.maxThreads
    requires !c.checking || c.lastSpeed != 0.0
    requires c.tryNewThread || now - c.lastTime > 300.0
    ensures var (c', m') := Tick(c, m, speeds, now);
            var hist := c.oldSpeeds + [Sum(speeds)];
            c' == Control(Sum(hist) / (|hist| as real), [], true, false, now) &&
            m'.current >= m.current && StopsQueued(m'.queue) + m'.current == StopsQueued(m.queue) + m.current + 1
  {
    var c1 := c.(oldSpeeds := c.oldSpeeds + [Sum(speeds)]);
    var avg := Sum(c1.oldSpeeds) / (|c1.oldSpeeds| as real);
    var (c2, m2) := if c.checking then Probe(c1, m, avg, now - c.lastTime) else (c1, m);
    assert c2.tryNewThread || now - c.lastTime > 300.0;
    assert Tick(c, m, speeds, now) == (Control(avg, [], true, false, now), AddThread(m2));
    assert m2.current < m2.maxThreads;
    PoolAccounting(m);
    PoolAccounting(m2);
  }

  /** Below the maximum, while checking, a mean speed that fell under 0.8
      of the baseline after more than 30 seconds ends the check and drops
      a thread when there is more than one; past five minutes a new thread
      is tried straight away. */
  lemma TickShrinksOnRegression(c: Control, m: Manager, speeds: seq<real>, now: real)
    requires |speeds| > 0 && Sum(speeds) >= Threshold
    requires m.current < m.maxThreads && m.current > 1
    requires c.checking && c.lastSpeed != 0.0 && !c.tryNewThread
    requires var hist := c.oldSpeeds + [Sum(speeds)];
             (Sum(hist) / (|hist| as real)) / c.lastSpeed < 0.8
    requires now - c.lastTime > 30.0
    ensures now - c.lastTime <= 300.0 ==>
              Tick(c, m, speeds, now) == (c.(oldSpeeds := c.oldSpeeds + [Sum(speeds)], checking := false), RemoveThread(m))
    ensures now - c.lastTime > 300.0 ==> Tick(c, m, speeds, now).1 == AddThread(RemoveThread(m))
  {
    var c1 := c.(oldSpeeds := c.oldSpeeds + [Sum(speeds)]);
    var avg := Sum(c1.oldSpeeds) / (|c1.oldSpeeds| as real);
    assert Probe(c1, m, avg, now - c.lastTime) == (c1.(checking := false), RemoveThread(m));
  }

  /** Below the maximum, while checking, a mean speed more than 1.2 times
      the baseline adds a thread and restarts the measurement. */
  lemma TickGrowsOnImprovement(c: Control, m: Manager, speeds: seq<real>, now: real)
    requires |speeds| > 0 && Sum(speeds) >= Threshold
    requires m.current < m.maxThreads
    requires c.checking && c.lastSpeed != 0.0
    requires var hist := c.oldSpeeds + [Sum(speeds)];
             (Sum(hist) / (|hist| as real)) / c.lastSpeed > 1.2
    ensures var hist := c.oldSpeeds + [Sum(speeds)];
            Tick(c, m, speeds, now) == (Control(Sum(hist) / (|hist| as real), [], true, false, now), AddThread(m))
  {
    var c1 := c.(oldSpeeds := c.oldSpeeds + [Sum(speeds)]);
    var avg := Sum(c1.oldSpeeds) / (|c1.oldSpeeds| as real);
    assert Probe(c1, m, avg, now - c.lastTime) == (c1.(tryNewThread := true), m);
  }

  /** At the maximum, ten quiet minutes with more than one thread drop one
      thread by queueing a STOP. */
  lemma TickShrinksAtMax(c: Control, m: Manager, speeds: seq<real>, now: real)
    requires |speeds| > 0 && Sum(speeds) >= Threshold
    requires m.current >= m.maxThreads && m.current > 1 && now - c.lastTime > 600.0
    ensures var (c', m') := Tick(c, m, speeds, now);
            m'.current == m.current - 1 && m'.queue == Put(m.queue, Entry(PRIO_HIGH, Stop)) &&
            c'.lastTime == now && c'.checking
  {
  }

  /** What a tick may do to the pool: nothing, add one thread, drop one
      thread by queueing a STOP, or both. */
  predicate PoolStep(m: Manager, m': Manager) {
    m' == m || m' == AddThread(m) || m' == RemoveThread(m) || m' == AddThread(RemoveThread(m))
  }

  lemma TickIsPoolStep(c: Control, m: Manager, speeds: seq<real>, now: real)
    ensures PoolStep(m, Tick(c, m, speeds, now).1)
  {
    if !(|speeds| == 0 && m.current != 0) && Sum(speeds) >= Threshold && m.current < m.maxThreads {
      var c1 := c.(oldSpeeds := c.oldSpeeds + [Sum(speeds)]);
      var avg := Sum(c1.oldSpeeds) / (|c1.oldSpeeds| as real);
      if c.checking && c.lastSpeed != 0.0 {
        var p := Probe(c1, m, avg, now - c.lastTime);
        assert p.1 == m || p.1 == RemoveThread(m);
      }
    }
  }

  /** Every tick keeps the pool counter within [0, maxThreads], and a
      thread is only ever dropped by queueing a STOP for it. */
  lemma TickKeepsPool(c: Control, m: Manager, speeds: seq<real>, now: real)
    requires PoolInv(m)
    ensures var m' := Tick(c, m, speeds, now).1;
            PoolInv(m') && m'.maxThreads == m.maxThreads &&
            StopsQueued(m'.queue) + m'.current >= StopsQueued(m.queue) + m.current &&
            StopsQueued(m'.queue) + m'.current <= StopsQueued(m.queue) + m.current + 1
  {
    TickIsPoolStep(c, m, speeds, now);
    PoolAccounting(m);
    PoolAccounting(RemoveThread(m));
    PoolOpsKeepInv(m);
    PoolOpsKeepInv(RemoveThread(m));
  }

  // ----- download lists -------------------------------------------------

  /** One line of a download list, as the command-line reader takes it:
      tab-separated; fewer than 3 fields is skipped; url, local path and
      size come first; the flags are the raw sixth field, if any, else 0.
      A size that `int()` rejects raises. */
  function ParseListLine(line: Str): (r: Result<Option<Task>, PyError>)
    ensures |Split(line, "\t")| < 3 <==> r == Success(None)
    ensures r.Success? && r.value.Some? ==>
              var data := Split(line, "\t");
              r.value.value.url == data[0] && r.value.value.fullPath == data[1] &&
              r.value.value.size == ParseInt(data[2]) &&
              r.value.value.flags == (if |data| > 5 then FlagStr(data[5]) else FlagInt(0))
    ensures r.Failure? <==> |Split(line, "\t")| >= 3 && ParseInt(Split(line, "\t")[2]).None?
  {
    var data := Split(line, "\t");
    if |data| < 3 then Success(None)
    else
      match ParseInt(data[2])
      case None => Failure(ValueError)
      case Some(size) =>
        Success(Some(Task(data[1], data[0], Some(size), if |data| > 5 then FlagStr(data[5]) else FlagInt(0))))
  }

  /** The reader loop: each parsed line is queued through `download`; the
      first bad size aborts the whole list. */
  function LoadList(m: Manager, lines: seq<Str>): (r: Result<Manager, PyError>)
    ensures r.Success? ==> r.value.threads == m.threads && r.value.current == m.current
    ensures r.Success? ==> |r.value.queue| <= |m.queue| + |lines|
    decreases |lines|
  {
    if |lines| == 0 then Success(m)
    else
      var t :- ParseListLine(lines[0]);
      var m1 := if t.Some? then Download(m, t.value.url, t.value.fullPath, t.value.size, t.value.flags) else m;
      LoadList(m1, lines[1..])
  }

  /** The queue entries a list asks for: one normal-priority task per
      line that reads as a task, in line order. */
  function ListedEntries(lines: seq<Str>): (r: seq<Entry>)
    ensures |r| <= |lines|
  {
    if |lines| == 0 then []
    else
      var rest := ListedEntries(lines[1..]);
      match ParseListLine(lines[0])
      case Success(Some(t)) => [Entry(PRIO_NORMAL, Work(t))] + rest
      case _ => rest
  }

  /** A line whose size `int()` rejects. */
  predicate BadLine(line: Str) {
    ParseListLine(line).Failure?
  }

  /** Loading a list fails exactly when one of its lines has a bad size;
      otherwise the queue gains exactly the tasks of the lines that read as
      tasks, in line order, and nothing else changes. */
  lemma LoadListQueues(m: Manager, lines: seq<Str>)
    ensures LoadList(m, lines).Failure? <==> exists k :: 0 <= k < |lines| && BadLine(lines[k])
    ensures LoadList(m, lines).Success? ==>
              LoadList(m, lines).value == m.(queue := m.queue + ListedEntries(lines))
  {
    LoadListFails(m, lines);
    if LoadList(m, lines).Success? {
      LoadListQueue(m, lines);
    }
  }

  /** The step of the reader loop on its first line. */
  function LoadHead(m: Manager, t: Option<Task>): Manager {
    if t.Some? then Download(m, t.value.url, t.value.fullPath, t.value.size, t.value.flags) else m
  }

  lemma LoadListFails(m: Manager, lines: seq<Str>)
    ensures LoadList(m, lines).Failure? <==> exists k :: 0 <= k < |lines| && BadLine(lines[k])
  {
    if LoadList(m, lines).Failure? {
      var k := LoadListFailsAt(m, lines);
    }
    if exists k :: 0 <= k < |lines| && BadLine(lines[k]) {
      var k :| 0 <= k < |lines| && BadLine(lines[k]);
      LoadListBadLine(m, lines, k);
    }
  }

  /** A failed load names a line with a bad size. */
  lemma {:induction false} LoadListFailsAt(m: Manager, lines: seq<Str>) returns (k: nat)
    requires LoadList(m, lines).Failure?
    ensures k < |lines| && BadLine(lines[k])
    decreases |lines|
  {
    if ParseListLine(lines[0]).Failure? {
      k := 0;
    } else {
      var t := ParseListLine(lines[0]).value;
      assert LoadList(m, lines) == LoadList(LoadHead(m, t), lines[1..]);
      var j := LoadListFailsAt(LoadHead(m, t), lines[1..]);
      k := j + 1;
      assert lines[k] == lines[1..][j];
    }
  }

  /** A line with a bad size fails the load, whatever precedes it. */
  lemma {:induction false} LoadListBadLine(m: Manager, lines: seq<Str>, k: nat)
    requires k < |lines| && BadLine(lines[k])
    ensures LoadList(m, lines).Failure?
    decreases k
  {
    if k > 0 && ParseListLine(lines[0]).Success? {
      var t := ParseListLine(lines[0]).value;
      assert LoadList(m, lines) == LoadList(LoadHead(m, t), lines[1..]);
      assert lines[1..][k - 1] == lines[k];
      LoadListBadLine(LoadHead(m, t), lines[1..], k - 1);
    }
  }

  lemma {:induction false} LoadListQueue(m: Manager, lines: seq<Str>)
    requires LoadList(m, lines).Success?
    ensures LoadList(m, lines).value == m.(queue := m.queue + ListedEntries(lines))
    decreases |lines|
  {
    if |lines| == 0 {
      AppendNil(m.queue);
    } else {
      var tail := lines[1..];
      var t := ParseListLine(lines[0]).value;
      var m1 := LoadHead(m, t);
      assert LoadList(m, lines) == LoadList(m1, tail);
      LoadListQueue(m1, tail);
      if t.Some? {
        var e := Entry(PRIO_NORMAL, Work(t.value));
        assert ListedEntries(lines) == [e] + ListedEntries(tail);
        assert m1 == m.(queue := m.queue + [e]);
        ConcatAssoc(m.queue, [e], ListedEntries(tail));
      } else {
        assert ListedEntries(lines) == ListedEntries(tail);
      }
    }
  }
}
