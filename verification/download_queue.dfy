/** The priority queue shared by the download threads. Entries are pairs
    (priority, payload) and the queue hands out the smallest pair in
    Python 2's ordering: first by priority, then by payload, where the
    STOP sentinel `(None, None)` sorts before every task because `None` is
    smaller than any string, and tasks compare field by field. */
module DownloadQueue {
  import opened Wrappers
  import opened PyStr

  const PRIO_HIGH: int := 10
  const PRIO_NORMAL: int := 100

  /** The `flags` field: `0` from `download()`, the raw text of column 6
      from a download list. */
  datatype Flags = FlagInt(n: int) | FlagStr(s: Str)

  /** `(full_path, url, size, flags)` */
  datatype Task = Task(fullPath: Str, url: Str, size: Option<int>, flags: Flags)

  datatype Payload = Stop | Work(task: Task)

  datatype Entry = Entry(prio: int, payload: Payload)

  /** `None` is smaller than every number. */
  predicate OptLess(a: Option<int>, b: Option<int>) {
    b.Some? && (a.None? || a.value < b.value)
  }

  /** Numbers are smaller than strings. */
  predicate FlagsLess(a: Flags, b: Flags) {
    match (a, b)
    case (FlagInt(x), FlagInt(y)) => x < y
    case (FlagInt(_), FlagStr(_)) => true
    case (FlagStr(_), FlagInt(_)) => false
    case (FlagStr(x), FlagStr(y)) => StrLess(x, y)
  }

  /** Tuple order on `(full_path, url, size, flags)`. */
  predicate TaskLess(a: Task, b: Task) {
    StrLess(a.fullPath, b.fullPath) ||
    (a.fullPath == b.fullPath && (StrLess(a.url, b.url) ||
    (a.url == b.url && (OptLess(a.size, b.size) ||
    (a.size == b.size && FlagsLess(a.flags, b.flags))))))
  }

  predicate PayloadLess(a: Payload, b: Payload) {
    match (a, b)
    case (Stop, Work(_)) => true
    case (Work(x), Work(y)) => TaskLess(x, y)
    case _ => false
  }

  predicate EntryLess(a: Entry, b: Entry) {
    a.prio < b.prio || (a.prio == b.prio && PayloadLess(a.payload, b.payload))
  }

  lemma EntryLessIrreflexive(a: Entry)
    ensures !EntryLess(a, a)
  {
    if a.payload.Work? {
      var t := a.payload.task;
      StrLessIrreflexive(t.fullPath);
      StrLessIrreflexive(t.url);
      if t.flags.FlagStr? {
        StrLessIrreflexive(t.flags.s);
      }
    }
  }

  lemma FlagsLessTrans(a: Flags, b: Flags, c: Flags)
    requires FlagsLess(a, b) && FlagsLess(b, c)
    ensures FlagsLess(a, c)
  {
    if a.FlagStr? && b.FlagStr? && c.FlagStr? {
      StrLessTrans(a.s, b.s, c.s);
    }
  }

  lemma TaskLessTrans(a: Task, b: Task, c: Task)
    requires TaskLess(a, b) && TaskLess(b, c)
    ensures TaskLess(a, c)
  {
    if StrLess(a.fullPath, b.fullPath) && StrLess(b.fullPath, c.fullPath) {
      StrLessTrans(a.fullPath, b.fullPath, c.fullPath);
    } else if a.fullPath == b.fullPath == c.fullPath {
      if StrLess(a.url, b.url) && StrLess(b.url, c.url) {
        StrLessTrans(a.url, b.url, c.url);
      } else if a.url == b.url == c.url && a.size == b.size == c.size {
        FlagsLessTrans(a.flags, b.flags, c.flags);
      }
    }
  }

  lemma EntryLessTrans(a: Entry, b: Entry, c: Entry)
    requires EntryLess(a, b) && EntryLess(b, c)
    ensures EntryLess(a, c)
  {
    if a.prio == b.prio == c.prio && a.payload.Work? && b.payload.Work? && c.payload.Work? {
      TaskLessTrans(a.payload.task, b.payload.task, c.payload.task);
    }
  }

  /** Two different entries are always ordered one way or the other. */
  lemma EntryLessTotal(a: Entry, b: Entry)
    requires a != b
    ensures EntryLess(a, b) || EntryLess(b, a)
  {
    if a.prio == b.prio && a.payload.Work? && b.payload.Work? {
      var x, y := a.payload.task, b.payload.task;
      if x.fullPath != y.fullPath {
        StrLessTotal(x.fullPath, y.fullPath);
      } else if x.url != y.url {
        StrLessTotal(x.url, y.url);
      } else if x.size == y.size && x.flags.FlagStr? && y.flags.FlagStr? {
        StrLessTotal(x.flags.s, y.flags.s);
      }
    }
  }

  /** The position of a smallest entry: nothing in the queue is smaller. */
  function MinIndex(q: seq<Entry>): (i: nat)
    requires |q| > 0
    ensures i < |q|
    ensures forall j :: 0 <= j < |q| ==> !EntryLess(q[j], q[i])
    decreases |q|
  {
    if |q| == 1 then
      EntryLessIrreflexive(q[0]);
      0
    else
      var k := MinIndex(q[..|q| - 1]);
      var last := q[|q| - 1];
      if EntryLess(last, q[k]) then
        assert forall j :: 0 <= j < |q| ==> !EntryLess(q[j], last) by {
          forall j | 0 <= j < |q|
            ensures !EntryLess(q[j], last)
          {
            if j < |q| - 1 {
              assert q[..|q| - 1][j] == q[j];
              if EntryLess(q[j], last) {
                EntryLessTrans(q[j], last, q[k]);
              }
            } else {
              EntryLessIrreflexive(last);
            }
          }
        }
        |q| - 1
      else
        assert forall j :: 0 <= j < |q| ==> !EntryLess(q[j], q[k]) by {
          forall j | 0 <= j < |q|
            ensures !EntryLess(q[j], q[k])
          {
            if j < |q| - 1 {
              assert q[..|q| - 1][j] == q[j];
            }
          }
        }
        k
  }

  /** `queue.put(e)` */
  function Put(q: seq<Entry>, e: Entry): (r: seq<Entry>)
    ensures multiset(r) == multiset(q) + multiset{e}
  {
    q + [e]
  }

  /** `queue.get()` on a non-empty queue: the least entry, and the queue
      without it. */
  function Get(q: seq<Entry>): (r: (Entry, seq<Entry>))
    requires |q| > 0
    ensures r.0 in q
    ensures multiset(r.1) + multiset{r.0} == multiset(q)
    ensures forall j :: 0 <= j < |q| ==> !EntryLess(q[j], r.0)
  {
    var i := MinIndex(q);
    assert q == q[..i] + [q[i]] + q[i + 1..];
    (q[i], q[..i] + q[i + 1..])
  }

  /** The dequeued entry does not depend on the order of insertion: any
      two queues holding the same entries hand out the same one. */
  lemma GetIsDeterminedByContents(q1: seq<Entry>, q2: seq<Entry>)
    requires |q1| > 0 && multiset(q1) == multiset(q2)
    ensures Get(q1).0 == Get(q2).0
  {
    var a, b := Get(q1).0, Get(q2).0;
    assert a in multiset(q2) && b in multiset(q1);
    if a != b {
      EntryLessTotal(a, b);
    }
  }

  /** Every entry is either a STOP at high priority or a task at normal
      priority: the only two kinds the download code puts. */
  predicate WellPrioritized(q: seq<Entry>) {
    forall k :: 0 <= k < |q| ==>
      (q[k].payload.Stop? && q[k].prio == PRIO_HIGH) || (q[k].payload.Work? && q[k].prio == PRIO_NORMAL)
  }

  /** A queued STOP is handed out before any queued task. */
  lemma StopComesFirst(q: seq<Entry>)
    requires WellPrioritized(q)
    requires exists k :: 0 <= k < |q| && q[k].payload.Stop?
    ensures Get(q).0 == Entry(PRIO_HIGH, Stop)
  {
    var k :| 0 <= k < |q| && q[k].payload.Stop?;
    var e := Get(q).0;
    var i :| 0 <= i < |q| && q[i] == e;
    assert !EntryLess(q[k], e);
  }

  /** Tasks of equal priority come out in order of their target path. */
  lemma TasksInPathOrder(q: seq<Entry>)
    requires |q| > 0
    requires forall k :: 0 <= k < |q| ==> q[k].payload.Work? && q[k].prio == PRIO_NORMAL
    ensures Get(q).0.payload.Work?
    ensures forall k :: 0 <= k < |q| ==>
              !StrLess(q[k].payload.task.fullPath, Get(q).0.payload.task.fullPath)
  {
    var e := Get(q).0;
    var i :| 0 <= i < |q| && q[i] == e;
    forall k | 0 <= k < |q|
      ensures !StrLess(q[k].payload.task.fullPath, e.payload.task.fullPath)
    {
      assert !EntryLess(q[k], e);
    }
  }

  /** Taking an entry out keeps the queue well prioritized. */
  lemma GetKeepsWellPrioritized(q: seq<Entry>)
    requires |q| > 0 && WellPrioritized(q)
    ensures WellPrioritized(Get(q).1)
  {
    var rest := Get(q).1;
    forall k | 0 <= k < |rest|
      ensures (rest[k].payload.Stop? && rest[k].prio == PRIO_HIGH) ||
              (rest[k].payload.Work? && rest[k].prio == PRIO_NORMAL)
    {
      assert rest[k] in multiset(rest);
      assert rest[k] in multiset(q);
    }
  }
}
