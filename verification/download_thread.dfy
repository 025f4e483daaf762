/** One download thread: the pre-download check, the quarantine of a bad
    file, the transfer bookkeeping, the throughput sampler and the
    consume-until-STOP loop. The filesystem is the abstract `FS`; the
    handler's exit code (what `getFile` returned or raised) and the clock
    are inputs. */
module DownloadThread {
  import opened Wrappers
  import opened PyStr
  import opened PyPath
  import opened FileSystem
  import opened ProtocolHandler
  import opened DownloadQueue

  const EXIT_DONE: int := 0
  const EXIT_STOP: int := 1
  const EXIT_IO_ERR: int := -1
  const EXIT_DOWNLOAD_ERR: int := -2

  /** What a thread reports to its callback for one task. */
  datatype Outcome =
    | IoError(url: Str)                                  // the target directory cannot be made
    | AlreadyThere(file: Str, url: Str)                  // nothing to fetch
    | Done(file: Str, url: Str, size: int)               // transfer succeeded
    | DownloadFailed(file: Str, url: Str, start: Option<int>, end: Option<int>, exitcode: Option<int>)

  /** The status code sent with an outcome. */
  function Code(o: Outcome): int {
    match o
    case IoError(_) => EXIT_IO_ERR
    case AlreadyThere(_, _) => EXIT_DONE
    case Done(_, _, _) => EXIT_DONE
    case DownloadFailed(_, _, _, _, _) => EXIT_DOWNLOAD_ERR
  }

  /** The `size` entry of the report: bytes transferred, 0 unless `Done`. */
  function ReportedSize(o: Outcome): int {
    if o.Done? then o.size else 0
  }

  /** `int(flags)`: a number as is, text through `int()`. */
  function FlagValue(f: Flags): (r: Result<int, PyError>)
    ensures f.FlagInt? ==> r == Success(f.n)
    ensures f.FlagStr? ==> (r.Success? <==> ParseInt(f.s).Some?)
  {
    match f
    case FlagInt(n) => Success(n)
    case FlagStr(s) => if ParseInt(s).Some? then Success(ParseInt(s).value) else Failure(ValueError)
  }

  /** Python 2's `start > end` with `end` possibly `None`: every number is
      greater than `None`. */
  predicate GreaterThanSize(start: int, end: Option<int>) {
    end.None? || start > end.value
  }

  // ----- quarantine of a bad file ---------------------------------------

  /** `path/bad<n>` */
  function SlotDir(path: Str, n: nat): Str {
    PathJoin(path, "bad" + NatToStr(n))
  }

  /** A slot is skipped when it is a directory already holding the name. */
  predicate SlotTaken(fs: FS, path: Str, file: Str, n: nat) {
    fs.IsDir(SlotDir(path, n)) && fs.IsFile(PathJoin(SlotDir(path, n), file))
  }

  /** `os.mkdir(dir)` when missing, then `shutil.move(full, dir)`, which
      refuses an existing `dir/file` and needs to write both the target
      directory and the file's own directory; either step may fail with an
      environment error. */
  function MoveInto(fs: FS, full: Str, dir: Str, file: Str): (r: Result<FS, PyError>)
    requires fs.IsFile(full)
    ensures r.Success? ==> !fs.Exists(PathJoin(dir, file))
    ensures r.Success? ==> var dest := PathJoin(dir, file);
              dest in r.value.files && r.value.files[dest] == fs.files[full] &&
              (dest != full ==> full !in r.value.files) &&
              (forall p :: p != full && p != dest ==> (p in r.value.files <==> p in fs.files))
  {
    var fs1 :- if fs.IsDir(dir) then Success(fs)
               else match MakeDirs(fs, dir)
                    case Created(f) => Success(f)
                    case Failed(_) => Failure(OSError);
    var dest := PathJoin(dir, file);
    if fs1.Exists(dest) || dir in fs1.denied || Dirname(full) in fs1.denied then Failure(OSError)
    else Success(fs1.(files := (fs1.files - {full})[dest := fs.files[full]]))
  }

  /** What `move_bad_file` returns, and the filesystem afterwards. */
  datatype Moved = Moved(newdir: Option<Str>, fs: FS)

  /** After the move loop: `None` when the file is still in place. */
  function AfterMove(fs: FS, full: Str, newdir: Str): Moved {
    if fs.IsFile(full) then Moved(None, fs) else Moved(Some(newdir), fs)
  }

  /** `move_bad_file(full_path)`: a missing file is reported as moved
      already, an empty one is deleted, a non-empty one goes to the first
      free slot. Only the file and its slot targets can change, a give-up
      changes nothing, and only a present file can make it raise. */
  function MoveBadFile(fs: FS, full: Str): (r: Result<Moved, PyError>)
    ensures r.Failure? ==> fs.IsFile(full)
    ensures r.Success? && r.value.newdir.None? ==> r.value.fs == fs
    ensures r.Success? ==>
              r.value.newdir.None? || r.value.newdir == Some(Dirname(full)) ||
              r.value.newdir == Some(SlotDir(Dirname(full), 0)) || r.value.newdir == Some(SlotDir(Dirname(full), 1))
    ensures r.Success? ==>
              forall p :: p != full && p != PathJoin(SlotDir(Dirname(full), 0), Basename(full)) &&
                          p != PathJoin(SlotDir(Dirname(full), 1), Basename(full)) ==>
                (r.value.fs.IsFile(p) <==> fs.IsFile(p))
  {
    var path := Dirname(full);
    var file := Basename(full);
    if !fs.IsFile(full) then Success(Moved(Some(path), fs))
    else if fs.files[full] == 0 then
      // `os.remove` needs to write the file's directory
      if path in fs.denied then Failure(OSError)
      else Success(Moved(Some(path), fs.(files := fs.files - {full})))
    else if !SlotTaken(fs, path, file, 0) then MoveToSlot(fs, full, 0)
    else if !SlotTaken(fs, path, file, 1) then MoveToSlot(fs, full, 1)
    else Success(AfterMove(fs, full, SlotDir(path, 1)))
  }

  /** One pass of the move loop that does not skip its slot: the file
      leaves its place for the slot, and no other file changes. */
  function MoveToSlot(fs: FS, full: Str, n: nat): (r: Result<Moved, PyError>)
    requires fs.IsFile(full)
    ensures r.Success? ==>
              r.value.newdir == Some(SlotDir(Dirname(full), n)) &&
              forall p :: p != full && p != PathJoin(SlotDir(Dirname(full), n), Basename(full)) ==>
                (r.value.fs.IsFile(p) <==> fs.IsFile(p))
  {
    var slot := SlotDir(Dirname(full), n);
    var fs' :- MoveInto(fs, full, slot, Basename(full));
    Success(AfterMove(fs', full, slot))
  }

  /** A quarantine target never coincides with the file itself. */
  lemma SlotTargetDiffers(full: Str, n: nat)
    requires NoDoubleSlash(full)
    ensures PathJoin(SlotDir(Dirname(full), n), Basename(full)) != full
  {
    var path, file := Dirname(full), Basename(full);
    JoinDirnameBasename(full);
    BasenameRelative(full);
    SlotNameRelative(n);
    var slot := SlotDir(path, n);
    assert |full| <= |path| + |file| + 1;
    assert |slot| >= |path| + 4;
    assert |PathJoin(slot, file)| >= |slot| + |file|;
  }

  lemma BasenameRelative(full: Str)
    ensures !StartsWith(Basename(full), "/")
  {
    var file := Basename(full);
    if |file| > 0 {
      assert file[0] in file;
      assert file[..1] == [file[0]];
    }
  }

  lemma SlotNameRelative(n: nat)
    ensures var name := "bad" + NatToStr(n);
            |name| >= 4 && !StartsWith(name, "/")
  {
    var name := "bad" + NatToStr(n);
    assert name[..1] == "b";
  }

  /** The two slots are different directories. */
  lemma SlotsDiffer(path: Str)
    ensures SlotDir(path, 0) != SlotDir(path, 1)
  {
    var a, b := SlotDir(path, 0), SlotDir(path, 1);
    assert "bad" + NatToStr(0) == "bad0" && "bad" + NatToStr(1) == "bad1";
    assert a[|a| - 1] == '0' && b[|b| - 1] == '1';
  }

  /** `move_bad_file` gives `None` exactly when the file is non-empty and
      both `bad0` and `bad1` already hold a file of that name. */
  lemma MoveBadFileGivesUp(fs: FS, full: Str)
    requires NoDoubleSlash(full)
    ensures var r := MoveBadFile(fs, full);
            var path, file := Dirname(full), Basename(full);
            (r.Success? && r.value.newdir.None?) <==>
            (fs.IsFile(full) && fs.files[full] != 0 && SlotTaken(fs, path, file, 0) && SlotTaken(fs, path, file, 1))
  {
    SlotTargetDiffers(full, 0);
    SlotTargetDiffers(full, 1);
  }

  /** The file moved into a slot, keeping its size, and nothing else
      appeared or disappeared. */
  ghost predicate MovedInto(fs: FS, m: Moved, full: Str, slot: Str) {
    var dest := PathJoin(slot, Basename(full));
    fs.IsFile(full) && m.newdir == Some(slot) &&
    !m.fs.IsFile(full) && m.fs.IsFile(dest) && m.fs.files[dest] == fs.files[full] &&
    (forall p :: p != full && p != dest ==> (m.fs.IsFile(p) <==> fs.IsFile(p)))
  }

  /** A non-empty file goes to `bad0` when that slot does not hold its
      name yet, otherwise to `bad1` when that one does not. */
  lemma MoveBadFileMoves(fs: FS, full: Str)
    requires NoDoubleSlash(full)
    requires fs.IsFile(full) && fs.files[full] != 0
    ensures var r := MoveBadFile(fs, full);
            var path, file := Dirname(full), Basename(full);
            r.Success? ==>
              (!SlotTaken(fs, path, file, 0) ==> MovedInto(fs, r.value, full, SlotDir(path, 0))) &&
              (SlotTaken(fs, path, file, 0) && !SlotTaken(fs, path, file, 1) ==>
                 MovedInto(fs, r.value, full, SlotDir(path, 1)))
  {
    var path, file := Dirname(full), Basename(full);
    if MoveBadFile(fs, full).Success? {
      if !SlotTaken(fs, path, file, 0) {
        var slot := SlotDir(path, 0);
        assert MoveToSlot(fs, full, 0).Success?;
        assert MoveInto(fs, full, slot, file).Success? &&
               MoveBadFile(fs, full).value == AfterMove(MoveInto(fs, full, slot, file).value, full, slot);
        SlotTargetDiffers(full, 0);
        MoveIntoMoved(fs, full, slot);
      } else if !SlotTaken(fs, path, file, 1) {
        var slot := SlotDir(path, 1);
        assert MoveToSlot(fs, full, 1).Success?;
        assert MoveInto(fs, full, slot, file).Success? &&
               MoveBadFile(fs, full).value == AfterMove(MoveInto(fs, full, slot, file).value, full, slot);
        SlotTargetDiffers(full, 1);
        MoveIntoMoved(fs, full, slot);
      }
    }
  }

  /** A successful move into a slot whose target is not the file itself
      takes the file out of its place. */
  lemma MoveIntoMoved(fs: FS, full: Str, slot: Str)
    requires fs.IsFile(full) && PathJoin(slot, Basename(full)) != full
    requires MoveInto(fs, full, slot, Basename(full)).Success?
    ensures MovedInto(fs, AfterMove(MoveInto(fs, full, slot, Basename(full)).value, full, slot), full, slot)
  {
    var fs' := MoveInto(fs, full, slot, Basename(full)).value;
    assert !fs'.IsFile(full);
    assert AfterMove(fs', full, slot) == Moved(Some(slot), fs');
  }

  /** A missing file is already out of the way, and an empty one is simply
      deleted, unless its directory cannot be written; both report the
      file's directory. */
  lemma MoveBadFileTrivial(fs: FS, full: Str)
    ensures !fs.IsFile(full) ==> MoveBadFile(fs, full) == Success(Moved(Some(Dirname(full)), fs))
    ensures fs.IsFile(full) && fs.files[full] == 0 && Dirname(full) !in fs.denied ==>
              MoveBadFile(fs, full) == Success(Moved(Some(Dirname(full)), fs.(files := fs.files - {full})))
    ensures fs.IsFile(full) && fs.files[full] == 0 && Dirname(full) in fs.denied ==>
              MoveBadFile(fs, full) == Failure(OSError)
  {
  }

  /** A present file in a directory that cannot be written is never
      removed or moved: the quarantine fails, or gives up when both slots
      are already used. */
  lemma MoveBadFileDenied(fs: FS, full: Str)
    requires fs.IsFile(full) && Dirname(full) in fs.denied
    ensures var r := MoveBadFile(fs, full);
            r.Failure? || (r.value.newdir.None? && r.value.fs == fs)
  {
    var path, file := Dirname(full), Basename(full);
    if fs.files[full] != 0 {
      MoveIntoFromDenied(fs, full, SlotDir(path, 0), file);
      MoveIntoFromDenied(fs, full, SlotDir(path, 1), file);
    }
  }

  /** A file cannot be moved out of a directory that cannot be written. */
  lemma MoveIntoFromDenied(fs: FS, full: Str, dir: Str, file: Str)
    requires fs.IsFile(full) && Dirname(full) in fs.denied
    ensures MoveInto(fs, full, dir, file).Failure?
  {
    if !fs.IsDir(dir) && MakeDirs(fs, dir).Created? {
      assert MakeDirs(fs, dir).fs.denied == fs.denied;
    }
  }

  // ----- the pre-download check -----------------------------------------

  /** The check either settles the task or asks for bytes [start, end). */
  datatype Check = Settled(outcome: Outcome, fs: FS) | Fetch(start: int, end: Option<int>, fs: FS)

  /** `_check_download(full_path, url, size, flags)` up to the transfer. */
  function CheckDownload(fs: FS, t: Task): (r: Result<Check, PyError>)
    ensures r.Failure? ==> fs.IsFile(t.fullPath) && FlagValue(t.flags).Failure?
    ensures r.Success? && r.value.Fetch? ==>
              r.value.end == t.size &&
              (r.value.start == 0 ||
               (fs.IsFile(t.fullPath) && r.value.start == fs.files[t.fullPath] &&
                t.size.Some? && r.value.start < t.size.value))
    ensures r.Success? && r.value.Settled? && r.value.outcome.IoError? ==> !fs.IsFile(t.fullPath)
    ensures r.Success? && r.value.Settled? && !r.value.outcome.IoError? ==> fs.IsFile(t.fullPath)
    ensures r.Success? && r.value.Settled? ==> ReportedSize(r.value.outcome) == 0
  {
    var path := Dirname(t.fullPath);
    if !fs.IsFile(t.fullPath) then
      match MakeDirs(fs, path)
      case Created(fs') => Success(Fetch(0, t.size, fs'))
      case Failed(AlreadyExists) => Success(Fetch(0, t.size, fs))
      case Failed(OtherOSError) => Success(Settled(IoError(t.url), fs))
    else
      var flags :- FlagValue(t.flags);
      if flags == -1 then
        match MoveBadFile(fs, t.fullPath)
        case Failure(_) =>
          Success(Settled(DownloadFailed(t.fullPath, t.url, t.size, t.size, Some(-1)), fs))
        case Success(m) =>
          if m.newdir.None? then Success(Settled(AlreadyThere(t.fullPath, t.url), m.fs))
          else Success(Fetch(0, t.size, m.fs))
      else
        var start := fs.files[t.fullPath];
        if t.size == Some(start) then Success(Settled(AlreadyThere(t.fullPath, t.url), fs))
        else if GreaterThanSize(start, t.size) then
          Success(Settled(DownloadFailed(t.fullPath, t.url, Some(start), t.size, None), fs))
        else Success(Fetch(start, t.size, fs))
  }

  /** The decision table for a file that is present and not flagged bad:
      complete means done, too big (or of unknown expected size) means an
      error, anything shorter resumes where it stopped. */
  lemma CheckPresentFile(fs: FS, t: Task)
    requires fs.IsFile(t.fullPath) && FlagValue(t.flags).Success? && FlagValue(t.flags).value != -1
    ensures var cur := fs.files[t.fullPath];
            var r := CheckDownload(fs, t);
            r.Success? &&
            (t.size == Some(cur) ==> r.value == Settled(AlreadyThere(t.fullPath, t.url), fs)) &&
            (t.size.None? || cur > t.size.value ==> r.value.Settled? && r.value.outcome.DownloadFailed?) &&
            (t.size.Some? && cur < t.size.value ==> r.value == Fetch(cur, t.size, fs))
  {
  }

  /** An absent file is fetched whole unless its directory cannot be made. */
  lemma CheckAbsentFile(fs: FS, t: Task)
    requires !fs.IsFile(t.fullPath)
    ensures var r := CheckDownload(fs, t);
            r.Success? &&
            (r.value.Fetch? <==> (Dirname(t.fullPath) != "" && Dirname(t.fullPath) !in fs.denied) || fs.Exists(Dirname(t.fullPath))) &&
            (r.value.Fetch? ==> r.value.start == 0)
  {
  }

  /** A file flagged bad (`flags == -1`) is quarantined and fetched again
      from byte 0; when both slots are used up it counts as done. */
  lemma CheckBadFile(fs: FS, t: Task)
    requires NoDoubleSlash(t.fullPath)
    requires fs.IsFile(t.fullPath) && fs.files[t.fullPath] != 0 && FlagValue(t.flags) == Success(-1)
    ensures var r := CheckDownload(fs, t);
            var path, file := Dirname(t.fullPath), Basename(t.fullPath);
            r.Success? &&
            (SlotTaken(fs, path, file, 0) && SlotTaken(fs, path, file, 1) ==>
               r.value.Settled? && r.value.outcome == AlreadyThere(t.fullPath, t.url)) &&
            (r.value.Fetch? ==> r.value.start == 0 && !r.value.fs.IsFile(t.fullPath))
  {
    MoveBadFileGivesUp(fs, t.fullPath);
    MoveBadFileMoves(fs, t.fullPath);
  }

  /** A bad file whose directory cannot be written stays where it is: the
      task fails with exit code -1 and the expected size as both ends, or
      counts as done when both slots are used up. */
  lemma CheckBadFileDenied(fs: FS, t: Task)
    requires fs.IsFile(t.fullPath) && Dirname(t.fullPath) in fs.denied && FlagValue(t.flags) == Success(-1)
    ensures var r := CheckDownload(fs, t);
            r.Success? && r.value.Settled? && r.value.fs == fs &&
            (r.value.outcome == DownloadFailed(t.fullPath, t.url, t.size, t.size, Some(-1)) ||
             r.value.outcome == AlreadyThere(t.fullPath, t.url))
  {
    MoveBadFileDenied(fs, t.fullPath);
  }

  // ----- the transfer and the throughput sampler ------------------------

  /** The last throughput sample: when, how many bytes, and the rate. */
  datatype Bench = Bench(time: real, bytes: int, avg: real)

  /** The state `getThroughput` reads. */
  datatype Worker = Worker(activeFile: Option<Str>, bench: Option<Bench>, startByte: int)

  const IdleWorker: Worker := Worker(None, None, 0)

  /** Start of `_download`: the file becomes active and the first sample
      is the start byte at the current time with rate 0. */
  function BeginTransfer(w: Worker, full: Str, start: int, now: real): (w': Worker)
    ensures w'.activeFile == Some(full) && w'.startByte == start
    ensures w'.bench == Some(Bench(now, start, 0.0))
  {
    Worker(Some(full), Some(Bench(now, start, 0.0)), start)
  }

  /** The rest of `_download`, given what the handler's `getFile` returned
      or raised: exit code 0 is success with `end - start` bytes, anything
      else a failure. An unknown scheme raises before the transfer; `end`
      of `None` makes the success report raise. On every exception the
      file stays active. */
  function Transfer(w: Worker, table: Table, t: Task, start: int, end: Option<int>, now: real,
                    ret: Result<int, PyError>): (r: (Worker, Result<Outcome, PyError>))
    ensures r.0.activeFile.Some? <==> GetHandler(table, t.url).Failure? || ret.Failure?
    ensures r.0.activeFile.Some? ==> r.0.activeFile == Some(t.fullPath) && r.1.Failure?
    ensures r.0.bench == Some(Bench(now, start, 0.0)) && r.0.startByte == start
    ensures r.1.Success? ==> GetHandler(table, t.url).Success? && ret.Success?
    ensures r.1.Success? && ret.value == 0 ==>
              end.Some? && r.1.value == Done(t.fullPath, t.url, end.value - start)
    ensures r.1.Success? && ret.value != 0 ==>
              r.1.value == DownloadFailed(t.fullPath, t.url, Some(start), end, Some(ret.value))
  {
    var w1 := BeginTransfer(w, t.fullPath, start, now);
    if GetHandler(table, t.url).Failure? then (w1, Failure(GetHandler(table, t.url).error))
    else if ret.Failure? then (w1, Failure(ret.error))
    else
      var w2 := w1.(activeFile := None);
      if ret.value == 0 then
        if end.None? then (w2, Failure(TypeError))
        else (w2, Success(Done(t.fullPath, t.url, end.value - start)))
      else (w2, Success(DownloadFailed(t.fullPath, t.url, Some(start), end, Some(ret.value))))
  }

  /** `getThroughput()` at time `now`, where `observed` is the size of the
      active file (`None` when it cannot be read, which counts as 0). */
  function GetThroughput(w: Worker, now: real, observed: Option<int>): (r: (Result<real, PyError>, Worker))
    ensures w.activeFile.None? ==> r == (Success(0.0), w)
    ensures w.activeFile.Some? && w.bench.Some? && now - w.bench.value.time < 1.0 ==>
              r == (Success(w.bench.value.avg), w)
  {
    match w.activeFile
    case None => (Success(0.0), w)
    case Some(f) =>
      match w.bench
      case None => (Failure(AttributeError), w)
      case Some(b) =>
        var elapsed := now - b.time;
        if elapsed < 1.0 then (Success(b.avg), w)
        else if f == "" then
          // an empty name reads as no size at all, and `avg` is never bound
          (Failure(NameError), w.(bench := Some(b.(time := now))))
        else
          var curr := observed.GetOr(0);
          var avg := (curr - b.bytes) as real / elapsed;
          (Success(avg), w.(bench := Some(Bench(now, curr, avg))))
  }

  /** Each fresh sample is the bytes gained since the previous sample over
      the time since it, and becomes the new baseline. */
  lemma ThroughputIsRate(w: Worker, now: real, size: int)
    requires w.activeFile.Some? && w.activeFile.value != "" && w.bench.Some?
    requires now - w.bench.value.time >= 1.0
    ensures var (r, w') := GetThroughput(w, now, Some(size));
            var b := w.bench.value;
            r.Success? && r.value * (now - b.time) == (size - b.bytes) as real &&
            w'.bench == Some(Bench(now, size, r.value))
  {
  }

  /** Two fresh samples after the start account for every byte since the
      start byte: rate times interval, summed, is the growth of the file. */
  lemma ThroughputAccountsForBytes(full: Str, start: int, t0: real, t1: real, s1: int, t2: real, s2: int)
    requires full != ""
    requires t1 - t0 >= 1.0 && t2 - t1 >= 1.0
    ensures var w0 := BeginTransfer(IdleWorker, full, start, t0);
            var (r1, w1) := GetThroughput(w0, t1, Some(s1));
            var (r2, w2) := GetThroughput(w1, t2, Some(s2));
            r1.Success? && r2.Success? &&
            r1.value * (t1 - t0) + r2.value * (t2 - t1) == (s2 - start) as real
  {
    var w0 := BeginTransfer(IdleWorker, full, start, t0);
    ThroughputIsRate(w0, t1, s1);
    var w1 := GetThroughput(w0, t1, Some(s1)).1;
    ThroughputIsRate(w1, t2, s2);
  }

  // ----- the thread loop ------------------------------------------------

  /** How the loop of `run` ended: after a STOP, by an exception escaping
      the task, or blocked on an empty queue. */
  datatype Exit = Stopped | Died(error: PyError) | Blocked

  /** What the thread did: the callbacks it made for tasks, the
      `task_done` calls, how it ended, and the queue it left. */
  datatype RunTrace = RunTrace(reports: seq<Outcome>, taskDone: nat, exit: Exit, queue: seq<Entry>)

  /** `run()`, with `handle` standing for `_check_download` and the
      transfer of one task. */
  function Run(q: seq<Entry>, handle: Task -> Result<Outcome, PyError>): (r: RunTrace)
    ensures |r.queue| <= |q|
    ensures r.exit.Blocked? ==> r.queue == []
    ensures r.taskDone <= |q| && |r.reports| <= r.taskDone
    decreases |q|
  {
    if |q| == 0 then RunTrace([], 0, Blocked, q)
    else
      var (e, rest) := Get(q);
      match e.payload
      case Stop => RunTrace([], 1, Stopped, rest)
      case Work(t) =>
        match handle(t)
        case Failure(err) => RunTrace([], 1, Died(err), rest)
        case Success(o) =>
          var tail := Run(rest, handle);
          RunTrace([o] + tail.reports, tail.taskDone + 1, tail.exit, tail.queue)
  }

  /** `task_done` is called once per entry taken from the queue, and a
      callback is made for every task except one that raised. */
  lemma {:induction false} RunAccounting(q: seq<Entry>, handle: Task -> Result<Outcome, PyError>)
    ensures var r := Run(q, handle);
            r.taskDone == |q| - |r.queue| &&
            |r.reports| == (if r.exit.Blocked? then r.taskDone else r.taskDone - 1)
    decreases |q|
  {
    if |q| > 0 {
      var (e, rest) := Get(q);
      assert |rest| == |q| - 1 by {
        assert |multiset(rest)| + 1 == |multiset(q)|;
      }
      if e.payload.Work? && handle(e.payload.task).Success? {
        RunAccounting(rest, handle);
      }
    }
  }

  /** With a STOP queued among tasks, the thread stops at once without
      touching any task. */
  lemma RunStopsFirst(q: seq<Entry>, handle: Task -> Result<Outcome, PyError>)
    requires WellPrioritized(q)
    requires exists k :: 0 <= k < |q| && q[k].payload.Stop?
    ensures Run(q, handle) == RunTrace([], 1, Stopped, Get(q).1)
  {
    StopComesFirst(q);
  }
}
