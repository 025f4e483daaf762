/** Pushing aside the files of a replicated dataset that belong to older
    versions: every file's dataset version is read off its DRS path, the
    files of each older version are counted and sized, an OBSOLETE dataset
    `old_<version>_<name>` is made per older version, and the files are
    re-pointed to the dataset of their own version. The database session,
    the file system test for a file's location and the printing are left
    out; the location a file is found at is an input. */
module PushFilesAside {
  import opened Wrappers
  import opened PyStr
  import PyPath
  import RM = ReplicaManager
  import P2pManager

  /** A file row of the dataset. */
  datatype File = File(absPath: Str, datasetName: Str, size: int, checksum: Str, checksumType: Str)

  /** The dataset whose files are sorted out; `version` is its latest. */
  datatype Replica = Replica(name: Str, version: int, gateway: Str, parent: Str, catalog: Str, files: seq<File>)

  /** A dataset row made for an older version. */
  datatype Dataset = Dataset(name: Str, version: int, status: int, gateway: Str, parent: Str,
                             size: int, filecount: nat, catalog: Str)

  /** The files of one older version so far: how many, and their total size. */
  datatype Group = Group(count: nat, size: int)

  /** What `previous_files` records for a checksum: location, checksum and
      checksum type. */
  type Location = (Str, Str, Str)

  // ---------------------------------------------------------------------
  // dvers_from_abspath
  // ---------------------------------------------------------------------

  /** The version component read as a number: one leading `v` is dropped
      unless it is the whole component, the rest goes through `int()`. */
  function VersionNumber(fv: Str): (r: Result<int, PyError>)
    ensures r == Failure(IndexError) <==> fv == []
    ensures r.Failure? ==> r.error == IndexError || r.error == ValueError
  {
    if |fv| == 0 then Failure(IndexError)
    else
      var digits := if fv[0] == 'v' && |fv| > 1 then fv[1..] else fv;
      match ParseInt(digits)
      case None => Failure(ValueError)
      case Some(n) => Success(n)
  }

  /** `dvers_from_abspath`: the version of the dataset a file belongs to,
      from the tenth component of its normalised path. */
  function DversFromAbspath(absPath: Str): (r: Result<int, PyError>)
    ensures |Split(PyPath.NormPath(absPath), "/")| < 10 ==> r == Failure(IndexError)
  {
    var comps := Split(PyPath.NormPath(absPath), "/");
    if |comps| < 10 then Failure(IndexError) else VersionNumber(comps[9])
  }

  /** Both spellings of a version component, `v<n>` and `<n>`, read as
      `n`. */
  lemma VersionNumberOf(n: nat)
    ensures VersionNumber("v" + NatToStr(n)) == Success(n)
    ensures VersionNumber(NatToStr(n)) == Success(n)
  {
    var s := NatToStr(n);
    ParseIntToStr(n);
    assert IntToStr(n) == s;
    assert ("v" + s)[1..] == s;
  }

  /** A bare `v` is not a number. */
  lemma BareV()
    ensures VersionNumber("v") == Failure(ValueError)
  {
    assert Strip("v") == "v";
  }

  /** A relative DRS path of plain components yields the number of its
      tenth component. */
  lemma DversOfPlain(cs: seq<Str>, n: nat)
    requires |cs| >= 10
    requires forall k :: 0 <= k < |cs| ==> PyPath.PlainComponent(cs[k])
    requires cs[9] == "v" + NatToStr(n) || cs[9] == NatToStr(n)
    ensures DversFromAbspath(Join(cs, "/")) == Success(n)
  {
    PyPath.NormPathPlain(cs);
    SplitJoinChar(cs, '/');
    VersionNumberOf(n);
  }

  // ---------------------------------------------------------------------
  // The first pass: counting the files of older versions
  // ---------------------------------------------------------------------

  /** File `i` is counted for version `v`: it takes part and its path
      names `v`. */
  predicate CountedAt(dvers: Str -> Result<int, PyError>, files: seq<File>, skip: seq<bool>, i: int, v: int)
    requires |skip| == |files|
  {
    0 <= i < |files| && !skip[i] && dvers(files[i].absPath) == Success(v)
  }

  /** How many files are counted for `v`. */
  function CountOf(dvers: Str -> Result<int, PyError>, files: seq<File>, skip: seq<bool>, v: int): nat
    requires |skip| == |files|
    decreases |files|
  {
    if |files| == 0 then 0
    else
      var n := |files| - 1;
      CountOf(dvers, files[..n], skip[..n], v) + (if CountedAt(dvers, files, skip, n, v) then 1 else 0)
  }

  /** The total size of the files counted for `v`. */
  function SizeOf(dvers: Str -> Result<int, PyError>, files: seq<File>, skip: seq<bool>, v: int): int
    requires |skip| == |files|
    decreases |files|
  {
    if |files| == 0 then 0
    else
      var n := |files| - 1;
      SizeOf(dvers, files[..n], skip[..n], v) + (if CountedAt(dvers, files, skip, n, v) then files[n].size else 0)
  }

  /** The first loop of `push_files_aside`: files flagged in `skip` are
      passed over, files of the dataset's own version are left alone, and
      every other file adds one and its size to the group of its version.
      A path without a readable version stops the loop. */
  function Tally(dvers: Str -> Result<int, PyError>, files: seq<File>, skip: seq<bool>, version: int): (r: Result<map<int, Group>, PyError>)
    requires |skip| == |files|
    decreases |files|
  {
    if |files| == 0 then Success(map[])
    else
      var n := |files| - 1;
      var groups :- Tally(dvers, files[..n], skip[..n], version);
      if skip[n] then Success(groups)
      else
        var v :- dvers(files[n].absPath);
        if v == version then Success(groups)
        else if v in groups then Success(groups[v := Group(groups[v].count + 1, groups[v].size + files[n].size)])
        else Success(groups[v := Group(1, files[n].size)])
  }

  /** Dropping the last file keeps the flags of the others. */
  lemma CountedPrefix(dvers: Str -> Result<int, PyError>, files: seq<File>, skip: seq<bool>, i: int, v: int)
    requires |skip| == |files| > 0 && 0 <= i < |files| - 1
    ensures CountedAt(dvers, files[..|files| - 1], skip[..|files| - 1], i, v) <==> CountedAt(dvers, files, skip, i, v)
  {
  }

  /** The first loop fails exactly when a file taking part has no readable
      version; otherwise there is a group for each older version some
      file taking part has, holding the count and total size of those
      files, and none for the dataset's own version. */
  lemma {:induction false} TallySpec(dvers: Str -> Result<int, PyError>, files: seq<File>, skip: seq<bool>, version: int)
    requires |skip| == |files|
    ensures var r := Tally(dvers, files, skip, version);
            && (r.Failure? <==> exists i :: 0 <= i < |files| && !skip[i] && dvers(files[i].absPath).Failure?)
            && (r.Success? ==> forall v :: v in r.value <==> v != version && exists i :: CountedAt(dvers, files, skip, i, v))
            && (r.Success? ==> forall v :: v in r.value ==> r.value[v] == Group(CountOf(dvers, files, skip, v), SizeOf(dvers, files, skip, v)))
    decreases |files|
  {
    if |files| > 0 {
      var n := |files| - 1;
      var fs, sk := files[..n], skip[..n];
      TallySpec(dvers, fs, sk, version);
      forall i, v | 0 <= i < n ensures CountedAt(dvers, fs, sk, i, v) <==> CountedAt(dvers, files, skip, i, v) {
        CountedPrefix(dvers, files, skip, i, v);
      }
      assert forall i :: 0 <= i < n ==> fs[i] == files[i] && sk[i] == skip[i];
      var r := Tally(dvers, files, skip, version);
      var p := Tally(dvers, fs, sk, version);
      if p.Success? {
        forall v | v in p.value ensures CountOf(dvers, fs, sk, v) > 0 {
          var i :| CountedAt(dvers, fs, sk, i, v);
          CountPositive(dvers, fs, sk, i, v);
        }
        if r.Success? && !skip[n] && dvers(files[n].absPath).value != version {
          var w := dvers(files[n].absPath).value;
          assert CountedAt(dvers, files, skip, n, w);
          if w !in p.value {
            CountNone(dvers, fs, sk, w);
          }
        }
      }
    }
  }

  /** A counted file makes the count positive. */
  lemma {:induction false} CountPositive(dvers: Str -> Result<int, PyError>, files: seq<File>, skip: seq<bool>, i: int, v: int)
    requires |skip| == |files| && CountedAt(dvers, files, skip, i, v)
    ensures CountOf(dvers, files, skip, v) > 0
    decreases |files|
  {
    var n := |files| - 1;
    if i < n {
      CountedPrefix(dvers, files, skip, i, v);
      CountPositive(dvers, files[..n], skip[..n], i, v);
    }
  }

  /** With no counted file the count and size are zero. */
  lemma {:induction false} CountNone(dvers: Str -> Result<int, PyError>, files: seq<File>, skip: seq<bool>, v: int)
    requires |skip| == |files| && forall i :: !CountedAt(dvers, files, skip, i, v)
    ensures CountOf(dvers, files, skip, v) == 0 && SizeOf(dvers, files, skip, v) == 0
    decreases |files|
  {
    if |files| > 0 {
      var n := |files| - 1;
      forall i ensures !CountedAt(dvers, files[..n], skip[..n], i, v) {
        if 0 <= i < n {
          CountedPrefix(dvers, files, skip, i, v);
        }
      }
      CountNone(dvers, files[..n], skip[..n], v);
    }
  }

  /** The indices of the files counted for `v`. */
  function CountedSet(dvers: Str -> Result<int, PyError>, files: seq<File>, skip: seq<bool>, v: int): set<int>
    requires |skip| == |files|
  {
    set i | 0 <= i < |files| && CountedAt(dvers, files, skip, i, v)
  }

  /** The count is the number of files counted. */
  lemma {:induction false} CountIsCardinality(dvers: Str -> Result<int, PyError>, files: seq<File>, skip: seq<bool>, v: int)
    requires |skip| == |files|
    ensures CountOf(dvers, files, skip, v) == |CountedSet(dvers, files, skip, v)|
    decreases |files|
  {
    if |files| > 0 {
      var n := |files| - 1;
      CountIsCardinality(dvers, files[..n], skip[..n], v);
      var before := CountedSet(dvers, files[..n], skip[..n], v);
      forall i | 0 <= i < n ensures CountedAt(dvers, files[..n], skip[..n], i, v) <==> CountedAt(dvers, files, skip, i, v) {
        CountedPrefix(dvers, files, skip, i, v);
      }
      if CountedAt(dvers, files, skip, n, v) {
        assert CountedSet(dvers, files, skip, v) == before + {n};
      } else {
        assert CountedSet(dvers, files, skip, v) == before;
      }
    }
  }

  // ---------------------------------------------------------------------
  // The datasets of older versions
  // ---------------------------------------------------------------------

  /** One OBSOLETE dataset per group, named `old_<version>_<name>`,
      sharing the gateway, parent and catalog of the dataset. */
  function ObsoleteDatasets(rd: Replica, groups: map<int, Group>): map<int, Dataset> {
    map v | v in groups :: Dataset(P2pManager.BaseObsoleteName(v, rd.name), v, RM.OBSOLETE, rd.gateway, rd.parent,
                                   groups[v].size, groups[v].count, rd.catalog)
  }

  // ---------------------------------------------------------------------
  // The second pass: re-pointing the files
  // ---------------------------------------------------------------------

  /** The files after the second loop, and `previous_files`. */
  datatype Moved = Moved(files: seq<File>, previous: map<Str, Location>)

  /** File `i` moves: it takes part, belongs to the dataset by name and
      has an older version. */
  predicate Moving(dvers: Str -> Result<int, PyError>, name: Str, version: int, files: seq<File>, skip: seq<bool>, i: int)
    requires |skip| == |files|
  {
    && 0 <= i < |files| && !skip[i] && files[i].datasetName == name
    && dvers(files[i].absPath).Success? && dvers(files[i].absPath).value != version
  }

  /** The second loop: files flagged in `skip` are passed over, files of
      the dataset's own version are left alone, every other file needs a
      dataset for its version (a `KeyError` otherwise) and, when it
      belongs to the dataset by name, is re-pointed to it and its
      location, if it has one, recorded under its checksum. */
  function Repoint(dvers: Str -> Result<int, PyError>, name: Str, version: int, files: seq<File>, skip: seq<bool>, datasets: map<int, Dataset>,
                   location: File -> Option<Str>, previous: map<Str, Location>): (r: Result<Moved, PyError>)
    requires |skip| == |files|
    decreases |files|
  {
    if |files| == 0 then Success(Moved([], previous))
    else
      var n := |files| - 1;
      var m :- Repoint(dvers, name, version, files[..n], skip[..n], datasets, location, previous);
      var f := files[n];
      if skip[n] then Success(Moved(m.files + [f], m.previous))
      else
        var v :- dvers(f.absPath);
        if v == version then Success(Moved(m.files + [f], m.previous))
        else if v !in datasets then Failure(KeyError)
        else if f.datasetName != name then Success(Moved(m.files + [f], m.previous))
        else
          var prev := match location(f)
                      case None => m.previous
                      case Some(loc) => m.previous[f.checksum := (loc, f.checksum, f.checksumType)];
          Success(Moved(m.files + [f.(datasetName := datasets[v].name)], prev))
  }

  /** With a dataset for every older version met, the second loop fails
      exactly when a file taking part has no readable version; otherwise
      each moving file is re-pointed to the dataset of its own version and
      every other file is unchanged. */
  lemma RepointSpec(dvers: Str -> Result<int, PyError>, name: Str, version: int, files: seq<File>, skip: seq<bool>,
                                       datasets: map<int, Dataset>, location: File -> Option<Str>,
                                       previous: map<Str, Location>)
    requires |skip| == |files|
    requires forall i :: 0 <= i < |files| && !skip[i] && dvers(files[i].absPath).Success?
                         && dvers(files[i].absPath).value != version
                         ==> dvers(files[i].absPath).value in datasets
    ensures var r := Repoint(dvers, name, version, files, skip, datasets, location, previous);
            && (r.Failure? <==> exists i :: 0 <= i < |files| && !skip[i] && dvers(files[i].absPath).Failure?)
            && (r.Success? ==> |r.value.files| == |files|)
            && (r.Success? ==> forall i :: Moving(dvers, name, version, files, skip, i) ==>
                  r.value.files[i] == files[i].(datasetName := datasets[dvers(files[i].absPath).value].name))
            && (r.Success? ==> forall i :: 0 <= i < |files| && !Moving(dvers, name, version, files, skip, i) ==>
                  r.value.files[i] == files[i])
  {
    RepointShape(dvers, name, version, files, skip, datasets, location, previous);
    RepointFiles(dvers, name, version, files, skip, datasets, location, previous);
  }

  /** The failure case and the length of `RepointSpec`. */
  lemma {:induction false} RepointShape(dvers: Str -> Result<int, PyError>, name: Str, version: int, files: seq<File>, skip: seq<bool>,
                                       datasets: map<int, Dataset>, location: File -> Option<Str>,
                                       previous: map<Str, Location>)
    requires |skip| == |files|
    requires forall i :: 0 <= i < |files| && !skip[i] && dvers(files[i].absPath).Success?
                         && dvers(files[i].absPath).value != version
                         ==> dvers(files[i].absPath).value in datasets
    ensures var r := Repoint(dvers, name, version, files, skip, datasets, location, previous);
            && (r.Failure? <==> exists i :: 0 <= i < |files| && !skip[i] && dvers(files[i].absPath).Failure?)
            && (r.Success? ==> |r.value.files| == |files|)
    decreases |files|
  {
    if |files| > 0 {
      var n := |files| - 1;
      var fs, sk := files[..n], skip[..n];
      assert forall i :: 0 <= i < n ==> fs[i] == files[i] && sk[i] == skip[i];
      RepointShape(dvers, name, version, fs, sk, datasets, location, previous);
      forall i | 0 <= i < n ensures Moving(dvers, name, version, fs, sk, i) <==> Moving(dvers, name, version, files, skip, i) {
      }
    }
  }

  /** The files of `RepointSpec`. */
  lemma {:induction false} RepointFiles(dvers: Str -> Result<int, PyError>, name: Str, version: int, files: seq<File>, skip: seq<bool>,
                                       datasets: map<int, Dataset>, location: File -> Option<Str>,
                                       previous: map<Str, Location>)
    requires |skip| == |files|
    requires forall i :: 0 <= i < |files| && !skip[i] && dvers(files[i].absPath).Success?
                         && dvers(files[i].absPath).value != version
                         ==> dvers(files[i].absPath).value in datasets
    ensures var r := Repoint(dvers, name, version, files, skip, datasets, location, previous);
            r.Success? ==>
              && |r.value.files| == |files|
              && (forall i :: Moving(dvers, name, version, files, skip, i) ==>
                    r.value.files[i] == files[i].(datasetName := datasets[dvers(files[i].absPath).value].name))
              && (forall i :: 0 <= i < |files| && !Moving(dvers, name, version, files, skip, i) ==>
                    r.value.files[i] == files[i])
    decreases |files|
  {
    if |files| > 0 {
      var n := |files| - 1;
      var fs, sk := files[..n], skip[..n];
      assert forall i :: 0 <= i < n ==> fs[i] == files[i] && sk[i] == skip[i];
      RepointFiles(dvers, name, version, fs, sk, datasets, location, previous);
      RepointShape(dvers, name, version, files, skip, datasets, location, previous);
      forall i | 0 <= i < n ensures Moving(dvers, name, version, fs, sk, i) <==> Moving(dvers, name, version, files, skip, i) {
      }
    }
  }

  /** A checksum is recorded afterwards exactly when it was before or a
      moving file with a location carries it. */
  lemma {:induction false} RepointPrevious(dvers: Str -> Result<int, PyError>, name: Str, version: int, files: seq<File>, skip: seq<bool>,
                                           datasets: map<int, Dataset>, location: File -> Option<Str>,
                                           previous: map<Str, Location>)
    requires |skip| == |files|
    ensures var r := Repoint(dvers, name, version, files, skip, datasets, location, previous);
            r.Success? ==> forall c :: c in r.value.previous <==>
              c in previous || exists i :: Moving(dvers, name, version, files, skip, i) && location(files[i]).Some? && files[i].checksum == c
    decreases |files|
  {
    if |files| > 0 {
      var n := |files| - 1;
      var fs, sk := files[..n], skip[..n];
      assert forall i :: 0 <= i < n ==> fs[i] == files[i] && sk[i] == skip[i];
      RepointPrevious(dvers, name, version, fs, sk, datasets, location, previous);
      forall i | 0 <= i < n ensures Moving(dvers, name, version, fs, sk, i) <==> Moving(dvers, name, version, files, skip, i) {
      }
    }
  }

  // ---------------------------------------------------------------------
  // push_files_aside
  // ---------------------------------------------------------------------

  /** What the function leaves behind: the files, the datasets added per
      older version, and `previous_files`. */
  datatype Outcome = Outcome(files: seq<File>, added: map<int, Dataset>, previous: map<Str, Location>)

  /** The two loops, each with its own flags for the files it passes over. */
  function PushAside(dvers: Str -> Result<int, PyError>, rd: Replica, skip1: seq<bool>, skip2: seq<bool>, location: File -> Option<Str>,
                     previous: map<Str, Location>): (r: Result<Outcome, PyError>)
    requires |skip1| == |rd.files| && |skip2| == |rd.files|
  {
    var groups :- Tally(dvers, rd.files, skip1, rd.version);
    var added := ObsoleteDatasets(rd, groups);
    var m :- Repoint(dvers, rd.name, rd.version, rd.files, skip2, added, location, previous);
    Success(Outcome(m.files, added, m.previous))
  }

  /** The files that name another dataset. */
  function Foreign(rd: Replica): (r: seq<bool>)
    ensures |r| == |rd.files| && forall i :: 0 <= i < |rd.files| ==> (r[i] <==> rd.files[i].datasetName != rd.name)
  {
    seq(|rd.files|, i requires 0 <= i < |rd.files| => rd.files[i].datasetName != rd.name)
  }

  /** The files the first loop as written passes over: a file naming
      another dataset only while the print budget lasts, the first nine
      files. */
  function SkippedAsWritten(rd: Replica): (r: seq<bool>)
    ensures |r| == |rd.files| && forall i :: 0 <= i < |rd.files| ==> (r[i] <==> i < 9 && rd.files[i].datasetName != rd.name)
  {
    seq(|rd.files|, i requires 0 <= i < |rd.files| => i < 9 && rd.files[i].datasetName != rd.name)
  }

  /** `push_files_aside` as written: the first loop passes over the first
      nine foreign files only, the second loop over none. */
  function PushFilesAsideAsWritten(rd: Replica, location: File -> Option<Str>, previous: map<Str, Location>)
    : Result<Outcome, PyError>
  {
    PushAside(DversFromAbspath, rd, SkippedAsWritten(rd), seq(|rd.files|, i => false), location, previous)
  }

  /** `push_files_aside` with files naming another dataset passed over in
      both loops, whatever their position. */
  function PushFilesAside(rd: Replica, location: File -> Option<Str>, previous: map<Str, Location>)
    : Result<Outcome, PyError>
  {
    PushAside(DversFromAbspath, rd, Foreign(rd), Foreign(rd), location, previous)
  }

  /** The file belongs to the dataset and has an older version `v`. */
  predicate OwnAt(dvers: Str -> Result<int, PyError>, rd: Replica, i: int, v: int) {
    0 <= i < |rd.files| && rd.files[i].datasetName == rd.name && v != rd.version
    && dvers(rd.files[i].absPath) == Success(v)
  }

  /** With files naming another dataset passed over, and versions read
      by any `dvers`, pushing aside fails exactly when a file of the
      dataset has no readable version. Otherwise there is one OBSOLETE dataset
      `old_<v>_<name>` per older version `v` of the dataset's files,
      holding their count and total size, and those files, and only
      those, are re-pointed to it. */
  lemma PushAsideSpec(dvers: Str -> Result<int, PyError>, rd: Replica, location: File -> Option<Str>, previous: map<Str, Location>)
    ensures var r := PushAside(dvers, rd, Foreign(rd), Foreign(rd), location, previous);
            && (r.Failure? <==> exists i :: 0 <= i < |rd.files| && rd.files[i].datasetName == rd.name
                                          && dvers(rd.files[i].absPath).Failure?)
            && (r.Success? ==> forall v :: v in r.value.added <==> exists i :: OwnAt(dvers, rd, i, v))
            && (r.Success? ==> forall v :: v in r.value.added ==>
                  r.value.added[v] == Dataset(P2pManager.BaseObsoleteName(v, rd.name), v, RM.OBSOLETE, rd.gateway, rd.parent,
                                              SizeOf(dvers, rd.files, Foreign(rd), v), CountOf(dvers, rd.files, Foreign(rd), v), rd.catalog))
            && (r.Success? ==> |r.value.files| == |rd.files|)
            && (r.Success? ==> forall i, v :: OwnAt(dvers, rd, i, v) ==> r.value.files[i] == rd.files[i].(datasetName := r.value.added[v].name))
            && (r.Success? ==> forall i :: 0 <= i < |rd.files| && (forall v :: !OwnAt(dvers, rd, i, v)) ==> r.value.files[i] == rd.files[i])
  {
    var skip := Foreign(rd);
    TallySpec(dvers, rd.files, skip, rd.version);
    forall i, v ensures CountedAt(dvers, rd.files, skip, i, v) && v != rd.version <==> OwnAt(dvers, rd, i, v) {
    }
    var t := Tally(dvers, rd.files, skip, rd.version);
    if t.Success? {
      var added := ObsoleteDatasets(rd, t.value);
      forall i | 0 <= i < |rd.files| && !skip[i] && dvers(rd.files[i].absPath).Success?
                 && dvers(rd.files[i].absPath).value != rd.version
        ensures dvers(rd.files[i].absPath).value in added
      {
        assert CountedAt(dvers, rd.files, skip, i, dvers(rd.files[i].absPath).value);
      }
      RepointSpec(dvers, rd.name, rd.version, rd.files, skip, added, location, previous);
      forall i | 0 <= i < |rd.files| && Moving(dvers, rd.name, rd.version, rd.files, skip, i)
        ensures OwnAt(dvers, rd, i, dvers(rd.files[i].absPath).value)
      {
      }
    }
  }

  /** Each added dataset's file count is the number of files re-pointed
      to it. */
  lemma PushFilesAsideCounts(rd: Replica, location: File -> Option<Str>, previous: map<Str, Location>, v: int)
    requires PushFilesAside(rd, location, previous).Success?
    requires v in PushFilesAside(rd, location, previous).value.added
    ensures var o := PushFilesAside(rd, location, previous).value;
            o.added[v].filecount == |set i | 0 <= i < |rd.files| && OwnAt(DversFromAbspath, rd, i, v)|
  {
    PushAsideSpec(DversFromAbspath, rd, location, previous);
    CountIsCardinality(DversFromAbspath, rd.files, Foreign(rd), v);
    assert CountedSet(DversFromAbspath, rd.files, Foreign(rd), v) == set i | 0 <= i < |rd.files| && OwnAt(DversFromAbspath, rd, i, v);
  }

  // ---------------------------------------------------------------------
  // The files the loops as written pass over
  // ---------------------------------------------------------------------

  /** As written, a file naming another dataset that comes tenth is
      counted into an OBSOLETE dataset it is never moved to, so that
      dataset's count names a file it does not hold; passing over foreign
      files wherever they come adds no dataset and moves nothing. */
  lemma LateForeignCounted(dvers: Str -> Result<int, PyError>, rd: Replica, location: File -> Option<Str>,
                           previous: map<Str, Location>, w: int)
    requires |rd.files| == 10
    requires forall i :: 0 <= i < 9 ==> rd.files[i].datasetName == rd.name
                                        && dvers(rd.files[i].absPath) == Success(rd.version)
    requires rd.files[9].datasetName != rd.name && dvers(rd.files[9].absPath) == Success(w)
    requires w != rd.version
    ensures var a := PushAside(dvers, rd, SkippedAsWritten(rd), seq(|rd.files|, i => false), location, previous);
            && a.Success? && w in a.value.added && a.value.added[w].filecount == 1
            && a.value.files == rd.files
    ensures var c := PushAside(dvers, rd, Foreign(rd), Foreign(rd), location, previous);
            c.Success? && c.value.added == map[] && c.value.files == rd.files
  {
    LateForeignTallied(dvers, rd, location, previous, w);
    LateForeignPassedOver(dvers, rd, location, previous, w);
  }

  /** The as-written half of `LateForeignCounted`. */
  lemma LateForeignTallied(dvers: Str -> Result<int, PyError>, rd: Replica, location: File -> Option<Str>,
                           previous: map<Str, Location>, w: int)
    requires |rd.files| == 10
    requires forall i :: 0 <= i < 9 ==> rd.files[i].datasetName == rd.name
                                        && dvers(rd.files[i].absPath) == Success(rd.version)
    requires rd.files[9].datasetName != rd.name && dvers(rd.files[9].absPath) == Success(w)
    requires w != rd.version
    ensures var a := PushAside(dvers, rd, SkippedAsWritten(rd), seq(|rd.files|, i => false), location, previous);
            && a.Success? && w in a.value.added && a.value.added[w].filecount == 1
            && a.value.files == rd.files
  {
    var skip1, skip2 := SkippedAsWritten(rd), seq(|rd.files|, i => false);
    TallySpec(dvers, rd.files, skip1, rd.version);
    var t := Tally(dvers, rd.files, skip1, rd.version);
    assert CountedAt(dvers, rd.files, skip1, 9, w);
    assert forall v :: v in t.value ==> v == w;
    CountIsCardinality(dvers, rd.files, skip1, w);
    assert CountedSet(dvers, rd.files, skip1, w) == {9};
    var added := ObsoleteDatasets(rd, t.value);
    RepointSpec(dvers, rd.name, rd.version, rd.files, skip2, added, location, previous);
    var m := Repoint(dvers, rd.name, rd.version, rd.files, skip2, added, location, previous);
    assert forall i :: 0 <= i < 10 ==> !Moving(dvers, rd.name, rd.version, rd.files, skip2, i);
    assert m.value.files == rd.files;
  }

  /** The corrected half of `LateForeignCounted`. */
  lemma LateForeignPassedOver(dvers: Str -> Result<int, PyError>, rd: Replica, location: File -> Option<Str>,
                           previous: map<Str, Location>, w: int)
    requires |rd.files| == 10
    requires forall i :: 0 <= i < 9 ==> rd.files[i].datasetName == rd.name
                                        && dvers(rd.files[i].absPath) == Success(rd.version)
    requires rd.files[9].datasetName != rd.name && dvers(rd.files[9].absPath) == Success(w)
    requires w != rd.version
    ensures var c := PushAside(dvers, rd, Foreign(rd), Foreign(rd), location, previous);
            c.Success? && c.value.added == map[] && c.value.files == rd.files
  {
    PushAsideSpec(dvers, rd, location, previous);
    var c := PushAside(dvers, rd, Foreign(rd), Foreign(rd), location, previous);
    assert forall i, v :: !OwnAt(dvers, rd, i, v);
    assert c.value.added == map[];
    assert c.value.files == rd.files;
  }

  /** As written, a lone file naming another dataset and an older version
      makes the second loop look up a dataset the first never made, a
      `KeyError`; passing it over in both loops leaves everything as it
      was. */
  lemma ForeignOnlyKeyError(dvers: Str -> Result<int, PyError>, rd: Replica, location: File -> Option<Str>,
                            previous: map<Str, Location>, w: int)
    requires |rd.files| == 1
    requires rd.files[0].datasetName != rd.name && dvers(rd.files[0].absPath) == Success(w)
    requires w != rd.version
    ensures PushAside(dvers, rd, SkippedAsWritten(rd), seq(|rd.files|, i => false), location, previous) == Failure(KeyError)
    ensures PushAside(dvers, rd, Foreign(rd), Foreign(rd), location, previous) == Success(Outcome(rd.files, map[], previous))
  {
    var skip1, skip2, foreign := SkippedAsWritten(rd), seq(|rd.files|, i => false), Foreign(rd);
    assert rd.files[..0] == [] && skip1[..0] == [] && skip2[..0] == [] && foreign[..0] == [];
    assert skip1[0] && !skip2[0] && foreign[0];
    assert Tally(dvers, rd.files[..0], skip1[..0], rd.version) == Success(map[]);
    assert Tally(dvers, rd.files, skip1, rd.version) == Success(map[]);
    var none := ObsoleteDatasets(rd, map[]);
    assert none == map[];
    assert Repoint(dvers, rd.name, rd.version, rd.files[..0], skip2[..0], none, location, previous) == Success(Moved([], previous));
    assert Tally(dvers, rd.files, foreign, rd.version) == Success(map[]);
    assert Repoint(dvers, rd.name, rd.version, rd.files[..0], foreign[..0], none, location, previous) == Success(Moved([], previous));
    assert [] + [rd.files[0]] == rd.files;
  }

  /** The tenth-file case for `push_files_aside` itself. */
  lemma LateForeignCountedAsWritten(rd: Replica, location: File -> Option<Str>, previous: map<Str, Location>, w: int)
    requires |rd.files| == 10
    requires forall i :: 0 <= i < 9 ==> rd.files[i].datasetName == rd.name
                                        && DversFromAbspath(rd.files[i].absPath) == Success(rd.version)
    requires rd.files[9].datasetName != rd.name && DversFromAbspath(rd.files[9].absPath) == Success(w)
    requires w != rd.version
    ensures var a := PushFilesAsideAsWritten(rd, location, previous);
            && a.Success? && w in a.value.added && a.value.added[w].filecount == 1
            && a.value.files == rd.files
    ensures var c := PushFilesAside(rd, location, previous);
            c.Success? && c.value.added == map[] && c.value.files == rd.files
  {
    LateForeignCounted(DversFromAbspath, rd, location, previous, w);
  }

  /** The lone-foreign-file case for `push_files_aside` itself. */
  lemma ForeignOnlyKeyErrorAsWritten(rd: Replica, location: File -> Option<Str>, previous: map<Str, Location>, w: int)
    requires |rd.files| == 1
    requires rd.files[0].datasetName != rd.name && DversFromAbspath(rd.files[0].absPath) == Success(w)
    requires w != rd.version
    ensures PushFilesAsideAsWritten(rd, location, previous) == Failure(KeyError)
    ensures PushFilesAside(rd, location, previous) == Success(Outcome(rd.files, map[], previous))
  {
    ForeignOnlyKeyError(DversFromAbspath, rd, location, previous, w);
  }
}
