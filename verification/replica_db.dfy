/** The replica database: a record per expected file (its location in the
    DRS tree, size, checksum and the endpoints it can be fetched from),
    the merge of a newly harvested record into a stored one, the bulk
    insert that separates new records from stored ones, and the map-file
    line a record writes. The database session and the filesystem are
    left out; the stored records and the file's status are inputs. */
module ReplicaDb {
  import opened Wrappers
  import opened PyStr
  import Drs
  import FileDb
  import UtilsDb

  /** An endpoint a file can be fetched from. Its URL is its only
      primary key, so two endpoints compare equal when their URLs do. */
  datatype Endpoint = Endpoint(url: Str, kind: Str, name: Str, protocol: Str, server: Str,
                               port: Option<int>, root: Str, path: Str)

  /** A file record. `mapLine` caches the map-file line once computed;
      the empty text stands for "not yet". */
  datatype ReplicaFile = ReplicaFile(path: Str, name: Str, size: Option<int>, checksumType: Option<Str>,
                                     checksumValue: Option<Str>, endpoints: seq<Endpoint>, mapLine: Str)

  /** The key a record is hashed and compared by: its primary key values
      `path` and `name`, as text, concatenated. */
  function FileKey(f: ReplicaFile): Str {
    UtilsDb.KeyText([UtilsDb.VStr(f.path), UtilsDb.VStr(f.name)])
  }

  // ---------------------------------------------------------------------
  // Merging a harvested record into a stored one
  // ---------------------------------------------------------------------

  /** Whether a list of endpoints holds one with this URL. */
  predicate HasUrl(eps: seq<Endpoint>, u: Str) {
    exists i :: 0 <= i < |eps| && eps[i].url == u
  }

  /** `[ep for ep in incoming if ep not in held]`, in order. */
  function MissingEndpoints(held: seq<Endpoint>, incoming: seq<Endpoint>): (r: seq<Endpoint>)
    ensures forall e :: e in r <==> e in incoming && !HasUrl(held, e.url)
    ensures |r| <= |incoming|
    decreases |incoming|
  {
    if |incoming| == 0 then []
    else
      var rest := MissingEndpoints(held, incoming[1..]);
      assert forall e :: e in incoming <==> e == incoming[0] || e in incoming[1..];
      if HasUrl(held, incoming[0].url) then rest else [incoming[0]] + rest
  }

  /** The outcome of a merge: whether it was accepted, and the stored
      record afterwards. */
  datatype Merge = Merge(ok: bool, file: ReplicaFile)

  /** `__updateFile`. Without `overwrite` a different size, or a stored
      checksum that differs, refuses the merge and changes nothing; a
      missing stored checksum is taken from the harvested record. With
      `overwrite` size and checksum are copied. An accepted merge then
      appends the harvested endpoints whose URLs the stored record lacks. */
  function UpdateFile(held: ReplicaFile, incoming: ReplicaFile, overwrite: bool): (r: Merge)
    ensures !r.ok <==> !overwrite && (held.size != incoming.size ||
                                      (!FileDb.Falsy(held.checksumValue) && held.checksumValue != incoming.checksumValue))
    ensures !r.ok ==> r.file == held
    ensures r.ok ==> r.file.endpoints == held.endpoints + MissingEndpoints(held.endpoints, incoming.endpoints)
    ensures r.file.path == held.path && r.file.name == held.name && r.file.mapLine == held.mapLine
    ensures r.ok ==> r.file.size == incoming.size
    ensures r.ok && (overwrite || FileDb.Falsy(held.checksumValue)) ==>
              r.file.checksumValue == incoming.checksumValue && r.file.checksumType == incoming.checksumType
    ensures r.ok && !overwrite && !FileDb.Falsy(held.checksumValue) ==>
              r.file.checksumValue == held.checksumValue && r.file.checksumType == held.checksumType
  {
    if !overwrite && held.size != incoming.size then Merge(false, held)
    else if !overwrite && !FileDb.Falsy(held.checksumValue) && held.checksumValue != incoming.checksumValue then
      Merge(false, held)
    else
      var f := if overwrite || FileDb.Falsy(held.checksumValue) then
                 held.(size := incoming.size, checksumValue := incoming.checksumValue,
                      checksumType := incoming.checksumType)
               else held;
      Merge(true, f.(endpoints := held.endpoints + MissingEndpoints(held.endpoints, incoming.endpoints)))
  }

  /** An accepted merge loses no endpoint, and afterwards the stored
      record offers every harvested URL. */
  lemma UpdateFileCovers(held: ReplicaFile, incoming: ReplicaFile, overwrite: bool)
    requires UpdateFile(held, incoming, overwrite).ok
    ensures held.endpoints <= UpdateFile(held, incoming, overwrite).file.endpoints
    ensures forall e :: e in incoming.endpoints ==> HasUrl(UpdateFile(held, incoming, overwrite).file.endpoints, e.url)
  {
    var eps := UpdateFile(held, incoming, overwrite).file.endpoints;
    var extra := MissingEndpoints(held.endpoints, incoming.endpoints);
    forall e | e in incoming.endpoints ensures HasUrl(eps, e.url) {
      if HasUrl(held.endpoints, e.url) {
        var i :| 0 <= i < |held.endpoints| && held.endpoints[i].url == e.url;
        assert eps[i] == held.endpoints[i];
      } else {
        assert e in extra;
        var j :| 0 <= j < |extra| && extra[j] == e;
        assert eps[|held.endpoints| + j] == e;
      }
    }
  }

  /** No URL twice in a list of endpoints. */
  predicate DistinctUrls(eps: seq<Endpoint>) {
    forall i, j :: 0 <= i < j < |eps| ==> eps[i].url != eps[j].url
  }

  /** Appending what is missing keeps the URLs distinct, provided the
      harvested list has no URL twice. */
  lemma {:induction false} MissingDistinct(held: seq<Endpoint>, incoming: seq<Endpoint>)
    requires DistinctUrls(held) && DistinctUrls(incoming)
    ensures DistinctUrls(held + MissingEndpoints(held, incoming))
    decreases |incoming|
  {
    if |incoming| > 0 {
      assert DistinctUrls(incoming[1..]) by {
        forall i, j | 0 <= i < j < |incoming[1..]| ensures incoming[1..][i].url != incoming[1..][j].url {
          assert incoming[1..][i] == incoming[i + 1] && incoming[1..][j] == incoming[j + 1];
        }
      }
      MissingDistinct(held, incoming[1..]);
      var rest := MissingEndpoints(held, incoming[1..]);
      if !HasUrl(held, incoming[0].url) {
        var e := incoming[0];
        var s := held + ([e] + rest);
        var t := held + rest;
        forall i, j | 0 <= i < j < |s| ensures s[i].url != s[j].url {
          if j < |held| {
            assert s[i] == t[i] && s[j] == t[j];
          } else if j == |held| {
            assert s[i] == held[i] && s[j] == e;
          } else {
            assert s[j] == rest[j - |held| - 1];
            assert s[j] == t[j - 1];
            if i < |held| {
              assert s[i] == t[i];
            } else if i == |held| {
              assert rest[j - |held| - 1] in incoming[1..];
              var k :| 0 <= k < |incoming[1..]| && incoming[1..][k] == s[j];
              assert incoming[k + 1] == s[j];
            } else {
              assert s[i] == t[i - 1];
            }
          }
        }
      }
    }
  }

  /** Nothing is missing from a list that already offers every URL. */
  lemma {:induction false} NothingMissing(held: seq<Endpoint>, incoming: seq<Endpoint>)
    requires forall e :: e in incoming ==> HasUrl(held, e.url)
    ensures MissingEndpoints(held, incoming) == []
    decreases |incoming|
  {
    if |incoming| > 0 {
      assert incoming[0] in incoming;
      assert forall e :: e in incoming[1..] ==> e in incoming;
      NothingMissing(held, incoming[1..]);
    }
  }

  /** Merging the same harvested record twice is merging it once: the
      second merge is accepted and changes nothing. */
  lemma UpdateFileIdempotent(held: ReplicaFile, incoming: ReplicaFile, overwrite: bool)
    requires UpdateFile(held, incoming, overwrite).ok
    ensures var once := UpdateFile(held, incoming, overwrite).file;
            UpdateFile(once, incoming, overwrite) == Merge(true, once)
  {
    var once := UpdateFile(held, incoming, overwrite).file;
    UpdateFileCovers(held, incoming, overwrite);
    NothingMissing(once.endpoints, incoming.endpoints);
    assert once.endpoints + [] == once.endpoints;
  }

  // ---------------------------------------------------------------------
  // Bulk insert
  // ---------------------------------------------------------------------

  /** The stored records the query returns: those whose name is among
      the inputs' names and whose path is among their paths. */
  function Query(store: seq<ReplicaFile>, files: seq<ReplicaFile>): (r: seq<ReplicaFile>)
    ensures forall x :: x in r <==> (x in store && (exists f :: f in files && f.name == x.name) &&
                                     (exists f :: f in files && f.path == x.path))
    decreases |store|
  {
    if |store| == 0 then []
    else
      var x := store[0];
      var rest := Query(store[1..], files);
      assert forall y :: y in store <==> y == x || y in store[1..];
      if (exists f :: f in files && f.name == x.name) && (exists f :: f in files && f.path == x.path)
      then [x] + rest else rest
  }

  /** The inputs whose key the dictionary holds (or lacks), in order. */
  function Rejected(files: seq<ReplicaFile>, keys: set<Str>): seq<ReplicaFile>
    decreases |files|
  {
    if |files| == 0 then []
    else
      var f := files[|files| - 1];
      Rejected(files[..|files| - 1], keys) + (if FileKey(f) in keys then [f] else [])
  }

  function Inserted(files: seq<ReplicaFile>, keys: set<Str>): seq<ReplicaFile>
    decreases |files|
  {
    if |files| == 0 then []
    else
      var f := files[|files| - 1];
      Inserted(files[..|files| - 1], keys) + (if FileKey(f) !in keys then [f] else [])
  }

  /** The stored records after merging the inputs in order into those of
      the same key; a merge works on the record as earlier merges left it. */
  function Merged(files: seq<ReplicaFile>, db: map<Str, ReplicaFile>, overwrite: bool): (r: map<Str, ReplicaFile>)
    ensures r.Keys == db.Keys
    decreases |files|
  {
    if |files| == 0 then db
    else
      var d := Merged(files[..|files| - 1], db, overwrite);
      var f := files[|files| - 1];
      if FileKey(f) in d then d[FileKey(f) := UpdateFile(d[FileKey(f)], f, overwrite).file] else d
  }

  datatype AddResult = AddResult(ret: seq<ReplicaFile>, inserted: seq<ReplicaFile>, rejected: seq<ReplicaFile>,
                                 stored: map<Str, ReplicaFile>)

  /** `ReplicaDB.add_all` over records already built from the input
      dictionaries. In replace mode every input is merged into the
      session and the inserted list alone is returned. Otherwise the
      stored records the query finds are indexed by key; an input whose
      key is stored is rejected (and, with `update`, merged into the
      stored record), any other is inserted; the result is the inserted
      list followed by the rejected one. `stored` is the indexed stored
      records after the merges. */
  method AddAll(files: seq<ReplicaFile>, store: seq<ReplicaFile>, insertedInit: seq<ReplicaFile>,
                rejectedInit: seq<ReplicaFile>, update: bool, overwrite: bool, replace: bool)
    returns (r: AddResult)
    ensures replace ==> r.ret == insertedInit + files && r.inserted == r.ret && r.rejected == rejectedInit
    ensures !replace ==>
              var db := UtilsDb.IndexBy(Query(store, files), FileKey);
              r.inserted == insertedInit + Inserted(files, db.Keys) &&
              r.rejected == rejectedInit + Rejected(files, db.Keys) &&
              r.ret == r.inserted + r.rejected &&
              r.stored == (if update then Merged(files, db, overwrite) else db)
  {
    if replace {
      r := AddResult(insertedInit + files, insertedInit + files, rejectedInit, map[]);
      return;
    }
    var results := Query(store, files);
    var db := UtilsDb.BuildIndex(results, FileKey);
    ghost var db0 := db;
    var inserted := insertedInit;
    var rejected := rejectedInit;
    var i := 0;
    while i < |files|
      invariant 0 <= i <= |files|
      invariant db.Keys == db0.Keys
      invariant db == (if update then Merged(files[..i], db0, overwrite) else db0)
      invariant inserted == insertedInit + Inserted(files[..i], db0.Keys)
      invariant rejected == rejectedInit + Rejected(files[..i], db0.Keys)
    {
      var f := files[i];
      AddStep(files, i, db0, overwrite);
      if FileKey(f) in db {
        if update {
          db := db[FileKey(f) := UpdateFile(db[FileKey(f)], f, overwrite).file];
        }
        ConcatAssoc(rejectedInit, Rejected(files[..i], db0.Keys), [f]);
        rejected := rejected + [f];
      } else {
        ConcatAssoc(insertedInit, Inserted(files[..i], db0.Keys), [f]);
        inserted := inserted + [f];
      }
      i := i + 1;
    }
    assert files[..i] == files;
    r := AddResult(inserted + rejected, inserted, rejected, db);
  }

  /** One more input extends the inserted or the rejected list by it and
      merges it into the stored record of its key. */
  lemma AddStep(files: seq<ReplicaFile>, i: int, db: map<Str, ReplicaFile>, overwrite: bool)
    requires 0 <= i < |files|
    ensures var f, pre := files[i], files[..i];
            var d := Merged(pre, db, overwrite);
            && Inserted(files[..i + 1], db.Keys) == Inserted(pre, db.Keys) + (if FileKey(f) !in db.Keys then [f] else [])
            && Rejected(files[..i + 1], db.Keys) == Rejected(pre, db.Keys) + (if FileKey(f) in db.Keys then [f] else [])
            && Merged(files[..i + 1], db, overwrite) ==
                 (if FileKey(f) in d then d[FileKey(f) := UpdateFile(d[FileKey(f)], f, overwrite).file] else d)
  {
    assert files[..i + 1][..i] == files[..i];
    assert files[..i + 1][i] == files[i];
  }

  /** Every input is either inserted or rejected, by whether a stored
      record shares its key, and the two lists together hold each input
      once. */
  lemma {:induction false} PartitionIn(files: seq<ReplicaFile>, keys: set<Str>, f: ReplicaFile)
    ensures f in Inserted(files, keys) <==> f in files && FileKey(f) !in keys
    ensures f in Rejected(files, keys) <==> f in files && FileKey(f) in keys
    ensures |Inserted(files, keys)| + |Rejected(files, keys)| == |files|
    decreases |files|
  {
    if |files| > 0 {
      var pre := files[..|files| - 1];
      assert files == pre + [files[|files| - 1]];
      PartitionIn(pre, keys, f);
    }
  }

  /** The inserted records are exactly the inputs no found stored record
      shares a key with. */
  lemma AddAllPartition(files: seq<ReplicaFile>, store: seq<ReplicaFile>, f: ReplicaFile)
    ensures var keys := UtilsDb.IndexBy(Query(store, files), FileKey).Keys;
            (f in Inserted(files, keys) <==> f in files && forall x :: x in Query(store, files) ==> FileKey(x) != FileKey(f)) &&
            (f in Rejected(files, keys) <==> f in files && exists x :: x in Query(store, files) && FileKey(x) == FileKey(f)) &&
            |Inserted(files, keys)| + |Rejected(files, keys)| == |files|
  {
    var results := Query(store, files);
    var keys := UtilsDb.IndexBy(results, FileKey).Keys;
    PartitionIn(files, keys, f);
    UtilsDb.IndexByIn(results, FileKey, FileKey(f));
    if FileKey(f) in keys {
      var i :| 0 <= i < |results| && FileKey(results[i]) == FileKey(f);
      assert results[i] in results;
    } else {
      forall x | x in results ensures FileKey(x) != FileKey(f) {
        var i :| 0 <= i < |results| && results[i] == x;
      }
    }
  }

  /** Merging keeps every stored record at its key and location, and
      only adds endpoints to it. */
  lemma {:induction false} MergedGrows(files: seq<ReplicaFile>, db: map<Str, ReplicaFile>, overwrite: bool, k: Str)
    requires k in db
    ensures var m := Merged(files, db, overwrite);
            m[k].path == db[k].path && m[k].name == db[k].name && db[k].endpoints <= m[k].endpoints
    decreases |files|
  {
    if |files| > 0 {
      var pre := files[..|files| - 1];
      MergedGrows(pre, db, overwrite, k);
      var d := Merged(pre, db, overwrite);
      var f := files[|files| - 1];
      if FileKey(f) in d && FileKey(f) == k {
        if UpdateFile(d[k], f, overwrite).ok {
          UpdateFileCovers(d[k], f, overwrite);
        }
      }
    }
  }

  /** A stored record whose key no input has is left as it was. */
  lemma {:induction false} MergedUntouched(files: seq<ReplicaFile>, db: map<Str, ReplicaFile>, overwrite: bool, k: Str)
    requires k in db && forall f :: f in files ==> FileKey(f) != k
    ensures Merged(files, db, overwrite)[k] == db[k]
    decreases |files|
  {
    if |files| > 0 {
      var pre := files[..|files| - 1];
      assert forall f :: f in pre ==> f in files;
      MergedUntouched(pre, db, overwrite, k);
      assert files[|files| - 1] in files;
    }
  }

  // ---------------------------------------------------------------------
  // The map-file line
  // ---------------------------------------------------------------------

  /** What the filesystem reports about the file: its size and its
      modification time as `str` prints it. */
  datatype Stat = Stat(size: int, mtime: FileDb.FloatText)

  /** The dataset id the record is asked for, as written: the DRS object
      is given the file name and, as `directory`, the path stripped of
      `/`; `directory` is no keyword of the DRS constructor, so it lands
      in the dictionary as an unknown part and the path is never read. */
  function RecordIdAsWritten(f: ReplicaFile): Result<Str, PyError> {
    var o :- Drs.New("", "", f.name, "", "", map[Drs.Other("directory") := StripChar(f.path, '/')]);
    var p :- Drs.GetId(o);
    Success(p.0)
  }

  /** The id as evidently intended: the stripped path read as a DRS
      directory together with the file name. */
  function RecordId(f: ReplicaFile): Result<Str, PyError> {
    var o :- Drs.New("", StripChar(f.path, '/'), f.name, "", "", map[]);
    var p :- Drs.GetId(o);
    Success(p.0)
  }

  /** `'/'.join([root, path, name]).replace('//', '/')` */
  function FullPath(root: Str, f: ReplicaFile): Str {
    Replace(Join([root, f.path, f.name], "/"), "//", "/")
  }

  /** The attributes of a line after id and location: the size and time
      when the file is there, then, when the record has a checksum, the
      checksum and its algorithm in upper case; a checksum without an
      algorithm fails on `None.upper()`. */
  function EntryLine(id: Str, full: Str, stat: Option<Stat>, f: ReplicaFile): (r: Result<Str, PyError>)
    ensures r.Failure? <==> !FileDb.Falsy(f.checksumValue) && f.checksumType.None?
  {
    var head := [id, full] + (if stat.Some? then [IntToStr(stat.value.size), "mod_time=" + stat.value.mtime] else []);
    if FileDb.Falsy(f.checksumValue) then Success(Join(head, "|"))
    else if f.checksumType.None? then Failure(AttributeError)
    else Success(Join(head + ["checksum=" + f.checksumValue.value, "checksum_type=" + Upper(f.checksumType.value)], "|"))
  }

  /** `getMapFileEntry(root)` with the id found by `idOf`: a cached line
      is returned as it is; otherwise the line is built, joined with `|`,
      and cached in the returned record. */
  function MapFileEntryWith(idOf: ReplicaFile -> Result<Str, PyError>, f: ReplicaFile, root: Str,
                            stat: Option<Stat>): (r: Result<(Str, ReplicaFile), PyError>)
    ensures f.mapLine != "" ==> r == Success((f.mapLine, f))
    ensures f.mapLine == "" && r.Success? ==> r.value.1 == f.(mapLine := r.value.0) && idOf(f).Success?
  {
    if f.mapLine != "" then Success((f.mapLine, f))
    else
      var id :- idOf(f);
      var line :- EntryLine(id, FullPath(root, f), stat, f);
      Success((line, f.(mapLine := line)))
  }

  function MapFileEntryAsWritten(f: ReplicaFile, root: Str, stat: Option<Stat>): Result<(Str, ReplicaFile), PyError> {
    MapFileEntryWith(RecordIdAsWritten, f, root, stat)
  }

  function MapFileEntry(f: ReplicaFile, root: Str, stat: Option<Stat>): Result<(Str, ReplicaFile), PyError> {
    MapFileEntryWith(RecordId, f, root, stat)
  }

  /** As written, no record that has not cached its line can produce one:
      the DRS object never learns activity, product or institute, so the
      id cannot be built. */
  lemma MapFileEntryAsWrittenFails(f: ReplicaFile, root: Str, stat: Option<Stat>)
    requires f.mapLine == ""
    ensures MapFileEntryAsWritten(f, root, stat).Failure?
    ensures RecordIdAsWritten(f).Failure?
  {
    var extra := map[Drs.Other("directory") := StripChar(f.path, '/')];
    var o := Drs.New("", "", f.name, "", "", extra);
    if o.Success? {
      NoActivity(f.name, extra);
      var t := Drs.Template(Drs.IdKind);
      assert t[0] == Drs.Req(Drs.Activity);
      assert Drs.GetParts(o.value.facets, t).Failure?;
    }
  }

  /** An object built from a file name alone holds no activity. */
  lemma NoActivity(name: Str, extra: Drs.Facets)
    requires Drs.Facet(Drs.Activity) !in extra
    requires Drs.New("", "", name, "", "", extra).Success?
    ensures Drs.Facet(Drs.Activity) !in Drs.New("", "", name, "", "", extra).value.facets
  {
    if name != "" {
      FilenameNoActivity(Drs.SplitSuffix(name).0);
    }
  }

  /** A file name's stem never fills the activity. */
  lemma FilenameNoActivity(stem: Str)
    ensures var e := Drs.Extract(Drs.FilenameKind, stem);
            e.Success? ==> Drs.Facet(Drs.Activity) !in e.value
  {
    var e := Drs.Extract(Drs.FilenameKind, stem);
    if e.Success? {
      var t := Drs.Template(Drs.FilenameKind);
      assert forall i :: 0 <= i < |t| ==> t[i].part != Drs.Activity;
    }
  }

  /** A second call returns the cached line whatever the root or the
      file's state. */
  lemma MapFileEntryCached(f: ReplicaFile, root: Str, stat: Option<Stat>, root2: Str, stat2: Option<Stat>)
    requires MapFileEntry(f, root, stat).Success?
    ensures var (line, g) := MapFileEntry(f, root, stat).value;
            MapFileEntry(g, root2, stat2) == Success((line, g))
  {
    var (line, g) := MapFileEntry(f, root, stat).value;
    if f.mapLine == "" {
      assert line != "" by {
        var id := RecordId(f).value;
        var head := [id, FullPath(root, f)] + (if stat.Some? then [IntToStr(stat.value.size), "mod_time=" + stat.value.mtime] else []);
        NonEmptyJoin(head, "|");
        if !FileDb.Falsy(f.checksumValue) {
          NonEmptyJoin(head + ["checksum=" + f.checksumValue.value, "checksum_type=" + Upper(f.checksumType.value)], "|");
        }
      }
    }
  }

  /** Joining two or more texts with a non-empty separator gives a
      non-empty text. */
  lemma NonEmptyJoin(xs: seq<Str>, sep: Str)
    requires |xs| >= 2 && |sep| > 0
    ensures |Join(xs, sep)| > 0
  {
  }

  /** The id of a record under the intended reading: a record stored at a
      well-formed DRS directory whose file name repeats the directory's
      variable, table, model, experiment and ensemble has the id made of
      the directory's first nine components. */
  lemma RecordIdOfPath(xs: seq<Str>, fs: seq<Str>, suffix: Str, f: ReplicaFile)
    requires Drs.WellFormedPath(xs) && Drs.WellFormedName(fs, suffix)
    requires fs[..5] == [xs[10], xs[7], xs[3], xs[4], xs[8]]
    requires f.path == Join(xs, "/") && f.name == Join(fs, "_") + suffix
    ensures RecordId(f) == Success(Join(xs[..9], "."))
  {
    PathStripped(xs);
    assert StripChar(f.path, '/') == Join(xs, "/");
    var f4 := PathAndNameObject(xs, fs, suffix);
    IdPartsAgree(xs, fs, f4);
    var o := Drs.Drs(f4, "", "", "", "", suffix);
    assert Drs.New("", StripChar(f.path, '/'), f.name, "", "", map[]) == Success(o);
    var id := Join(xs[..9], ".");
    IdOfParts(f4, xs[..9]);
    assert Drs.GetId(o) == Success((id, o.(id := id)));
  }

  /** A dictionary holding the nine id parts builds the id from them. */
  lemma IdOfParts(f: Drs.Facets, ys: seq<Str>)
    requires |ys| == 9
    requires forall i :: 0 <= i < 9 ==> (Drs.Facet(Drs.Template(Drs.IdKind)[i].part) in f &&
                                        f[Drs.Facet(Drs.Template(Drs.IdKind)[i].part)] == ys[i])
    ensures Drs.Get(f, Drs.IdKind) == Success(Join(ys, "."))
  {
    var t := Drs.Template(Drs.IdKind);
    assert Drs.AllRequired(t);
    Drs.GetPartsOfValues(f, t, ys);
  }

  /** The object made from a well-formed directory and file name holds
      the directory's components overridden by the name's. */
  lemma PathAndNameObject(xs: seq<Str>, fs: seq<Str>, suffix: Str) returns (f4: Drs.Facets)
    requires Drs.WellFormedPath(xs) && Drs.WellFormedName(fs, suffix)
    ensures f4 == Drs.Assign(Drs.Template(Drs.PathKind), xs) + Drs.Assign(Drs.Template(Drs.FilenameKind), fs)
    ensures Drs.New("", Join(xs, "/"), Join(fs, "_") + suffix, "", "", map[]) ==
            Success(Drs.Drs(Drs.Workarounds(f4), "", "", "", "", suffix))
  {
    var p := Join(xs, "/");
    var stem := Join(fs, "_");
    PathPartObject(xs);
    var f2 := Drs.Assign(Drs.Template(Drs.PathKind), xs);
    NamePartObject(fs, suffix, f2);
    f4 := f2 + Drs.Assign(Drs.Template(Drs.FilenameKind), fs);
    assert Drs.New("", p, stem + suffix, "", "", map[]) == Success(Drs.Drs(Drs.Workarounds(f4), "", "", "", "", suffix));
  }

  /** A well-formed directory is read whole into an empty dictionary. */
  lemma PathPartObject(xs: seq<Str>)
    requires Drs.WellFormedPath(xs)
    ensures Drs.TrimSlash(Join(xs, "/")) == Join(xs, "/")
    ensures Drs.Update(map[], Drs.PathKind, Join(xs, "/")) == Success(Drs.Assign(Drs.Template(Drs.PathKind), xs))
  {
    var p := Join(xs, "/");
    Drs.JoinLast(xs, "/");
    assert Drs.TrimSlash(p) == p;
    Drs.ExtractJoined(Drs.PathKind, xs);
    var f2 := map[] + Drs.Assign(Drs.Template(Drs.PathKind), xs);
    assert f2 == Drs.Assign(Drs.Template(Drs.PathKind), xs);
  }

  /** A well-formed file name splits into its stem and suffix, and the
      stem is read whole on top of the dictionary. */
  lemma NamePartObject(fs: seq<Str>, suffix: Str, f: Drs.Facets)
    requires Drs.WellFormedName(fs, suffix)
    ensures var stem := Join(fs, "_");
            && stem != ""
            && Drs.SplitSuffix(stem + suffix) == (stem, suffix)
            && Drs.Update(f, Drs.FilenameKind, stem) == Success(f + Drs.Assign(Drs.Template(Drs.FilenameKind), fs))
  {
    var stem := Join(fs, "_");
    assert |stem| > 0 by { assert stem == fs[0] + "_" + Join(fs[1..], "_"); }
    Drs.NoCharInJoin(fs, "_", '.');
    Drs.SuffixOfName(stem, suffix);
    assert Drs.Sep(Drs.FilenameKind) == "_";
    SplitJoinChar(fs, '_');
  }

  /** In that object the id's parts are the directory's first nine
      components, the name agreeing with the directory where they share
      parts; the workarounds change nothing. */
  lemma IdPartsAgree(xs: seq<Str>, fs: seq<Str>, f4: Drs.Facets)
    requires |xs| == 11 && xs[0] == "cmip5" && StartsWith(xs[9], "v") && (|fs| == 5 || |fs| == 6)
    requires fs[..5] == [xs[10], xs[7], xs[3], xs[4], xs[8]]
    requires f4 == Drs.Assign(Drs.Template(Drs.PathKind), xs) + Drs.Assign(Drs.Template(Drs.FilenameKind), fs)
    ensures Drs.Workarounds(f4) == f4
    ensures forall i :: 0 <= i < 9 ==> (Drs.Facet(Drs.Template(Drs.IdKind)[i].part) in f4 &&
                                       f4[Drs.Facet(Drs.Template(Drs.IdKind)[i].part)] == xs[..9][i])
  {
    var pt := Drs.Template(Drs.PathKind);
    forall i | 0 <= i < 11 ensures Drs.Facet(pt[i].part) in f4 && f4[Drs.Facet(pt[i].part)] == xs[i] {
      PartAgrees(xs, fs, f4, i);
    }
    assert pt[0].part == Drs.Activity && pt[9].part == Drs.Version;
    Drs.WorkaroundsNoop(f4);
    Drs.IdIsPathPrefix();
    forall i | 0 <= i < 9 ensures Drs.Template(Drs.IdKind)[i] == pt[i] { }
  }

  /** One part of that object: the directory's component, which the name
      repeats where it has the part. */
  lemma PartAgrees(xs: seq<Str>, fs: seq<Str>, f4: Drs.Facets, i: nat)
    requires |xs| == 11 && (|fs| == 5 || |fs| == 6) && i < 11
    requires fs[..5] == [xs[10], xs[7], xs[3], xs[4], xs[8]]
    requires f4 == Drs.Assign(Drs.Template(Drs.PathKind), xs) + Drs.Assign(Drs.Template(Drs.FilenameKind), fs)
    ensures Drs.Facet(Drs.Template(Drs.PathKind)[i].part) in f4
    ensures f4[Drs.Facet(Drs.Template(Drs.PathKind)[i].part)] == xs[i]
  {
    var pt, nt := Drs.Template(Drs.PathKind), Drs.Template(Drs.FilenameKind);
    var f2, g := Drs.Assign(pt, xs), Drs.Assign(nt, fs);
    var k := Drs.Facet(pt[i].part);
    assert k in f2 && f2[k] == xs[i] by {
      Drs.TemplatesDistinct(Drs.PathKind);
      Drs.AssignLookup(pt, xs, i);
    }
    var j := NamePosition(i);
    if j >= 0 {
      assert k in g && g[k] == fs[j] by {
        Drs.TemplatesDistinct(Drs.FilenameKind);
        Drs.AssignLookup(nt, fs, j);
      }
      assert fs[j] == fs[..5][j] == xs[i];
      assert f4[k] == g[k];
    } else {
      NotNamePart(fs, pt[i].part);
      assert f4[k] == f2[k];
    }
  }

  /** Where the file name template holds the i-th directory part, or -1. */
  function NamePosition(i: nat): (j: int)
    requires i < 11
    ensures j < 5
    ensures j >= 0 ==> Drs.Template(Drs.FilenameKind)[j].part == Drs.Template(Drs.PathKind)[i].part
    ensures j >= 0 ==> [10, 7, 3, 4, 8][j] == i
    ensures j < 0 ==> Drs.Template(Drs.PathKind)[i].part in {Drs.Activity, Drs.Product, Drs.Institute, Drs.Frequency, Drs.Realm, Drs.Version}
  {
    if i == 10 then 0 else if i == 7 then 1 else if i == 3 then 2 else if i == 4 then 3 else if i == 8 then 4 else -1
  }

  /** The file name never sets a part outside its template. */
  lemma NotNamePart(fs: seq<Str>, p: Drs.Part)
    requires |fs| <= 6
    requires p in {Drs.Activity, Drs.Product, Drs.Institute, Drs.Frequency, Drs.Realm, Drs.Version}
    ensures Drs.Facet(p) !in Drs.Assign(Drs.Template(Drs.FilenameKind), fs)
  {
    var nt := Drs.Template(Drs.FilenameKind);
    assert forall j :: 0 <= j < |nt| ==> nt[j].part != p;
  }

  /** A well-formed DRS directory has no `/` to strip at either end. */
  lemma PathStripped(xs: seq<Str>)
    requires Drs.WellFormedPath(xs)
    ensures StripChar(Join(xs, "/"), '/') == Join(xs, "/")
  {
    var p := Join(xs, "/");
    Drs.JoinLast(xs, "/");
    assert p == xs[0] + "/" + Join(xs[1..], "/");
    assert p[0] == 'c';
    assert LStripChar(p, '/') == p;
  }

  /** A line written for a file that is there reads back through the
      map-file reader as the record of its full location, size, time and
      checksum, the algorithm in lower case; a record without a checksum
      reads back without an algorithm. The id must hold no `|`, the
      location and texts must survive the format. */
  lemma EntryLineReads(id: Str, full: Str, st: Stat, f: ReplicaFile, classRoot: Str)
    requires '|' !in id && FileDb.FieldSafe(full)
    requires FileDb.FieldSafe(st.mtime) && '=' !in st.mtime && FileDb.FloatLiteral(st.mtime)
    requires !FileDb.Falsy(f.checksumValue) ==>
               f.checksumType.Some? && FileDb.FieldSafe(f.checksumValue.value) && '=' !in f.checksumValue.value &&
               FileDb.FieldSafe(f.checksumType.value) && '=' !in f.checksumType.value
    ensures var keep := !FileDb.Falsy(f.checksumValue);
            FileDb.ParseMapLine(EntryLine(id, full, Some(st), f).value, 0, classRoot) ==
            Success(FileDb.NewFileDao(classRoot, None, Some(full), None, None, Some(st.size), Some(st.mtime),
                                      if keep then Some(Lower(f.checksumType.value)) else None,
                                      if keep then f.checksumValue else None))
  {
    var sz, mt := IntToStr(st.size), "mod_time=" + st.mtime;
    if FileDb.Falsy(f.checksumValue) {
      assert [id, full] + [sz, mt] == [id, full, sz] + [mt];
      FileDb.ReadBareFour(id, full, st.size, st.mtime, classRoot);
    } else {
      var c, ty := f.checksumValue.value, f.checksumType.value;
      var cs, ct := "checksum=" + c, "checksum_type=" + Upper(ty);
      assert [id, full] + [sz, mt] + [cs, ct] == [id, full, sz] + [mt, cs, ct];
      FileDb.ReadBareSix(id, full, st.size, st.mtime, c, ty, classRoot);
    }
  }

  /** A line written while the file is absent carries no size: without a
      checksum it has two fields and the reader fails on the missing
      size; with one, the size field holds the checksum, which is no
      integer. */
  lemma EntryLineAbsentUnreadable(id: Str, full: Str, f: ReplicaFile, classRoot: Str)
    requires '|' !in id && '|' !in full
    requires !FileDb.Falsy(f.checksumValue) ==> f.checksumType.Some? && '|' !in f.checksumValue.value && '|' !in f.checksumType.value
    ensures FileDb.ParseMapLine(EntryLine(id, full, None, f).value, 0, classRoot).Failure?
  {
    if FileDb.Falsy(f.checksumValue) {
      assert [id, full] + [] == [id, full];
      assert EntryLine(id, full, None, f).value == Join([id, full], "|");
      SplitJoinChar([id, full], '|');
    } else {
      var c, ty := f.checksumValue.value, f.checksumType.value;
      var cs, ct := "checksum=" + c, "checksum_type=" + Upper(ty);
      FileDb.UpperKeepsBar(ty);
      var xs := [id, full, cs, ct];
      assert EntryLine(id, full, None, f).value == Join(xs, "|") by {
        assert [id, full] + [] + [cs, ct] == xs;
      }
      SplitJoinChar(xs, '|');
      NotIntText(cs);
    }
  }

  /** A text starting with a letter does not read as an integer. */
  lemma NotIntText(s: Str)
    requires |s| > 0 && s[0] == 'c'
    ensures ParseInt(Strip(s)).None?
  {
    var t := Strip(s);
    assert LStrip(s) == s;
    if |t| > 0 {
      assert t[0] == 'c';
    }
  }
}
