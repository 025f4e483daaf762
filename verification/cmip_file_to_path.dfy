/** Turning the bare file names of a partly built download list into DRS
    paths below the scratch tree: a CMIP5 file name
    `<variable>_<table>_<model>_<experiment>_<ensemble>_<dates>` names its
    frequency and realm through its table, and each tab-separated line of
    the list has its second field replaced by the path. Reading and
    writing the list files are left out; the lines are the input and the
    output. */
module CmipFileToPath {
  import opened Wrappers
  import opened PyStr

  /** `table2realm`: the realm of the six known tables. */
  function TableRealm(table: Str): Option<Str> {
    if table == "Amon" then Some("atmos")
    else if table == "Lmon" then Some("land")
    else if table == "Omon" then Some("ocean")
    else if table == "OImon" then Some("seaIce")
    else if table == "LImon" then Some("landIce")
    else if table == "aero" then Some("aerosol")
    else None
  }

  /** `table2freq`: every known table is monthly, and the tables with a
      frequency are exactly those with a realm. */
  function TableFreq(table: Str): (r: Option<Str>)
    ensures r.Some? <==> TableRealm(table).Some?
    ensures r.Some? ==> r.value == "mon"
  {
    if table in ["Amon", "Lmon", "Omon", "OImon", "LImon", "aero"] then Some("mon") else None
  }

  const Scratch: Str := "/cmip5/scratch/cmip5/"
  const DefaultInstitute: Str := "GISS"
  const DefaultVersion: Str := "v20120315"
  const DefaultProduct: Str := "output1"

  /** `file2path`: a name that is not six `_`-separated fields is a
      `ValueError` (the tuple unpacking), an unknown table a `KeyError`. */
  function File2Path(file: Str, institute: Str, version: Str, product: Str): (r: Result<Str, PyError>)
    ensures r.Failure? ==> (r.error == ValueError <==> |Split(file, "_")| != 6)
    ensures r.Failure? ==> (r.error == KeyError <==> |Split(file, "_")| == 6 && TableRealm(Split(file, "_")[1]).None?)
    ensures r.Success? <==> |Split(file, "_")| == 6 && TableRealm(Split(file, "_")[1]).Some?
  {
    var f := Split(file, "_");
    if |f| != 6 then Failure(ValueError)
    else
      var table := f[1];
      match TableFreq(table)
      case None => Failure(KeyError)
      case Some(freq) =>
        var realm := TableRealm(table).value;
        Success(Scratch + Join([product, institute, f[2], f[3], freq, realm, table, f[4], version, f[0]], "/") + "/" + file)
  }

  /** The DRS directories the path runs through, below the scratch tree. */
  function DrsDirs(variable: Str, table: Str, model: Str, experiment: Str, ensemble: Str,
                   institute: Str, version: Str, product: Str): seq<Str>
    requires TableRealm(table).Some?
  {
    [product, institute, model, experiment, "mon", TableRealm(table).value, table, ensemble, version, variable]
  }

  /** A well-formed file name of a known table goes below the scratch
      tree into the directories of its DRS fields, in DRS order, and keeps
      its own name as the last component. */
  lemma File2PathOf(variable: Str, table: Str, model: Str, experiment: Str, ensemble: Str, dates: Str,
                    institute: Str, version: Str, product: Str)
    requires TableRealm(table).Some?
    requires forall x :: x in [variable, table, model, experiment, ensemble, dates] ==> '_' !in x
    ensures var file := Join([variable, table, model, experiment, ensemble, dates], "_");
            File2Path(file, institute, version, product)
              == Success(Scratch + Join(DrsDirs(variable, table, model, experiment, ensemble, institute, version, product), "/") + "/" + file)
  {
    var parts := [variable, table, model, experiment, ensemble, dates];
    forall k | 0 <= k < |parts| ensures '_' !in parts[k] {
      assert parts[k] in parts;
    }
    SplitJoinChar(parts, '_');
  }

  // ---------------------------------------------------------------------
  // fix_dllist_1
  // ---------------------------------------------------------------------

  /** One line of the list: its second tab-separated field, a file name,
      becomes the path `file2path` gives with its default institute,
      version and product; a line with no second field is an
      `IndexError`. */
  function FixLine(line: Str): (r: Result<Str, PyError>)
  {
    var fields := Split(line, "\t");
    if |fields| < 2 then Failure(IndexError)
    else
      var path :- File2Path(fields[1], DefaultInstitute, DefaultVersion, DefaultProduct);
      Success(Join(fields[1 := path], "\t"))
  }

  /** `fix_dllist_1`: the lines in order, stopping at the first that
      cannot be fixed. */
  function FixDllist(lines: seq<Str>): (r: Result<seq<Str>, PyError>)
    ensures r.Success? ==> |r.value| == |lines| && forall i :: 0 <= i < |lines| ==> FixLine(lines[i]) == Success(r.value[i])
    ensures r.Failure? <==> exists i :: 0 <= i < |lines| && FixLine(lines[i]).Failure?
    decreases |lines|
  {
    if |lines| == 0 then Success([])
    else
      var n := |lines| - 1;
      var init :- FixDllist(lines[..n]);
      var last :- FixLine(lines[n]);
      Success(init + [last])
  }

  lemma RealmTabFree(table: Str)
    ensures TableRealm(table).Some? ==> '\t' !in TableRealm(table).value
  {
  }

  lemma ConstantsTabFree()
    ensures '\t' !in DefaultProduct && '\t' !in DefaultInstitute && '\t' !in DefaultVersion && '\t' !in "mon"
  {
  }

  /** The pieces the path is built from carry no tab. */
  lemma PathTabFree(file: Str)
    requires '\t' !in file
    requires File2Path(file, DefaultInstitute, DefaultVersion, DefaultProduct).Success?
    ensures '\t' !in File2Path(file, DefaultInstitute, DefaultVersion, DefaultProduct).value
  {
    var f := Split(file, "_");
    JoinSplit(file, "_");
    JoinFreeParts(f, "_", '\t');
    var table := f[1];
    var realm := TableRealm(table).value;
    RealmTabFree(table);
    ConstantsTabFree();
    var dirs := [DefaultProduct, DefaultInstitute, f[2], f[3], "mon", realm, table, f[4], DefaultVersion, f[0]];
    assert '\t' !in f[0] && '\t' !in f[2] && '\t' !in f[3] && '\t' !in f[4] && '\t' !in table;
    forall k | 0 <= k < |dirs| ensures '\t' !in dirs[k] {
    }
    JoinFree(dirs, "/", '\t');
  }

  /** Fixing a line replaces its second field by the path of the file it
      names, leaves every other field as it was, and fails exactly when
      the line has no second field or that field is no known file name. */
  lemma FixLineFields(line: Str)
    ensures var fields := Split(line, "\t");
            && (FixLine(line).Failure? <==>
                  |fields| < 2 || File2Path(fields[1], DefaultInstitute, DefaultVersion, DefaultProduct).Failure?)
            && (FixLine(line).Success? ==>
                  Split(FixLine(line).value, "\t")
                    == fields[1 := File2Path(fields[1], DefaultInstitute, DefaultVersion, DefaultProduct).value])
  {
    var fields := Split(line, "\t");
    if FixLine(line).Success? {
      var path := File2Path(fields[1], DefaultInstitute, DefaultVersion, DefaultProduct).value;
      SplitPiecesFree(line, '\t');
      PathTabFree(fields[1]);
      var out := fields[1 := path];
      forall k | 0 <= k < |out| ensures '\t' !in out[k] {
      }
      SplitJoinChar(out, '\t');
    }
  }
}
