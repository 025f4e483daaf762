/** The base of every table record: loading a record's attributes from a
    dictionary against the table's columns, record identity by primary
    key, and the bulk insert that separates new records from those the
    database already holds. The database session is left out; what it
    holds is given as a list of records. */
module UtilsDb {
  import opened Wrappers
  import opened PyStr

  // ---------------------------------------------------------------------
  // Loading attributes from a dictionary
  // ---------------------------------------------------------------------

  /** A dictionary value: None, a string or an integer. */
  datatype Value = VNone | VStr(s: Str) | VInt(i: int)

  /** The column types the loader distinguishes; every other type is
      copied as is. */
  datatype ColType = StringCol | IntegerCol | OtherCol

  datatype Column = Column(name: Str, ty: ColType)

  /** Python truth of a value. */
  predicate Truthy(v: Value) {
    match v
    case VNone => false
    case VStr(s) => s != ""
    case VInt(i) => i != 0
  }

  /** `int(v)`: a string must hold an integer literal. */
  function ToInt(v: Value): (r: Result<Value, PyError>)
    ensures r.Success? ==> r.value.VInt?
  {
    match v
    case VInt(i) => Success(VInt(i))
    case VStr(s) => if ParseInt(s).Some? then Success(VInt(ParseInt(s).value)) else Failure(ValueError)
    case VNone => Failure(TypeError)
  }

  /** The value a column takes: an Integer column converts a true value
      with `int()`; anything else is copied. */
  function Coerce(ty: ColType, v: Value): (r: Result<Value, PyError>)
    ensures ty != IntegerCol || !Truthy(v) ==> r == Success(v)
    ensures ty == IntegerCol && Truthy(v) ==> r == ToInt(v)
  {
    if ty == IntegerCol && Truthy(v) then ToInt(v) else Success(v)
  }

  /** The `skip` argument of `_setValues`: absent, one name, or a list. */
  datatype Skip = NoSkip | SkipOne(name: Str) | SkipMany(names: seq<Str>)

  function SkipList(skip: Skip): seq<Str> {
    match skip
    case NoSkip => []
    case SkipOne(n) => [n]
    case SkipMany(ns) => ns
  }

  /** Whether a column is loaded: it is in the dictionary, among the
      requested names when some are given, and not skipped. */
  predicate Admitted(c: Column, d: map<Str, Value>, values: seq<Str>, skip: seq<Str>) {
    c.name in d && (|values| == 0 || c.name in values) && c.name !in skip
  }

  /** A column whose conversion fails. */
  predicate Bad(c: Column, d: map<Str, Value>)
    requires c.name in d
  {
    Coerce(c.ty, d[c.name]).Failure?
  }

  function NamesOf(cols: seq<Column>): seq<Str> {
    seq(|cols|, i requires 0 <= i < |cols| => cols[i].name)
  }

  /** The column loop shared by `_setValues` and `DAO.__init__`, in table
      order, onto the attributes `attrs`; the first failing conversion
      raises. */
  function Load(cols: seq<Column>, d: map<Str, Value>, values: seq<Str>, skip: seq<Str>,
                attrs: map<Str, Value>): (r: Result<map<Str, Value>, PyError>)
    ensures r.Failure? <==> exists i :: 0 <= i < |cols| && Admitted(cols[i], d, values, skip) && Bad(cols[i], d)
    ensures r.Success? ==> r.value.Keys == attrs.Keys + set i | 0 <= i < |cols| && Admitted(cols[i], d, values, skip) :: cols[i].name
    ensures r.Success? ==> forall n :: n in attrs && n !in NamesOf(cols) ==> r.value[n] == attrs[n]
    decreases |cols|
  {
    if |cols| == 0 then Success(attrs)
    else
      var c := cols[0];
      var next :- if Admitted(c, d, values, skip) then
                     var v :- Coerce(c.ty, d[c.name]); Success(attrs[c.name := v])
                   else Success(attrs);
      var r := Load(cols[1..], d, values, skip, next);
      assert forall i :: 1 <= i < |cols| ==> cols[i] == cols[1..][i - 1];
      assert forall n :: n in NamesOf(cols[1..]) ==> n in NamesOf(cols) by {
        forall n | n in NamesOf(cols[1..]) ensures n in NamesOf(cols) {
          var i :| 0 <= i < |cols[1..]| && NamesOf(cols[1..])[i] == n;
          assert NamesOf(cols)[i + 1] == n;
        }
      }
      assert c.name == NamesOf(cols)[0];
      AdmittedShift(cols, d, values, skip);
      r
  }

  /** The names of the admitted columns: the first one's, if admitted,
      and those of the rest. */
  lemma AdmittedShift(cols: seq<Column>, d: map<Str, Value>, values: seq<Str>, skip: seq<Str>)
    requires |cols| > 0
    ensures (set i | 0 <= i < |cols| && Admitted(cols[i], d, values, skip) :: cols[i].name)
              == (if Admitted(cols[0], d, values, skip) then {cols[0].name} else {})
                 + set i | 0 <= i < |cols[1..]| && Admitted(cols[1..][i], d, values, skip) :: cols[1..][i].name
  {
    var all := set i | 0 <= i < |cols| && Admitted(cols[i], d, values, skip) :: cols[i].name;
    var rest := set i | 0 <= i < |cols[1..]| && Admitted(cols[1..][i], d, values, skip) :: cols[1..][i].name;
    forall n | n in all
      ensures n in (if Admitted(cols[0], d, values, skip) then {cols[0].name} else {}) + rest
    {
      var i :| 0 <= i < |cols| && Admitted(cols[i], d, values, skip) && cols[i].name == n;
      if i > 0 {
        assert cols[1..][i - 1] == cols[i];
      }
    }
    forall n | n in rest ensures n in all {
      var i :| 0 <= i < |cols[1..]| && Admitted(cols[1..][i], d, values, skip) && cols[1..][i].name == n;
      assert cols[i + 1] == cols[1..][i];
    }
  }

  /** Column names are distinct within a table. */
  predicate DistinctNames(cols: seq<Column>) {
    forall i, j :: 0 <= i < j < |cols| ==> cols[i].name != cols[j].name
  }

  /** A loaded column holds its converted dictionary value. */
  lemma {:induction false} LoadValue(cols: seq<Column>, d: map<Str, Value>, values: seq<Str>, skip: seq<Str>,
                                     attrs: map<Str, Value>, k: nat)
    requires DistinctNames(cols) && k < |cols| && Admitted(cols[k], d, values, skip)
    requires Load(cols, d, values, skip, attrs).Success?
    ensures Coerce(cols[k].ty, d[cols[k].name]).Success?
    ensures Load(cols, d, values, skip, attrs).value[cols[k].name] == Coerce(cols[k].ty, d[cols[k].name]).value
    decreases |cols|
  {
    var c := cols[0];
    var next := if Admitted(c, d, values, skip) then attrs[c.name := Coerce(c.ty, d[c.name]).value] else attrs;
    assert Load(cols, d, values, skip, attrs) == Load(cols[1..], d, values, skip, next);
    if k > 0 {
      assert cols[k] == cols[1..][k - 1];
      LoadValue(cols[1..], d, values, skip, next, k - 1);
    } else {
      assert forall i :: 0 <= i < |cols[1..]| ==> cols[1..][i].name != c.name by {
        forall i | 0 <= i < |cols[1..]| ensures cols[1..][i].name != c.name {
          assert cols[1..][i] == cols[i + 1];
        }
      }
      assert c.name !in NamesOf(cols[1..]);
    }
  }

  /** `_setValues(dict, *values, skip=...)` onto the current attributes. */
  function SetValues(cols: seq<Column>, d: map<Str, Value>, values: seq<Str>, skip: Skip,
                     attrs: map<Str, Value>): Result<map<Str, Value>, PyError> {
    Load(cols, d, values, SkipList(skip), attrs)
  }

  /** `DAO.__init__(dict)`: every column the dictionary names. */
  function DaoInit(cols: seq<Column>, d: map<Str, Value>): Result<map<Str, Value>, PyError> {
    Load(cols, d, [], [], map[])
  }

  /** A freshly loaded record holds exactly the table's columns that the
      dictionary names, each with its dictionary value, an Integer column
      converted when the value is true; it fails exactly when such a
      conversion fails. */
  lemma DaoInitLoads(cols: seq<Column>, d: map<Str, Value>)
    requires DistinctNames(cols)
    ensures var r := DaoInit(cols, d);
            (r.Failure? <==> exists i :: 0 <= i < |cols| && cols[i].name in d && Bad(cols[i], d)) &&
            (r.Success? ==> (forall n :: n in r.value <==> n in d && n in NamesOf(cols)) &&
                            forall i :: 0 <= i < |cols| && cols[i].name in d ==>
                              r.value[cols[i].name] == (if cols[i].ty == IntegerCol && Truthy(d[cols[i].name])
                                                        then ToInt(d[cols[i].name]).value else d[cols[i].name]))
  {
    var r := DaoInit(cols, d);
    if r.Success? {
      forall n ensures n in r.value <==> n in d && n in NamesOf(cols) {
        if n in NamesOf(cols) {
          var i :| 0 <= i < |cols| && NamesOf(cols)[i] == n;
          assert cols[i].name == n;
        }
        if n in r.value {
          var i :| 0 <= i < |cols| && Admitted(cols[i], d, [], []) && cols[i].name == n;
          assert NamesOf(cols)[i] == n;
        }
      }
      forall i | 0 <= i < |cols| && cols[i].name in d
        ensures r.value[cols[i].name] == (if cols[i].ty == IntegerCol && Truthy(d[cols[i].name])
                                          then ToInt(d[cols[i].name]).value else d[cols[i].name])
      {
        LoadValue(cols, d, [], [], map[], i);
      }
    }
  }

  /** `_setValues` touches only the requested, unskipped columns the
      dictionary names: every other attribute keeps its value, and a
      skipped name is never written. */
  lemma SetValuesKeeps(cols: seq<Column>, d: map<Str, Value>, values: seq<Str>, skip: Skip,
                       attrs: map<Str, Value>, n: Str)
    requires SetValues(cols, d, values, skip, attrs).Success?
    requires n in attrs && (n !in d || (|values| > 0 && n !in values) || n in SkipList(skip))
    requires DistinctNames(cols)
    ensures SetValues(cols, d, values, skip, attrs).value[n] == attrs[n]
  {
    SetKeeps(cols, d, values, SkipList(skip), attrs, n);
  }

  lemma {:induction false} SetKeeps(cols: seq<Column>, d: map<Str, Value>, values: seq<Str>, skip: seq<Str>,
                                    attrs: map<Str, Value>, n: Str)
    requires Load(cols, d, values, skip, attrs).Success?
    requires n in attrs && (n !in d || (|values| > 0 && n !in values) || n in skip)
    ensures Load(cols, d, values, skip, attrs).value[n] == attrs[n]
    decreases |cols|
  {
    if |cols| > 0 {
      var c := cols[0];
      var next := if Admitted(c, d, values, skip) then attrs[c.name := Coerce(c.ty, d[c.name]).value] else attrs;
      assert Load(cols, d, values, skip, attrs) == Load(cols[1..], d, values, skip, next);
      SetKeeps(cols[1..], d, values, skip, next, n);
    }
  }

  // ---------------------------------------------------------------------
  // Identity by primary key
  // ---------------------------------------------------------------------

  /** `str(v)` */
  function ValueText(v: Value): Str {
    match v
    case VNone => "None"
    case VStr(s) => s
    case VInt(i) => IntToStr(i)
  }

  /** The text the hash is taken of: the primary key values' `str`
      concatenated with nothing between them. */
  function KeyText(pk: seq<Value>): Str
    decreases |pk|
  {
    if |pk| == 0 then "" else ValueText(pk[0]) + KeyText(pk[1..])
  }

  /** `DAO.__eq__` as written: equal hashes. The model takes the key text
      itself as the hash, so no string hash collision is counted. */
  predicate DaoEqAsWritten(a: seq<Value>, b: seq<Value>) {
    KeyText(a) == KeyText(b)
  }

  /** `DAO.__eq__` as evidently intended: equal primary keys, pairwise. */
  predicate DaoEq(a: seq<Value>, b: seq<Value>) {
    |a| == |b| && forall i :: 0 <= i < |a| ==> a[i] == b[i]
  }

  /** Intended equality is key equality and implies the written one, so
      the written test never separates records the intended one joins. */
  lemma DaoEqRefines(a: seq<Value>, b: seq<Value>)
    ensures DaoEq(a, b) <==> a == b
    ensures DaoEq(a, b) ==> DaoEqAsWritten(a, b)
  {
    if DaoEq(a, b) {
      assert a == b;
    }
  }

  /** As written, two records whose keys differ are equal when the key
      texts concatenate alike: keys (`ab`, `c`) and (`a`, `bc`), and the
      integer 1 and the string `1`. */
  lemma KeyTextCollides()
    ensures DaoEqAsWritten([VStr("ab"), VStr("c")], [VStr("a"), VStr("bc")])
    ensures !DaoEq([VStr("ab"), VStr("c")], [VStr("a"), VStr("bc")])
    ensures DaoEqAsWritten([VInt(1)], [VStr("1")]) && !DaoEq([VInt(1)], [VStr("1")])
  {
    assert KeyText([VStr("ab"), VStr("c")]) == "ab" + ("c" + "");
    assert KeyText([VStr("a"), VStr("bc")]) == "a" + ("bc" + "");
    assert "ab" + ("c" + "") == "abc" == "a" + ("bc" + "");
    assert IntToStr(1) == "1";
    assert KeyText([VInt(1)]) == "1" + "";
  }

  // ---------------------------------------------------------------------
  // Bulk insert
  // ---------------------------------------------------------------------

  /** A record instance: its primary key and a tag telling instances
      apart. */
  datatype Obj = Obj(pk: seq<Value>, tag: nat)

  function Key(o: Obj): Str {
    KeyText(o.pk)
  }

  /** A dictionary filled from a list of records under a key: a later
      record with an equal key replaces the value of an earlier one, as
      `d[x] = x` does for objects hashed and compared by key. */
  function IndexBy<T>(xs: seq<T>, key: T -> Str): map<Str, T>
    decreases |xs|
  {
    if |xs| == 0 then map[]
    else IndexBy(xs[..|xs| - 1], key)[key(xs[|xs| - 1]) := xs[|xs| - 1]]
  }

  /** The dictionary holds exactly the records' keys, each mapped to a
      record with that key. */
  lemma {:induction false} IndexByIn<T>(xs: seq<T>, key: T -> Str, k: Str)
    ensures k in IndexBy(xs, key) <==> exists i :: 0 <= i < |xs| && key(xs[i]) == k
    ensures k in IndexBy(xs, key) ==> key(IndexBy(xs, key)[k]) == k && IndexBy(xs, key)[k] in xs
    decreases |xs|
  {
    if |xs| > 0 {
      var pre := xs[..|xs| - 1];
      IndexByIn(pre, key, k);
      if k in IndexBy(pre, key) {
        var i :| 0 <= i < |pre| && key(pre[i]) == k;
        assert xs[i] == pre[i];
        var x := IndexBy(pre, key)[k];
        var j :| 0 <= j < |pre| && pre[j] == x;
        assert xs[j] == x;
      }
    }
  }

  /** The value the dictionary holds for a key is the last record with
      that key. */
  lemma {:induction false} IndexByLast<T>(xs: seq<T>, key: T -> Str, i: nat)
    requires i < |xs|
    requires forall j :: i < j < |xs| ==> key(xs[j]) != key(xs[i])
    ensures key(xs[i]) in IndexBy(xs, key) && IndexBy(xs, key)[key(xs[i])] == xs[i]
    decreases |xs|
  {
    if i < |xs| - 1 {
      var pre := xs[..|xs| - 1];
      assert pre[i] == xs[i];
      IndexByLast(pre, key, i);
    }
  }

  /** The loop filling such a dictionary. */
  method BuildIndex<T>(xs: seq<T>, key: T -> Str) returns (d: map<Str, T>)
    ensures d == IndexBy(xs, key)
  {
    d := map[];
    var j := 0;
    while j < |xs|
      invariant 0 <= j <= |xs|
      invariant d == IndexBy(xs[..j], key)
    {
      assert xs[..j + 1][..j] == xs[..j];
      d := d[key(xs[j]) := xs[j]];
      j := j + 1;
    }
    assert xs[..j] == xs;
  }

  /** The dictionary `db[db_o] = db_o` over the database records. */
  function Index(db: seq<Obj>): map<Str, Obj> {
    IndexBy(db, Key)
  }

  /** Every key of the dictionary holds a record of that key. */
  predicate Keyed(idx: map<Str, Obj>) {
    forall k :: k in idx ==> Key(idx[k]) == k
  }

  lemma IndexKeyed(db: seq<Obj>)
    ensures Keyed(Index(db))
  {
    forall k | k in Index(db) ensures Key(Index(db)[k]) == k {
      IndexByIn(db, Key, k);
    }
  }

  /** The inputs the database does not hold, in input order. */
  function NewPart(objs: seq<Obj>, idx: map<Str, Obj>): seq<Obj>
    decreases |objs|
  {
    if |objs| == 0 then []
    else
      var o := objs[|objs| - 1];
      NewPart(objs[..|objs| - 1], idx) + (if Key(o) !in idx then [o] else [])
  }

  /** The database records matching the inputs it holds, in input order. */
  function FoundPart(objs: seq<Obj>, idx: map<Str, Obj>): seq<Obj>
    decreases |objs|
  {
    if |objs| == 0 then []
    else
      var o := objs[|objs| - 1];
      FoundPart(objs[..|objs| - 1], idx) + (if Key(o) in idx then [idx[Key(o)]] else [])
  }

  /** The calls `update_function(db[o], o)`, in input order. */
  function UpdateCalls(objs: seq<Obj>, idx: map<Str, Obj>): seq<(Obj, Obj)>
    decreases |objs|
  {
    if |objs| == 0 then []
    else
      var o := objs[|objs| - 1];
      UpdateCalls(objs[..|objs| - 1], idx) + (if Key(o) in idx then [(idx[Key(o)], o)] else [])
  }

  /** Membership in the two lists: an input is new exactly when its key is
      not in the dictionary; an existing entry is the dictionary's record
      for some input's key. */
  lemma {:induction false} PartsIn(objs: seq<Obj>, idx: map<Str, Obj>, x: Obj)
    ensures x in NewPart(objs, idx) <==> x in objs && Key(x) !in idx
    ensures x in FoundPart(objs, idx) <==> exists o :: o in objs && Key(o) in idx && x == idx[Key(o)]
    decreases |objs|
  {
    if |objs| > 0 {
      var pre := objs[..|objs| - 1];
      var o := objs[|objs| - 1];
      assert objs == pre + [o];
      PartsIn(pre, idx, x);
      if x in FoundPart(objs, idx) && x !in FoundPart(pre, idx) {
        assert x == idx[Key(o)] && o in objs;
      }
      forall y | y in pre ensures y in objs { }
    }
  }

  /** Every input is counted once; each update call pairs the existing
      record at the same place with the input of the same key. */
  lemma {:induction false} PartsCount(objs: seq<Obj>, idx: map<Str, Obj>)
    requires Keyed(idx)
    ensures |NewPart(objs, idx)| + |FoundPart(objs, idx)| == |objs|
    ensures |UpdateCalls(objs, idx)| == |FoundPart(objs, idx)|
    ensures forall k :: 0 <= k < |UpdateCalls(objs, idx)| ==>
              UpdateCalls(objs, idx)[k].0 == FoundPart(objs, idx)[k] &&
              Key(UpdateCalls(objs, idx)[k].1) == Key(FoundPart(objs, idx)[k])
    decreases |objs|
  {
    if |objs| > 0 {
      PartsCount(objs[..|objs| - 1], idx);
      var o := objs[|objs| - 1];
      if Key(o) in idx {
        assert Key(idx[Key(o)]) == Key(o);
      }
    }
  }

  datatype AddResult = AddResult(ret: seq<Obj>, created: seq<Obj>, existing: seq<Obj>,
                                 updates: seq<(Obj, Obj)>, added: seq<Obj>)

  /** `DB._add_all`: `newInit` and `existingInit` are the caller's lists
      (empty for None), `hasUpdate` says whether an update function is
      given, `alter` is `alter_session`. Returns `new + existing`, the two
      lists, the update calls made and what is handed to the session. */
  method AddAll(objects: seq<Obj>, dbObjects: seq<Obj>, newInit: seq<Obj>, existingInit: seq<Obj>,
                alter: bool, hasUpdate: bool) returns (r: AddResult)
    ensures var idx := Index(dbObjects);
            r.created == newInit + NewPart(objects, idx) &&
            r.existing == existingInit + FoundPart(objects, idx) &&
            r.ret == r.created + r.existing &&
            r.updates == (if hasUpdate then UpdateCalls(objects, idx) else []) &&
            r.added == (if alter && |r.created| > 0 then r.created else [])
  {
    var db := BuildIndex(dbObjects, Key);
    var created, existing, updates := Split(objects, db, newInit, existingInit, hasUpdate);
    var added := if alter && |created| > 0 then created else [];
    r := AddResult(created + existing, created, existing, updates, added);
  }

  /** The loop sorting the inputs into new and existing. */
  method Split(objects: seq<Obj>, db: map<Str, Obj>, newInit: seq<Obj>, existingInit: seq<Obj>, hasUpdate: bool)
    returns (created: seq<Obj>, existing: seq<Obj>, updates: seq<(Obj, Obj)>)
    ensures created == newInit + NewPart(objects, db)
    ensures existing == existingInit + FoundPart(objects, db)
    ensures updates == (if hasUpdate then UpdateCalls(objects, db) else [])
  {
    created := newInit;
    existing := existingInit;
    updates := [];
    var i := 0;
    while i < |objects|
      invariant 0 <= i <= |objects|
      invariant created == newInit + NewPart(objects[..i], db)
      invariant existing == existingInit + FoundPart(objects[..i], db)
      invariant updates == (if hasUpdate then UpdateCalls(objects[..i], db) else [])
    {
      var o := objects[i];
      SplitStep(objects, i, db);
      if Key(o) in db {
        if hasUpdate {
          updates := updates + [(db[Key(o)], o)];
        }
        ConcatAssoc(existingInit, FoundPart(objects[..i], db), [db[Key(o)]]);
        existing := existing + [db[Key(o)]];
      } else {
        ConcatAssoc(newInit, NewPart(objects[..i], db), [o]);
        AppendNil(existingInit + FoundPart(objects[..i], db));
        created := created + [o];
      }
      i := i + 1;
    }
    assert objects[..i] == objects;
  }

  /** One more input extends each of the three lists by at most one entry. */
  lemma SplitStep(objs: seq<Obj>, i: int, idx: map<Str, Obj>)
    requires 0 <= i < |objs|
    ensures var o := objs[i];
            NewPart(objs[..i + 1], idx) == NewPart(objs[..i], idx) + (if Key(o) !in idx then [o] else [])
    ensures var o := objs[i];
            FoundPart(objs[..i + 1], idx) == FoundPart(objs[..i], idx) + (if Key(o) in idx then [idx[Key(o)]] else [])
    ensures var o := objs[i];
            UpdateCalls(objs[..i + 1], idx) == UpdateCalls(objs[..i], idx) + (if Key(o) in idx then [(idx[Key(o)], o)] else [])
  {
    assert objs[..i + 1][..i] == objs[..i];
  }

  /** Every input lands in exactly one list: the new ones are the inputs
      whose key the database lacks, the existing ones are database
      records (the last one with each key) for the inputs it holds, and
      the update function is called once per existing record. */
  lemma AddAllPartition(objects: seq<Obj>, dbObjects: seq<Obj>)
    ensures var idx := Index(dbObjects);
            |NewPart(objects, idx)| + |FoundPart(objects, idx)| == |objects| &&
            (forall o :: o in NewPart(objects, idx) <==> o in objects && forall x :: x in dbObjects ==> Key(x) != Key(o)) &&
            (forall x :: x in FoundPart(objects, idx) ==> x in dbObjects && exists o :: o in objects && Key(o) == Key(x)) &&
            |UpdateCalls(objects, idx)| == |FoundPart(objects, idx)|
  {
    var idx := Index(dbObjects);
    IndexKeyed(dbObjects);
    PartsCount(objects, idx);
    forall x | x in FoundPart(objects, idx) ensures x in dbObjects && exists o :: o in objects && Key(o) == Key(x) {
      PartsIn(objects, idx, x);
      var o :| o in objects && Key(o) in idx && x == idx[Key(o)];
      IndexByIn(dbObjects, Key, Key(o));
    }
    forall o ensures o in NewPart(objects, idx) <==> o in objects && forall x :: x in dbObjects ==> Key(x) != Key(o) {
      PartsIn(objects, idx, o);
      IndexByIn(dbObjects, Key, Key(o));
      if Key(o) in idx {
        var i :| 0 <= i < |dbObjects| && Key(dbObjects[i]) == Key(o);
        assert dbObjects[i] in dbObjects;
      } else {
        forall x | x in dbObjects ensures Key(x) != Key(o) {
          var i :| 0 <= i < |dbObjects| && dbObjects[i] == x;
        }
      }
    }
  }
}
