/** CMIP5 Data Reference Syntax objects: a dictionary of named parts that
    can be read from, and written back as, a dataset id (`.`-separated), a
    directory path (`/`), a CMOR output path (`/`) and a file name (`_`,
    plus a suffix). Only the CMIP5 generator is modelled. */
module Drs {
  import opened Wrappers
  import opened PyStr

  /** The named parts of a CMIP5 reference. */
  datatype Part =
    | Activity | Product | Institute | Model | Experiment | Frequency
    | Realm | Table | Ensemble | Version | Variable | Temporal

  /** Dictionary keys: a DRS part, or any other name passed in by a caller. */
  datatype Key = Facet(part: Part) | Other(name: Str)

  type Facets = map<Key, Str>

  /** A template position; `Opt` is the `?`-prefixed optional part. */
  datatype Slot = Req(part: Part) | Opt(part: Part)

  datatype Kind = IdKind | PathKind | CmorPathKind | FilenameKind

  function Template(k: Kind): (t: seq<Slot>)
    ensures |t| > 0
  {
    match k
    case IdKind =>
      [Req(Activity), Req(Product), Req(Institute), Req(Model), Req(Experiment),
       Req(Frequency), Req(Realm), Req(Table), Req(Ensemble)]
    case PathKind =>
      [Req(Activity), Req(Product), Req(Institute), Req(Model), Req(Experiment),
       Req(Frequency), Req(Realm), Req(Table), Req(Ensemble), Req(Version), Req(Variable)]
    case CmorPathKind =>
      [Req(Activity), Req(Product), Req(Institute), Req(Model), Req(Experiment),
       Req(Frequency), Req(Realm), Req(Variable), Req(Ensemble)]
    case FilenameKind =>
      [Req(Variable), Req(Table), Req(Model), Req(Experiment), Req(Ensemble), Opt(Temporal)]
  }

  function Sep(k: Kind): (s: Str)
    ensures |s| == 1
  {
    match k
    case IdKind => "."
    case FilenameKind => "_"
    case _ => "/"
  }

  /** No part appears twice in a template. */
  predicate Distinct(t: seq<Slot>) {
    forall i, j :: 0 <= i < |t| && 0 <= j < |t| && t[i].part == t[j].part ==> i == j
  }

  /** Every position of a template is required. */
  predicate AllRequired(t: seq<Slot>) {
    forall i :: 0 <= i < |t| ==> t[i].Req?
  }

  lemma TemplatesDistinct(k: Kind)
    ensures Distinct(Template(k))
  {
    match k
    case IdKind => DistinctByPlace(Template(k), PathPlace);
    case PathKind => DistinctByPlace(Template(k), PathPlace);
    case CmorPathKind => DistinctByPlace(Template(k), CmorPlace);
    case FilenameKind => DistinctByPlace(Template(k), FilenamePlace);
  }

  /** A template is free of repeats when some numbering of the parts
      gives each position its own index. */
  lemma DistinctByPlace(t: seq<Slot>, place: Part -> int)
    requires forall i :: 0 <= i < |t| ==> place(t[i].part) == i
    ensures Distinct(t)
  {
  }

  /** Each position of the path template holds the part numbered so. */
  lemma PathPlaced(i: int)
    requires 0 <= i < |Template(PathKind)|
    ensures PathPlace(Template(PathKind)[i].part) == i
  {
  }

  /** Positions in the id and path templates. */
  function PathPlace(p: Part): int {
    match p
    case Activity => 0
    case Product => 1
    case Institute => 2
    case Model => 3
    case Experiment => 4
    case Frequency => 5
    case Realm => 6
    case Table => 7
    case Ensemble => 8
    case Version => 9
    case Variable => 10
    case Temporal => 11
  }

  /** Positions in the CMOR path template. */
  function CmorPlace(p: Part): int {
    match p
    case Variable => 7
    case Table => 9
    case _ => PathPlace(p)
  }

  /** Positions in the file name template. */
  function FilenamePlace(p: Part): int {
    match p
    case Variable => 0
    case Table => 1
    case Model => 2
    case Experiment => 3
    case Ensemble => 4
    case Temporal => 5
    case _ => -1
  }

  /** The path template starts with the whole id template. */
  lemma IdIsPathPrefix()
    ensures Template(PathKind)[..9] == Template(IdKind)
    ensures Template(PathKind)[9..] == [Req(Version), Req(Variable)]
  {
  }

  /** The loop of `__split`: the n-th string goes to the n-th part. */
  function Assign(t: seq<Slot>, xs: seq<Str>): (f: Facets)
    requires |xs| <= |t|
    ensures f.Keys == set i | 0 <= i < |xs| :: Facet(t[i].part)
    decreases |xs|
  {
    if |xs| == 0 then map[]
    else Assign(t, xs[..|xs| - 1])[Facet(t[|xs| - 1].part) := xs[|xs| - 1]]
  }

  /** With distinct parts, each part holds the string at its position. */
  lemma {:induction false} AssignLookup(t: seq<Slot>, xs: seq<Str>, i: int)
    requires |xs| <= |t| && Distinct(t) && 0 <= i < |xs|
    ensures Facet(t[i].part) in Assign(t, xs)
    ensures Assign(t, xs)[Facet(t[i].part)] == xs[i]
    decreases |xs|
  {
    if i < |xs| - 1 {
      AssignLookup(t, xs[..|xs| - 1], i);
      assert t[i].part != t[|xs| - 1].part;
    }
  }

  /** `__split`: more strings than template parts raise. */
  function SplitParts(strings: seq<Str>, t: seq<Slot>): (r: Result<Facets, PyError>)
    ensures r.Failure? <==> |strings| > |t|
    ensures r.Success? ==> r.value.Keys == set i | 0 <= i < |strings| :: Facet(t[i].part)
  {
    if |strings| > |t| then Failure(GenericException("Can't parse this"))
    else Success(Assign(t, strings))
  }

  /** `__extract` */
  function Extract(k: Kind, s: Str): (r: Result<Facets, PyError>)
    ensures r.Failure? <==> |Split(s, Sep(k))| > |Template(k)|
  {
    SplitParts(Split(s, Sep(k)), Template(k))
  }

  /** Read a text into the dictionary, the later value winning. */
  function Update(f: Facets, k: Kind, s: Str): (r: Result<Facets, PyError>)
    ensures r.Failure? <==> |Split(s, Sep(k))| > |Template(k)|
    ensures r.Success? ==> f.Keys <= r.value.Keys
  {
    var e :- Extract(k, s);
    Success(f + e)
  }

  /** The values of `__get`: required parts must be present, absent
      optional parts are skipped. */
  function GetParts(f: Facets, t: seq<Slot>): (r: Result<seq<Str>, PyError>)
    ensures r.Failure? <==> exists i :: 0 <= i < |t| && t[i].Req? && Facet(t[i].part) !in f
    ensures r.Success? ==> |r.value| <= |t|
    decreases |t|
  {
    if |t| == 0 then Success([])
    else
      var key := Facet(t[0].part);
      if key !in f && t[0].Req? then Failure(GenericException("missing DRS part"))
      else
        assert forall i :: 1 <= i < |t| ==> t[1..][i - 1] == t[i];
        var rest :- GetParts(f, t[1..]);
        Success(if key in f then [f[key]] + rest else rest)
  }

  /** A dictionary holding `xs` at the parts of an all-required template
      gives back exactly `xs`. */
  lemma {:induction false} GetPartsOfValues(f: Facets, t: seq<Slot>, xs: seq<Str>)
    requires AllRequired(t) && |xs| == |t|
    requires forall i :: 0 <= i < |t| ==> Facet(t[i].part) in f && f[Facet(t[i].part)] == xs[i]
    ensures GetParts(f, t) == Success(xs)
    decreases |t|
  {
    if |t| > 0 {
      assert forall i :: 0 <= i < |t| - 1 ==> t[1..][i] == t[i + 1] && xs[1..][i] == xs[i + 1];
      GetPartsOfValues(f, t[1..], xs[1..]);
      assert xs == [xs[0]] + xs[1..];
    }
  }

  /** `__get` */
  function Get(f: Facets, k: Kind): (r: Result<Str, PyError>)
    ensures r.Failure? <==> GetParts(f, Template(k)).Failure?
  {
    var parts :- GetParts(f, Template(k));
    Success(Join(parts, Sep(k)))
  }

  /** `__applyWorkarounds` for CMIP5: activity is always `cmip5` and the
      version always carries a leading `v`. */
  function Workarounds(f: Facets): (g: Facets)
    ensures g.Keys == f.Keys
    ensures Facet(Activity) in g ==> g[Facet(Activity)] == "cmip5"
    ensures Facet(Version) in g ==> StartsWith(g[Facet(Version)], "v")
    ensures Facet(Version) in f ==>
              g[Facet(Version)] == (if StartsWith(f[Facet(Version)], "v") then f[Facet(Version)]
                                    else "v" + f[Facet(Version)])
    ensures forall k :: k in f && k != Facet(Activity) && k != Facet(Version) ==> g[k] == f[k]
  {
    var a := Facet(Activity);
    var v := Facet(Version);
    var f1 := if a in f && f[a] != "cmip5" then f[a := "cmip5"] else f;
    if v in f1 && !StartsWith(f1[v], "v") then f1[v := "v" + f1[v]] else f1
  }

  /** Applying the workarounds a second time changes nothing. */
  lemma WorkaroundsIdempotent(f: Facets)
    ensures Workarounds(Workarounds(f)) == Workarounds(f)
  {
  }

  /** The object: its dictionary, the cached texts (empty when not yet
      computed) and the file suffix. */
  datatype Drs = Drs(facets: Facets, id: Str, dir: Str, file: Str, cmorDir: Str, suffix: Str)

  /** `rfind('.', 0, -5)`: the last dot before the final five characters. */
  function FileIdSep(fileId: Str): (r: int)
    ensures -1 <= r < |fileId|
  {
    RFind(SliceTo(fileId, -5), ".")
  }

  /** A file suffix is split off at the last dot when that dot is neither
      the first character nor more than four characters from the end;
      otherwise the suffix is `.nc`. */
  function SplitSuffix(name: Str): (r: (Str, Str))
    ensures var loc := RFind(name, ".");
            if loc > 0 && loc > |name| - 5 then r == (name[..loc], name[loc..]) else r == (name, ".nc")
  {
    var loc := RFind(name, ".");
    if loc > 0 && loc > |name| - 5 then (name[..loc], name[loc..]) else (name, ".nc")
  }

  /** Drop one trailing `/`. */
  function TrimSlash(p: Str): (r: Str)
    ensures EndsWith(p, "/") ==> p == r + "/"
    ensures !EndsWith(p, "/") ==> r == p
  {
    if EndsWith(p, "/") then p[..|p| - 1] else p
  }

  /** `DRS(id, path, filename, file_id, cmor_path, **dict)`; an empty
      string stands for an argument not given. */
  function New(id: Str, path: Str, filename: Str, fileId: Str, cmorPath: Str, extra: Facets): (r: Result<Drs, PyError>)
    ensures r.Success? ==> fileId == "" ==> r.value.id == id
    ensures r.Success? ==> r.value.dir == "" && r.value.file == "" && r.value.cmorDir == ""
    ensures r.Success? ==> extra.Keys <= r.value.facets.Keys
    ensures r.Success? ==> Workarounds(r.value.facets) == r.value.facets
  {
    var sep := FileIdSep(fileId);
    var id1 := if fileId != "" && id == "" then SliceTo(fileId, sep) else id;
    var name1 := if fileId != "" && filename == "" then SliceFrom(fileId, sep + 1) else filename;
    var f1 :- if id1 == "" then Success(extra) else Update(extra, IdKind, id1);
    var f2 :- if path == "" then Success(f1) else Update(f1, PathKind, TrimSlash(path));
    var f3 :- if cmorPath == "" then Success(f2) else Update(f2, CmorPathKind, TrimSlash(cmorPath));
    var (stem, suffix) := if name1 == "" then ("", ".nc") else SplitSuffix(name1);
    var f4 :- if name1 == "" then Success(f3) else Update(f3, FilenameKind, stem);
    WorkaroundsIdempotent(f4);
    Success(Drs(Workarounds(f4), id1, "", "", "", suffix))
  }

  /** `getId`: the cached id, else the id built from the dictionary. */
  function GetId(d: Drs): (r: Result<(Str, Drs), PyError>)
    ensures d.id != "" ==> r == Success((d.id, d))
    ensures d.id == "" ==> r.Success? == Get(d.facets, IdKind).Success?
    ensures r.Success? ==> r.value.1.facets == d.facets
  {
    if d.id != "" then Success((d.id, d))
    else
      var s :- Get(d.facets, IdKind);
      Success((s, d.(id := s)))
  }

  /** `getPath` */
  function GetPath(d: Drs): (r: Result<(Str, Drs), PyError>)
    ensures d.dir != "" ==> r == Success((d.dir, d))
    ensures d.dir == "" ==> r.Success? == Get(d.facets, PathKind).Success?
    ensures r.Success? ==> r.value.1.facets == d.facets && r.value.1.id == d.id
  {
    if d.dir != "" then Success((d.dir, d))
    else
      var s :- Get(d.facets, PathKind);
      Success((s, d.(dir := s)))
  }

  /** `getFilename`: the name built from the dictionary plus the suffix. */
  function GetFilename(d: Drs): (r: Result<(Str, Drs), PyError>)
    ensures d.file != "" ==> r == Success((d.file, d))
    ensures d.file == "" && r.Success? ==> EndsWith(r.value.0, d.suffix)
    ensures r.Success? ==> r.value.1.facets == d.facets && r.value.1.id == d.id && r.value.1.dir == d.dir
  {
    if d.file != "" then Success((d.file, d))
    else
      var s :- Get(d.facets, FilenameKind);
      Success((s + d.suffix, d.(file := s + d.suffix)))
  }

  /** The CMOR path with the output partition collapsed into `output`. */
  function CollapseOutput(s: Str): Str {
    Replace(Replace(s, "/output2/", "/output/"), "/output1/", "/output/")
  }

  /** `getCMORPath` */
  function GetCMORPath(d: Drs): (r: Result<(Str, Drs), PyError>)
    ensures d.cmorDir != "" ==> r == Success((d.cmorDir, d))
    ensures d.cmorDir == "" ==> r.Success? == Get(d.facets, CmorPathKind).Success?
    ensures d.cmorDir == "" && r.Success? ==> r.value.0 == CollapseOutput(Get(d.facets, CmorPathKind).value)
  {
    if d.cmorDir != "" then Success((d.cmorDir, d))
    else
      var s :- Get(d.facets, CmorPathKind);
      var c := CollapseOutput(s);
      Success((c, d.(cmorDir := c)))
  }

  /** `define(**dict)`: set parts and re-apply the workarounds. The cached
      texts are not invalidated. */
  function Define(d: Drs, defs: Facets): (r: Drs)
    ensures r.facets.Keys == d.facets.Keys + defs.Keys
    ensures forall k :: k in defs && k != Facet(Activity) && k != Facet(Version) ==> r.facets[k] == defs[k]
    ensures r.id == d.id && r.dir == d.dir && r.file == d.file && r.cmorDir == d.cmorDir
  {
    d.(facets := Workarounds(d.facets + defs))
  }

  /** `getVersionNumber`: the version with one leading `v` removed, as an
      integer, and -1 when it is absent or does not parse. */
  function GetVersionNumber(d: Drs): (r: int)
    ensures Facet(Version) !in d.facets ==> r == -1
  {
    var v := Facet(Version);
    if v !in d.facets then -1
    else
      var s := d.facets[v];
      var digits := if StartsWith(s, "v") then s[1..] else s;
      match ParseInt(digits)
      case Some(n) => n
      case None => -1
  }

  /** `copy()`: a new object from the id, path and file name. */
  function Copy(d: Drs): (r: Result<Drs, PyError>)
    ensures d.id != "" && r.Success? ==> r.value.id == d.id
  {
    var a :- GetId(d);
    var b :- GetPath(a.1);
    var c :- GetFilename(b.1);
    New(a.0, b.0, c.0, "", "", map[])
  }

  /** An object made from one text only. */
  function FromOne(k: Kind, s: Str, extra: Facets): (r: Result<Drs, PyError>)
  {
    var f :- Update(extra, k, s);
    Success(Drs(Workarounds(f), if k == IdKind then s else "", "", "", "", ".nc"))
  }

  lemma NewFromId(x: Str, extra: Facets)
    requires x != ""
    ensures New(x, "", "", "", "", extra) == FromOne(IdKind, x, extra)
  {
  }

  lemma NewFromPath(p: Str, extra: Facets)
    requires p != ""
    ensures New("", p, "", "", "", extra) == FromOne(PathKind, TrimSlash(p), extra)
  {
  }

  lemma NewFromName(stem: Str, suffix: Str, extra: Facets)
    requires stem + suffix != "" && SplitSuffix(stem + suffix) == (stem, suffix)
    ensures New("", "", stem + suffix, "", "", extra) ==
            (var f :- Update(extra, FilenameKind, stem);
             Success(Drs(Workarounds(f), "", "", "", "", suffix)))
  {
  }

  // ----- properties -----------------------------------------------------

  /** The workarounds leave a conforming dictionary alone. */
  lemma WorkaroundsNoop(f: Facets)
    requires Facet(Activity) in f ==> f[Facet(Activity)] == "cmip5"
    requires Facet(Version) in f ==> StartsWith(f[Facet(Version)], "v")
    ensures Workarounds(f) == f
  {
  }

  /** Reading `Join(xs, sep)` with as many pieces as the template has parts,
      none holding the separator, assigns the pieces in order. */
  lemma ExtractJoined(k: Kind, xs: seq<Str>)
    requires |xs| == |Template(k)|
    requires forall i :: 0 <= i < |xs| ==> Sep(k)[0] !in xs[i]
    ensures Extract(k, Join(xs, Sep(k))) == Success(Assign(Template(k), xs))
  {
    assert Sep(k) == [Sep(k)[0]];
    SplitJoinChar(xs, Sep(k)[0]);
  }

  /** The values `xs` sit at the template's parts of `extra + Assign(t, xs)`. */
  lemma AssignWins(t: seq<Slot>, xs: seq<Str>, extra: Facets)
    requires |xs| <= |t| && Distinct(t)
    ensures forall i :: 0 <= i < |xs| ==>
              Facet(t[i].part) in extra + Assign(t, xs) && (extra + Assign(t, xs))[Facet(t[i].part)] == xs[i]
  {
    forall i | 0 <= i < |xs|
      ensures Facet(t[i].part) in extra + Assign(t, xs) && (extra + Assign(t, xs))[Facet(t[i].part)] == xs[i]
    {
      AssignLookup(t, xs, i);
    }
  }

  /** The values `xs` sit at the parts of template `k` in `extra + Assign(..)`. */
  lemma AssignedValues(k: Kind, xs: seq<Str>, extra: Facets)
    requires |xs| <= |Template(k)|
    ensures var t := Template(k);
            forall i :: 0 <= i < |xs| ==>
              Facet(t[i].part) in extra + Assign(t, xs) && (extra + Assign(t, xs))[Facet(t[i].part)] == xs[i]
  {
    TemplatesDistinct(k);
    AssignWins(Template(k), xs, extra);
  }

  /** An object made from an id answers `getId` with that very text, even
      though the dictionary holds `cmip5` as activity whatever the id said. */
  lemma IdIsVerbatim(x: Str, extra: Facets)
    requires x != "" && |Split(x, ".")| == 9
    ensures New(x, "", "", "", "", extra).Success?
    ensures var d := New(x, "", "", "", "", extra).value;
            GetId(d) == Success((x, d)) && Facet(Activity) in d.facets && d.facets[Facet(Activity)] == "cmip5"
  {
    NewFromId(x, extra);
    var xs := Split(x, ".");
    TemplatesDistinct(IdKind);
    AssignLookup(Template(IdKind), xs, 0);
  }

  /** Defining parts later does not change a cached id, path or name. */
  lemma DefineKeepsCaches(d: Drs, defs: Facets)
    requires d.id != "" && d.dir != ""
    ensures GetId(Define(d, defs)).value.0 == d.id
    ensures GetPath(Define(d, defs)).value.0 == d.dir
  {
  }

  /** The last character of a join is the last character of the last piece. */
  lemma {:induction false} JoinLast(xs: seq<Str>, sep: Str)
    requires |xs| >= 1 && xs[|xs| - 1] != ""
    ensures |Join(xs, sep)| > 0
    ensures Join(xs, sep)[|Join(xs, sep)| - 1] == xs[|xs| - 1][|xs[|xs| - 1]| - 1]
    decreases |xs|
  {
    if |xs| > 1 {
      JoinLast(xs[1..], sep);
    }
  }

  /** Eleven `/`-free components, the first `cmip5`, the tenth
      `v`-prefixed, the last non-empty: a well-formed DRS directory. */
  predicate WellFormedPath(xs: seq<Str>) {
    |xs| == 11 && (forall i :: 0 <= i < 11 ==> '/' !in xs[i]) &&
    xs[0] == "cmip5" && StartsWith(xs[9], "v") && xs[10] != ""
  }

  /** The object made from a well-formed directory holds its components. */
  lemma PathObject(xs: seq<Str>, extra: Facets)
    requires WellFormedPath(xs)
    ensures New("", Join(xs, "/"), "", "", "", extra) ==
            Success(Drs(extra + Assign(Template(PathKind), xs), "", "", "", "", ".nc"))
  {
    var p := Join(xs, "/");
    JoinLast(xs, "/");
    assert !EndsWith(p, "/");
    NewFromPath(p, extra);
    ExtractJoined(PathKind, xs);
    var t := Template(PathKind);
    AssignedValues(PathKind, xs, extra);
    assert t[0].part == Activity && t[9].part == Version;
    WorkaroundsNoop(extra + Assign(t, xs));
  }

  /** The dictionary read from `xs` along template `k` gives `xs` back. */
  lemma PartsOfAssigned(k: Kind, xs: seq<Str>, extra: Facets)
    requires k != FilenameKind && |xs| == |Template(k)|
    ensures GetParts(extra + Assign(Template(k), xs), Template(k)) == Success(xs)
  {
    assert AllRequired(Template(k));
    AssignedValues(k, xs, extra);
    GetPartsOfValues(extra + Assign(Template(k), xs), Template(k), xs);
  }

  /** A well-formed directory is reproduced by `getPath`. */
  lemma PathRoundTrip(xs: seq<Str>, extra: Facets)
    requires WellFormedPath(xs)
    ensures var r := New("", Join(xs, "/"), "", "", "", extra);
            r.Success? && GetPath(r.value).Success? && GetPath(r.value).value.0 == Join(xs, "/")
  {
    PathObject(xs, extra);
    var f := extra + Assign(Template(PathKind), xs);
    var d := Drs(f, "", "", "", "", ".nc");
    PartsOfAssigned(PathKind, xs, extra);
    assert GetPath(d) == Success((Join(xs, "/"), d.(dir := Join(xs, "/"))));
  }

  /** The first nine components of a well-formed directory give the id. */
  lemma PathGivesId(xs: seq<Str>, extra: Facets)
    requires WellFormedPath(xs)
    ensures var r := New("", Join(xs, "/"), "", "", "", extra);
            r.Success? && GetId(r.value).Success? && GetId(r.value).value.0 == Join(xs[..9], ".")
  {
    PathObject(xs, extra);
    var f := extra + Assign(Template(PathKind), xs);
    var d := Drs(f, "", "", "", "", ".nc");
    IdPartsOfPath(xs, extra);
    assert GetId(d) == Success((Join(xs[..9], "."), d.(id := Join(xs[..9], "."))));
  }

  lemma IdPartsOfPath(xs: seq<Str>, extra: Facets)
    requires |xs| == 11
    ensures GetParts(extra + Assign(Template(PathKind), xs), Template(IdKind)) == Success(xs[..9])
  {
    var t := Template(PathKind);
    var f := extra + Assign(t, xs);
    AssignedValues(PathKind, xs, extra);
    IdIsPathPrefix();
    IdAllRequired();
    PrefixParts(f, t, Template(IdKind), xs);
  }

  lemma IdAllRequired()
    ensures AllRequired(Template(IdKind))
  {
  }

  /** A dictionary holding `xs` at the parts of a template yields their
      first values through any all-required prefix of the template. */
  lemma PrefixParts(f: Facets, t: seq<Slot>, it: seq<Slot>, xs: seq<Str>)
    requires |xs| == |t| && |it| <= |t| && t[..|it|] == it && AllRequired(it)
    requires forall i :: 0 <= i < |t| ==> Facet(t[i].part) in f && f[Facet(t[i].part)] == xs[i]
    ensures GetParts(f, it) == Success(xs[..|it|])
  {
    forall i | 0 <= i < |it|
      ensures Facet(it[i].part) in f && f[Facet(it[i].part)] == xs[..|it|][i]
    {
      assert it[i] == t[i];
    }
    GetPartsOfValues(f, it, xs[..|it|]);
  }

  /** A trailing `/` on the directory is ignored. */
  lemma TrailingSlashIgnored(p: Str, extra: Facets)
    requires p != "" && !EndsWith(p, "/")
    ensures New("", p + "/", "", "", "", extra) == New("", p, "", "", "", extra)
  {
    assert EndsWith(p + "/", "/");
    assert TrimSlash(p + "/") == p;
    NewFromPath(p, extra);
    NewFromPath(p + "/", extra);
  }

  /** A dictionary holding the eleven path values yields them. */
  lemma PathPartsOfValues(f: Facets, xs: seq<Str>)
    requires |xs| == 11
    requires forall i :: 0 <= i < 11 ==>
               (Facet(Template(PathKind)[i].part) in f && f[Facet(Template(PathKind)[i].part)] == xs[i])
    ensures GetParts(f, Template(PathKind)) == Success(xs)
  {
    assert AllRequired(Template(PathKind));
    GetPartsOfValues(f, Template(PathKind), xs);
  }

  lemma IdUpdate(xs: seq<Str>)
    requires WellFormedPath(xs)
    requires forall i :: 0 <= i < 9 ==> '.' !in xs[i]
    ensures Update(map[], IdKind, Join(xs[..9], ".")) == Success(map[] + Assign(Template(IdKind), xs[..9]))
  {
    ExtractJoined(IdKind, xs[..9]);
  }

  /** An id dictionary whose activity is `cmip5` needs no workaround. */
  lemma IdNeedsNoWorkaround(ys: seq<Str>)
    requires |ys| == 9 && ys[0] == "cmip5"
    ensures Workarounds(map[] + Assign(Template(IdKind), ys)) == Assign(Template(IdKind), ys)
  {
    var a := Assign(Template(IdKind), ys);
    AssignedValues(IdKind, ys, map[]);
    assert map[] + a == a;
    assert Template(IdKind)[0].part == Activity;
    assert Facet(Version) !in a;
    WorkaroundsNoop(a);
  }

  /** The object made from the id of a well-formed directory. */
  lemma IdObject(xs: seq<Str>)
    requires WellFormedPath(xs)
    requires forall i :: 0 <= i < 9 ==> '.' !in xs[i]
    ensures New(Join(xs[..9], "."), "", "", "", "", map[]) ==
            Success(Drs(Assign(Template(IdKind), xs[..9]), Join(xs[..9], "."), "", "", "", ".nc"))
  {
    var ys := xs[..9];
    var x := Join(ys, ".");
    assert x != "" by {
      assert x == ys[0] + "." + Join(ys[1..], ".");
    }
    NewFromId(x, map[]);
    IdUpdate(xs);
    IdNeedsNoWorkaround(ys);
  }

  /** Defining version and variable on the id's dictionary completes the
      eleven path values. */
  lemma DefinedPathValues(xs: seq<Str>)
    requires WellFormedPath(xs)
    ensures var f := Workarounds(Assign(Template(IdKind), xs[..9]) +
                                 map[Facet(Version) := xs[9], Facet(Variable) := xs[10]]);
            forall i :: 0 <= i < 11 ==>
              (Facet(Template(PathKind)[i].part) in f && f[Facet(Template(PathKind)[i].part)] == xs[i])
  {
    var ys := xs[..9];
    var t := Template(IdKind);
    var a := Assign(t, ys);
    AssignedValues(IdKind, ys, map[]);
    assert map[] + a == a;
    var g := a + map[Facet(Version) := xs[9], Facet(Variable) := xs[10]];
    assert t[0].part == Activity;
    WorkaroundsNoop(g);
    IdIsPathPrefix();
    TemplatesDistinct(PathKind);
    PathTail();
    DefinedValues(a, t, Template(PathKind), xs, ys);
  }

  lemma PathTail()
    ensures |Template(IdKind)| == 9
    ensures Template(PathKind)[9].part == Version && Template(PathKind)[10].part == Variable
  {
  }

  /** Defining the two parts after a template prefix, on a dictionary
      holding the prefix's values, gives every value of the template. */
  lemma DefinedValues(a: Facets, t: seq<Slot>, pt: seq<Slot>, xs: seq<Str>, ys: seq<Str>)
    requires |pt| == |t| + 2 == |xs| && pt[..|t|] == t && ys == xs[..|t|] && Distinct(pt)
    requires forall i :: 0 <= i < |t| ==> Facet(t[i].part) in a && a[Facet(t[i].part)] == ys[i]
    ensures var g := a + map[Facet(pt[|t|].part) := xs[|t|], Facet(pt[|t| + 1].part) := xs[|t| + 1]];
            forall i :: 0 <= i < |pt| ==> Facet(pt[i].part) in g && g[Facet(pt[i].part)] == xs[i]
  {
    var n := |t|;
    var g := a + map[Facet(pt[n].part) := xs[n], Facet(pt[n + 1].part) := xs[n + 1]];
    forall i | 0 <= i < |pt|
      ensures Facet(pt[i].part) in g && g[Facet(pt[i].part)] == xs[i]
    {
      if i < n {
        assert pt[i] == t[i];
        assert ys[i] == xs[i];
      }
    }
  }

  /** The id route and the path route agree: an object built from the id,
      once version and variable are defined, yields the directory an
      object built from that directory yields. */
  lemma IdThenDefineGivesPath(xs: seq<Str>)
    requires WellFormedPath(xs)
    requires forall i :: 0 <= i < 9 ==> '.' !in xs[i]
    ensures var r := New(Join(xs[..9], "."), "", "", "", "", map[]);
            r.Success? &&
            var d := Define(r.value, map[Facet(Version) := xs[9], Facet(Variable) := xs[10]]);
            GetPath(d).Success? && GetPath(d).value.0 == Join(xs, "/")
  {
    IdObject(xs);
    DefinedPathValues(xs);
    var f := Workarounds(Assign(Template(IdKind), xs[..9]) +
                         map[Facet(Version) := xs[9], Facet(Variable) := xs[10]]);
    PathPartsOfValues(f, xs);
  }

  /** File names: five `_`-separated parts and an optional temporal part,
      free of `_` and `.`, and a suffix of at most four characters that
      starts with its only dot. */
  predicate WellFormedName(fs: seq<Str>, suffix: Str) {
    (|fs| == 5 || |fs| == 6) &&
    (forall i :: 0 <= i < |fs| ==> '_' !in fs[i] && '.' !in fs[i]) &&
    1 <= |suffix| <= 4 && suffix[0] == '.' && '.' !in suffix[1..]
  }

  /** `rfind` returns the last occurrence. */
  lemma RFindIsLast(s: Str, sub: Str, i: int)
    requires OccursAt(s, sub, i)
    requires forall j :: i < j <= |s| ==> !OccursAt(s, sub, j)
    ensures RFind(s, sub) == i
  {
  }

  lemma SuffixOfName(stem: Str, suffix: Str)
    requires |stem| > 0 && '.' !in stem
    requires 1 <= |suffix| <= 4 && suffix[0] == '.' && '.' !in suffix[1..]
    ensures SplitSuffix(stem + suffix) == (stem, suffix)
  {
    var s := stem + suffix;
    OccursAtChar(s, '.', |stem|);
    forall j | |stem| < j <= |s|
      ensures !OccursAt(s, ".", j)
    {
      OccursAtChar(s, '.', j);
      if j < |s| {
        assert s[j] == suffix[1..][j - |stem| - 1];
      }
    }
    RFindIsLast(s, ".", |stem|);
    assert s[..|stem|] == stem && s[|stem|..] == suffix;
  }

  /** The object made from a well-formed file name. */
  lemma NameObject(fs: seq<Str>, suffix: Str, extra: Facets)
    requires WellFormedName(fs, suffix)
    ensures New("", "", Join(fs, "_") + suffix, "", "", extra) ==
            Success(Drs(Workarounds(extra + Assign(Template(FilenameKind), fs)), "", "", "", "", suffix))
  {
    var stem := Join(fs, "_");
    assert |stem| > 0 by { assert stem == fs[0] + "_" + Join(fs[1..], "_"); }
    NoCharInJoin(fs, "_", '.');
    SuffixOfName(stem, suffix);
    NewFromName(stem, suffix, extra);
    var t := Template(FilenameKind);
    assert Sep(FilenameKind) == "_";
    SplitJoinChar(fs, '_');
  }

  /** The file name values sit at their parts. */
  lemma NameAssigned(fs: seq<Str>, extra: Facets)
    requires |fs| == 5 || |fs| == 6
    ensures var g := extra + Assign(Template(FilenameKind), fs);
            forall i :: 0 <= i < |fs| ==>
              (Facet(Template(FilenameKind)[i].part) in g &&
               g[Facet(Template(FilenameKind)[i].part)] == fs[i])
  {
    AssignedValues(FilenameKind, fs, extra);
  }

  /** A five-part name assigns no temporal part. */
  lemma NameNoTemporal(fs: seq<Str>)
    requires |fs| == 5
    ensures Facet(Temporal) !in Assign(Template(FilenameKind), fs)
  {
    var t := Template(FilenameKind);
    assert forall i :: 0 <= i < 5 ==> t[i].part != Temporal;
  }

  /** The workarounds do not touch the file name parts. */
  lemma NameValues(fs: seq<Str>, g: Facets)
    requires |fs| == 5 || |fs| == 6
    requires forall i :: 0 <= i < |fs| ==>
               (Facet(Template(FilenameKind)[i].part) in g &&
                g[Facet(Template(FilenameKind)[i].part)] == fs[i])
    ensures var w := Workarounds(g);
            forall i :: 0 <= i < |fs| ==>
              (Facet(Template(FilenameKind)[i].part) in w &&
               w[Facet(Template(FilenameKind)[i].part)] == fs[i])
  {
    var t := Template(FilenameKind);
    assert forall i :: 0 <= i < |fs| ==> t[i].part != Activity && t[i].part != Version;
  }

  /** A well-formed file name is reproduced by `getFilename`. */
  lemma FilenameRoundTrip(fs: seq<Str>, suffix: Str, extra: Facets)
    requires WellFormedName(fs, suffix)
    requires Facet(Temporal) !in extra
    ensures var r := New("", "", Join(fs, "_") + suffix, "", "", extra);
            r.Success? && GetFilename(r.value).Success? &&
            GetFilename(r.value).value.0 == Join(fs, "_") + suffix
  {
    NameObject(fs, suffix, extra);
    var g := extra + Assign(Template(FilenameKind), fs);
    NameAssigned(fs, extra);
    NameValues(fs, g);
    var w := Workarounds(g);
    if |fs| == 5 {
      NameNoTemporal(fs);
      assert Facet(Temporal) !in w;
    }
    FilenameParts(w, fs);
    var d := Drs(w, "", "", "", "", suffix);
    assert GetFilename(d).value.0 == Join(fs, "_") + suffix;
  }

  lemma FilenameParts(f: Facets, fs: seq<Str>)
    requires |fs| == 5 || |fs| == 6
    requires forall i :: 0 <= i < |fs| ==>
               (Facet(Template(FilenameKind)[i].part) in f &&
                f[Facet(Template(FilenameKind)[i].part)] == fs[i])
    requires |fs| == 5 ==> Facet(Temporal) !in f
    ensures GetParts(f, Template(FilenameKind)) == Success(fs)
  {
    var t := Template(FilenameKind);
    var t5 := t[..5];
    assert AllRequired(t5);
    forall i | 0 <= i < 5
      ensures Facet(t5[i].part) in f && f[Facet(t5[i].part)] == fs[..5][i]
    {
      assert t5[i] == t[i];
    }
    GetPartsOfValues(f, t5, fs[..5]);
    GetPartsSnoc(f, t5, Opt(Temporal));
    assert t == t5 + [Opt(Temporal)];
    var r := GetParts(f, t5 + [Opt(Temporal)]);
    if |fs| == 6 {
      assert t[5].part == Temporal;
      assert r.value == fs[..5] + [fs[5]];
      assert fs == fs[..5] + [fs[5]];
    } else {
      assert Facet(Temporal) !in f;
      assert r.value == fs[..5] + [];
      assert fs[..5] + [] == fs;
      assert r.value == fs;
    }
    assert GetParts(f, t) == r;
  }

  /** Appending a slot appends its value, or nothing for an absent
      optional part. */
  lemma {:induction false} GetPartsSnoc(f: Facets, t: seq<Slot>, s: Slot)
    requires GetParts(f, t).Success? && s.Opt?
    ensures GetParts(f, t + [s]).Success?
    ensures GetParts(f, t + [s]).value ==
            GetParts(f, t).value + (if Facet(s.part) in f then [f[Facet(s.part)]] else [])
    decreases |t|
  {
    if |t| > 0 {
      assert (t + [s])[1..] == t[1..] + [s];
      GetPartsSnoc(f, t[1..], s);
    } else {
      assert [s][1..] == [];
    }
  }

  lemma {:induction false} NoCharInJoin(xs: seq<Str>, sep: Str, c: char)
    requires c !in sep
    requires forall i :: 0 <= i < |xs| ==> c !in xs[i]
    ensures c !in Join(xs, sep)
    decreases |xs|
  {
    if |xs| > 1 {
      NoCharInJoin(xs[1..], sep, c);
    }
  }

  /** A file id is split at the dot that separates the dataset id from a
      file name of at least five characters whose dots all lie in its last
      five; the object is then the one made from id and file name. */
  lemma FileIdRoute(x: Str, name: Str, extra: Facets)
    requires x != "" && |name| >= 5
    requires forall j :: 0 <= j < |name| - 5 ==> name[j] != '.'
    ensures FileIdSep(x + "." + name) == |x|
    ensures New("", "", "", x + "." + name, "", extra) == New(x, "", name, "", "", extra)
  {
    var s := x + "." + name;
    var h := SliceTo(s, -5);
    assert h == s[..|s| - 5];
    OccursAtChar(h, '.', |x|);
    forall j | |x| < j <= |h|
      ensures !OccursAt(h, ".", j)
    {
      OccursAtChar(h, '.', j);
      if j < |h| {
        assert h[j] == name[j - |x| - 1];
      }
    }
    RFindIsLast(h, ".", |x|);
    assert SliceTo(s, |x|) == x;
    assert SliceFrom(s, |x| + 1) == name;
  }

  /** A defined digit version reads back as its number. */
  lemma DefineVersion(d: Drs, n: nat)
    ensures GetVersionNumber(Define(d, map[Facet(Version) := NatToStr(n)])) == n
  {
    var s := NatToStr(n);
    assert !StartsWith(s, "v") by { assert IsDigit(s[0]); }
    var d' := Define(d, map[Facet(Version) := s]);
    assert d'.facets[Facet(Version)] == "v" + s;
    assert ("v" + s)[1..] == s;
    ParseIntToStr(n);
  }

  /** A version that is not a number reads as -1. */
  lemma VersionUnparsable(d: Drs)
    requires Facet(Version) in d.facets
    requires d.facets[Facet(Version)] == "vlatest"
    ensures GetVersionNumber(d) == -1
  {
    var s: Str := "vlatest";
    assert StartsWith(s, "v");
    assert Strip(s[1..]) == "latest" by { StripNoSpace(s[1..]); }
    assert !IsDigit('l');
  }

  /** No `/`-led pattern starts inside a `/`-free text. */
  lemma NoOccurrenceInPlain(a: Str, t: Str, pat: Str)
    requires '/' !in a && |pat| > 0 && pat[0] == '/'
    ensures forall j :: 0 <= j < |a| ==> !OccursAt(a + t, pat, j)
  {
    forall j | 0 <= j < |a|
      ensures !OccursAt(a + t, pat, j)
    {
      assert (a + t)[j] == a[j];
    }
  }

  /** A pattern absent from `"/" + rest` is absent from `rest`. */
  lemma AbsentFromTail(rest: Str, pat: Str)
    requires Find("/" + rest, pat) == -1
    ensures Find(rest, pat) == -1
  {
    forall j | 0 <= j <= |rest|
      ensures !OccursAt(rest, pat, j)
    {
      OccursShift("/", rest, pat, j);
    }
  }

  /** Collapsing `a/output2/rest`. */
  lemma CollapseOutput2(a: Str, rest: Str)
    requires '/' !in a
    requires Find("/" + rest, "/output1/") == -1 && Find("/" + rest, "/output2/") == -1
    ensures CollapseOutput(a + "/output2/" + rest) == a + "/output/" + rest
  {
    NoOccurrenceInPlain(a, "/output2/" + rest, "/output2/");
    ConcatAssoc(a, "/output2/", rest);
    AbsentFromTail(rest, "/output2/");
    ReplaceOnce(a, "/output2/", rest, "/output/");
    var x := a + "/output";
    var s := a + "/output/" + rest;
    OutputSplit(a, rest);
    NoOutput1Straddles(a, rest);
    FindNoneConcat(x, "/" + rest, "/output1/");
    ReplaceAbsent(s, "/output1/", "/output/");
  }

  lemma OutputSplit(a: Str, rest: Str)
    ensures a + "/output/" + rest == (a + "/output") + ("/" + rest)
  {
  }

  /** No `/output1/` starts within `a/output` of `a/output/rest`. */
  lemma NoOutput1Straddles(a: Str, rest: Str)
    requires '/' !in a
    ensures var x := a + "/output";
            forall j :: 0 <= j < |x| ==> !OccursAt(x + ("/" + rest), "/output1/", j)
  {
    var x := a + "/output";
    var s := a + "/output/" + rest;
    assert s == x + ("/" + rest);
    forall j | 0 <= j < |x|
      ensures !OccursAt(x + ("/" + rest), "/output1/", j)
    {
      if j < |a| {
        assert s[j] == a[j];
      } else if j == |a| {
        if j + 9 <= |s| {
          assert s[j + 7] == '/';
        }
      } else {
        assert s[j] != '/';
      }
    }
  }

  /** Collapsing `a/output1/rest`. */
  lemma CollapseOutput1(a: Str, rest: Str)
    requires '/' !in a
    requires Find("/" + rest, "/output1/") == -1 && Find("/" + rest, "/output2/") == -1
    ensures CollapseOutput(a + "/output1/" + rest) == a + "/output/" + rest
  {
    var x := a + "/output1";
    var s := a + "/output1/" + rest;
    assert s == x + ("/" + rest);
    forall j | 0 <= j < |x|
      ensures !OccursAt(x + ("/" + rest), "/output2/", j)
    {
      if j < |a| {
        assert s[j] == a[j];
      } else if j == |a| {
        if j + 9 <= |s| {
          assert s[j + 7] == '1';
        }
      } else {
        assert s[j] != '/';
      }
    }
    FindNoneConcat(x, "/" + rest, "/output2/");
    ReplaceAbsent(s, "/output2/", "/output/");
    NoOccurrenceInPlain(a, "/output1/" + rest, "/output1/");
    assert s == a + ("/output1/" + rest);
    AbsentFromTail(rest, "/output1/");
    ReplaceOnce(a, "/output1/", rest, "/output/");
  }

  /** The first two pieces of a join, spelled out. */
  lemma JoinFirstTwo(xs: seq<Str>, sep: Str)
    requires |xs| >= 3
    ensures Join(xs, sep) == xs[0] + sep + xs[1] + sep + Join(xs[2..], sep)
  {
    assert xs[1..][1..] == xs[2..];
  }

  lemma CmorText(f: Facets, xs: seq<Str>)
    requires |xs| == 9
    requires forall i :: 0 <= i < 9 ==>
               (Facet(Template(CmorPathKind)[i].part) in f &&
                f[Facet(Template(CmorPathKind)[i].part)] == xs[i])
    ensures Get(f, CmorPathKind) == Success(Join(xs, "/"))
  {
    assert AllRequired(Template(CmorPathKind));
    GetPartsOfValues(f, Template(CmorPathKind), xs);
  }

  /** Either output partition collapses, written as the join pieces. */
  lemma CollapseProduct(a: Str, p: Str, rest: Str)
    requires '/' !in a && (p == "output1" || p == "output2")
    requires Find("/" + rest, "/output1/") == -1 && Find("/" + rest, "/output2/") == -1
    ensures CollapseOutput(a + "/" + p + "/" + rest) == a + "/" + "output" + "/" + rest
  {
    assert a + "/" + "output" + "/" + rest == a + "/output/" + rest;
    if p == "output1" {
      assert a + "/" + p + "/" + rest == a + "/output1/" + rest;
      CollapseOutput1(a, rest);
    } else {
      assert a + "/" + p + "/" + rest == a + "/output2/" + rest;
      CollapseOutput2(a, rest);
    }
  }

  /** `getCMORPath` reports both output partitions as `output`: with the
      CMOR parts `xs`, a `/`-free activity, product `output1` or `output2`
      and no partition name further on, the path is the join of the parts
      with the product replaced by `output`. */
  lemma CmorPathCollapses(d: Drs, xs: seq<Str>)
    requires d.cmorDir == "" && |xs| == 9
    requires forall i :: 0 <= i < 9 ==>
               (Facet(Template(CmorPathKind)[i].part) in d.facets &&
                d.facets[Facet(Template(CmorPathKind)[i].part)] == xs[i])
    requires '/' !in xs[0] && (xs[1] == "output1" || xs[1] == "output2")
    requires Find("/" + Join(xs[2..], "/"), "/output1/") == -1
    requires Find("/" + Join(xs[2..], "/"), "/output2/") == -1
    ensures GetCMORPath(d).Success?
    ensures GetCMORPath(d).value.0 == Join([xs[0], "output"] + xs[2..], "/")
  {
    CmorText(d.facets, xs);
    var rest := Join(xs[2..], "/");
    JoinFirstTwo(xs, "/");
    var ys := [xs[0], "output"] + xs[2..];
    JoinFirstTwo(ys, "/");
    assert ys[2..] == xs[2..];
    CollapseProduct(xs[0], xs[1], rest);
  }
}
