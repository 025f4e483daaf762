/** Moving already-published files out of scratch: each line of an index
    query's output names a file twice, once as a dotted dataset
    identifier and once as a download URL. The first gives the file's
    place under scratch, the second its published place; a published
    copy on CSS-01, CSS-02 or GDO2 is counted (with a warning when the
    URL does not point at CSS but the copy is there), and otherwise a
    scratch copy is moved to the GDO2 place. The file system is a
    parameter: `present(p)` stands for "p is a file of non-zero size". */
module MvPub {
  import opened Wrappers
  import opened PyStr

  // ---------------------------------------------------------------------
  // The first path: from the dotted identifier
  // ---------------------------------------------------------------------

  /** `s3[0:-3].replace('.','/') + s3[-3:]`: dots become slashes except
      in the last three characters (the `.nc` suffix). */
  function DrsPath(s3: Str): Str {
    Replace(SliceTo(s3, -3), ".", "/") + SliceFrom(s3, -3)
  }

  /** `s4.split('/')[-1]`: the last path component. */
  function LastComponent(s4: Str): (r: Str)
    ensures '/' !in r
  {
    var ps := Split(s4, "/");
    SplitPiecesFree(s4, '/');
    ps[|ps| - 1]
  }

  /** `filename.split('_')[0]`: the variable name leading a file name. */
  function VarName(filename: Str): (r: Str)
    ensures '_' !in r
  {
    SplitPiecesFree(filename, '_');
    Split(filename, "_")[0]
  }

  /** The dotted identifier of a line: its second space-separated field,
      cut at `|`; a line without a second field raises IndexError. */
  function Identifier(line: Str): (r: Result<Str, PyError>)
    ensures r.Failure? <==> |Split(line, " ")| < 2
  {
    var s1 := Split(line, " ");
    if |s1| < 2 then Failure(IndexError) else Success(Split(s1[1], "|")[0])
  }

  /** An identifier made a path, with the variable's directory inserted
      before the file name. */
  function PathOf(s3: Str): Str {
    var s4 := DrsPath(s3);
    var filename := LastComponent(s4);
    SliceTo(s4, -|filename|) + VarName(filename) + "/" + filename
  }

  /** `firstpath(line)` */
  function FirstPath(line: Str): (r: Result<Str, PyError>)
    ensures r.Failure? <==> Identifier(line).Failure?
  {
    var s3 :- Identifier(line);
    Success(PathOf(s3))
  }

  /** Characters that may not appear in a facet: separators of the line
      and of the path. */
  predicate Clean(x: Str) {
    '.' !in x && '/' !in x && ' ' !in x && '|' !in x
  }

  /** Splitting just after a piece free of the separator gives that piece first. */
  lemma SplitHead(a: Str, c: char, b: Str)
    requires c !in a
    ensures Split(a + [c] + b, [c])[0] == a
  {
    SplitLead(a, c, b);
  }

  /** A string free of the separator splits into itself. */
  lemma SplitWhole(a: Str, c: char)
    requires c !in a
    ensures Split(a, [c]) == [a]
  {
    FindAbsentChar(a, c);
  }

  /** Replacing dots by slashes in a dotted join of dot-free pieces
      joins the pieces with slashes. */
  lemma ReplaceJoin(pieces: seq<Str>)
    requires |pieces| >= 1
    requires forall k :: 0 <= k < |pieces| ==> '.' !in pieces[k]
    ensures Replace(Join(pieces, "."), ".", "/") == Join(pieces, "/")
  {
    SplitJoinChar(pieces, '.');
  }

  /** The second space field of such a line, cut at `|`, is the identifier. */
  lemma IdentifierField(lead: Str, s3: Str, host: Str, tail: Str)
    requires ' ' !in lead && ' ' !in host && ' ' !in s3 && '|' !in s3
    ensures Identifier(lead + " " + s3 + "|" + host + " " + tail) == Success(s3)
  {
    var line := lead + " " + s3 + "|" + host + " " + tail;
    assert ' ' !in s3 + "|" + host;
    assert line == lead + [' '] + ((s3 + "|" + host) + [' '] + tail);
    SplitLead(lead, ' ', (s3 + "|" + host) + [' '] + tail);
    SplitHead(s3 + "|" + host, ' ', tail);
    assert s3 + "|" + host == s3 + ['|'] + host;
    SplitHead(s3, '|', host);
  }

  /** The slices of an identifier with a three-character extension. */
  lemma SlicesOfIdentifier(dotted: Str, ext: Str)
    requires |ext| == 3
    ensures SliceTo(dotted + ext, -3) == dotted
    ensures SliceFrom(dotted + ext, -3) == ext
  {
    var s3 := dotted + ext;
    assert ClampIndex(-3, |s3|) == |dotted|;
    assert s3[..|dotted|] == dotted;
    assert s3[|dotted|..] == ext;
  }

  /** The last component of a path ending in a slash-free name is that name. */
  lemma LastComponentOf(dir: Str, name: Str)
    requires '/' !in name
    ensures LastComponent(dir + "/" + name) == name
  {
    assert dir + "/" + name == dir + ['/'] + name;
    SplitConcatChar(dir, name, '/');
    SplitWhole(name, '/');
  }

  /** No piece of an identifier holds a dot. */
  lemma PiecesDotFree(facets: seq<Str>, stem: Str)
    requires forall k :: 0 <= k < |facets| ==> Clean(facets[k])
    requires Clean(stem)
    ensures forall k :: 0 <= k < |facets + [stem]| ==> '.' !in (facets + [stem])[k]
  {
    forall k | 0 <= k < |facets + [stem]| ensures '.' !in (facets + [stem])[k] {
      if k < |facets| { assert (facets + [stem])[k] == facets[k]; }
    }
  }

  /** Joining facets and a last piece with slashes. */
  lemma JoinLast(facets: seq<Str>, stem: Str)
    requires |facets| > 0
    ensures Join(facets + [stem], "/") == Join(facets, "/") + "/" + stem
  {
    JoinAppend(facets, [stem], "/");
  }

  /** A dotted name before a three-character extension becomes a path. */
  lemma DrsPathOfDotted(pieces: seq<Str>, ext: Str)
    requires |pieces| >= 1 && forall k :: 0 <= k < |pieces| ==> '.' !in pieces[k]
    requires |ext| == 3
    ensures DrsPath(Join(pieces, ".") + ext) == Join(pieces, "/") + ext
  {
    SlicesOfIdentifier(Join(pieces, "."), ext);
    ReplaceJoin(pieces);
  }

  /** The dotted identifier becomes the facets' directory and the file name. */
  lemma DrsPathOfIdentifier(facets: seq<Str>, stem: Str, ext: Str)
    requires |facets| > 0 && forall k :: 0 <= k < |facets| ==> Clean(facets[k])
    requires Clean(stem) && |ext| == 3
    ensures DrsPath(Join(facets + [stem], ".") + ext) == Join(facets, "/") + "/" + (stem + ext)
  {
    PiecesDotFree(facets, stem);
    DrsPathOfDotted(facets + [stem], ext);
    JoinLast(facets, stem);
    var dir := Join(facets, "/") + "/";
    ConcatAssoc(dir, stem, ext);
  }

  /** The identifier of a file, `facet.facet. … .stem` followed by a
      three-character extension, after a leading field and before `|host`,
      becomes the directory path of its facets, a directory named after
      the variable, and the file name. */
  lemma FirstPathOfIdentifier(lead: Str, facets: seq<Str>, stem: Str, ext: Str, host: Str, tail: Str)
    requires ' ' !in lead && ' ' !in host
    requires |facets| > 0 && forall k :: 0 <= k < |facets| ==> Clean(facets[k])
    requires Clean(stem) && |ext| == 3 && ' ' !in ext && '|' !in ext && '/' !in ext
    ensures FirstPath(lead + " " + (Join(facets + [stem], ".") + ext) + "|" + host + " " + tail)
            == Success(Join(facets, "/") + "/" + VarName(stem + ext) + "/" + (stem + ext))
  {
    var s3 := Join(facets + [stem], ".") + ext;
    IdentifierClean(facets, stem, ext);
    FirstPathOfLine(lead, s3, host, tail);
    PathOfIdentifier(facets, stem, ext);
  }

  /** A line holding an identifier as its second field. */
  lemma FirstPathOfLine(lead: Str, s3: Str, host: Str, tail: Str)
    requires ' ' !in lead && ' ' !in host && ' ' !in s3 && '|' !in s3
    ensures FirstPath(lead + " " + s3 + "|" + host + " " + tail) == Success(PathOf(s3))
  {
    IdentifierField(lead, s3, host, tail);
  }

  /** An identifier of clean pieces holds no space and no bar. */
  lemma IdentifierClean(facets: seq<Str>, stem: Str, ext: Str)
    requires forall k :: 0 <= k < |facets| ==> Clean(facets[k])
    requires Clean(stem) && ' ' !in ext && '|' !in ext
    ensures ' ' !in Join(facets + [stem], ".") + ext && '|' !in Join(facets + [stem], ".") + ext
  {
    var pieces := facets + [stem];
    forall k | 0 <= k < |pieces| ensures Clean(pieces[k]) {
      if k < |facets| { assert pieces[k] == facets[k]; }
    }
    JoinFree(pieces, ".", ' ');
    JoinFree(pieces, ".", '|');
  }

  /** The path of a dotted identifier. */
  lemma PathOfIdentifier(facets: seq<Str>, stem: Str, ext: Str)
    requires |facets| > 0 && forall k :: 0 <= k < |facets| ==> Clean(facets[k])
    requires Clean(stem) && |ext| == 3 && '/' !in ext
    ensures PathOf(Join(facets + [stem], ".") + ext) == Join(facets, "/") + "/" + VarName(stem + ext) + "/" + (stem + ext)
  {
    DrsPathOfIdentifier(facets, stem, ext);
    PathOfDrs(Join(facets + [stem], ".") + ext, Join(facets, "/"), stem + ext);
  }

  /** An identifier whose path is a directory and a file name gets the
      variable's directory between the two. */
  lemma PathOfDrs(s3: Str, dir: Str, name: Str)
    requires DrsPath(s3) == dir + "/" + name && '/' !in name && |name| > 0
    ensures PathOf(s3) == dir + "/" + VarName(name) + "/" + name
  {
    LastComponentOf(dir, name);
    var s4 := dir + "/" + name;
    assert SliceTo(s4, -|name|) == dir + "/";
  }

  // ---------------------------------------------------------------------
  // The second path: from the URL
  // ---------------------------------------------------------------------

  /** The URL head of files published under the PCMDI data root. */
  const Header: Str := "http://pcmdi9.llnl.gov/thredds/fileServer/cmip5_data/"

  /** `[s for s in line.split(' ') if len(s)>0]` */
  function NonEmpty(xs: seq<Str>): (r: seq<Str>)
    ensures forall k :: 0 <= k < |r| ==> |r[k]| > 0
    ensures forall x :: x in r <==> x in xs && |x| > 0
    decreases |xs|
  {
    if |xs| == 0 then []
    else
      var n := |xs| - 1;
      var init := NonEmpty(xs[..n]);
      assert forall x :: x in xs <==> x in xs[..n] || x == xs[n];
      if |xs[n]| > 0 then init + [xs[n]] else init
  }

  /** The URL of a line: the sixth non-empty space-separated field, cut
      at `|`. */
  function UrlField(line: Str): (r: Result<Str, PyError>)
    ensures r.Success? ==> '|' !in r.value
  {
    var s1 := NonEmpty(Split(line, " "));
    if |s1| < 6 then Failure(IndexError)
    else
      SplitPiecesFree(s1[5], '|');
      Success(Split(s1[5], "|")[0])
  }

  /** `url[url.find(hdr)+len(hdr):]` as written: what follows the first
      occurrence of the header. When the header is absent `find` gives
      -1, and the slice starts one character before the header's length. */
  function AfterHeaderAsWritten(url: Str, hdr: Str): (r: Str)
    ensures EndsWith(url, r)
  {
    SliceFrom(url, Find(url, hdr) + |hdr|)
  }

  /** What follows the first occurrence of the header; a URL without the
      header is refused with ValueError. */
  function AfterHeader(url: Str, hdr: Str): (r: Result<Str, PyError>)
    ensures r.Success? ==> exists i :: 0 <= i <= |url| - |hdr| - |r.value| && url == url[..i] + hdr + r.value
    ensures r.Failure? <==> !Contains(url, hdr)
  {
    var i := Find(url, hdr);
    if i < 0 then Failure(ValueError)
    else
      assert url == url[..i] + hdr + url[i + |hdr|..];
      Success(url[i + |hdr|..])
  }

  /** The two agree whenever the URL holds the header; without it the
      written form yields the URL from position `len(hdr)-1` on. */
  lemma AfterHeaderAgrees(url: Str, hdr: Str)
    ensures Contains(url, hdr) ==> AfterHeader(url, hdr) == Success(AfterHeaderAsWritten(url, hdr))
    ensures !Contains(url, hdr) ==> AfterHeaderAsWritten(url, hdr) == SliceFrom(url, |hdr| - 1)
  {
  }

  /** A URL made of the header and a path gives that path back. */
  lemma AfterHeaderOf(hdr: Str, path: Str)
    ensures AfterHeader(hdr + path, hdr) == Success(path)
  {
    assert OccursAt(hdr + path, hdr, 0);
    FindIsFirst(hdr + path, hdr, 0);
  }

  /** `secondpath(line)` as written: the part after the PCMDI header, and the URL. */
  function SecondPathAsWritten(line: Str): (r: Result<(Str, Str), PyError>)
    ensures r.Success? ==> UrlField(line) == Success(r.value.1) && EndsWith(r.value.1, r.value.0)
  {
    var url :- UrlField(line);
    Success((AfterHeaderAsWritten(url, Header), url))
  }

  /** `secondpath(line)` with a URL lacking the header refused. */
  function SecondPath(line: Str): (r: Result<(Str, Str), PyError>)
    ensures r.Success? ==> UrlField(line) == Success(r.value.1)
  {
    var url :- UrlField(line);
    var path :- AfterHeader(url, Header);
    Success((path, url))
  }

  /** As written, a line whose URL lacks the header is not refused: its
      path is the URL from the 53rd character on, unrelated to any
      published place; the corrected form refuses it and otherwise
      agrees. */
  lemma SecondPathWithoutHeader(line: Str)
    requires UrlField(line).Success?
    ensures var url := UrlField(line).value;
            !Contains(url, Header) ==>
              SecondPath(line) == Failure(ValueError)
              && SecondPathAsWritten(line) == Success((SliceFrom(url, |Header| - 1), url))
    ensures Contains(UrlField(line).value, Header) ==> SecondPath(line) == SecondPathAsWritten(line)
  {
    AfterHeaderAgrees(UrlField(line).value, Header);
  }

  /** A line whose URL is the header and a path gives that path. */
  lemma SecondPathOfUrl(line: Str, path: Str)
    requires UrlField(line) == Success(Header + path)
    ensures SecondPath(line) == Success((path, Header + path))
  {
    AfterHeaderOf(Header, path);
  }

  // ---------------------------------------------------------------------
  // The warning and the choice of source and destination
  // ---------------------------------------------------------------------

  /** `double_publish_warning`: the URL does not point at CSS but the
      published copy lies on CSS. */
  function DoublePublished(pubpath: Str, url: Str): (r: bool)
    ensures r <==> !Contains(url, "cmip5_css") && StartsWith(pubpath, "/css")
  {
    Find(url, "cmip5_css") < 0 && SliceTo(pubpath, 4) == "/css"
  }

  const Css01Scratch: Str := "/css01-cmip5/scratch/"
  const Css02Scratch: Str := "/css02-cmip5/scratch/"
  const Css01Data: Str := "/css01-cmip5/data/"
  const Css02Data: Str := "/css02-cmip5/data/"
  const GdoData: Str := "/css02-cmip5/cmip5/data/"

  /** The scratch copy to move: CSS-01's if present, else CSS-02's. */
  function Source(abspath: Str, present: Str -> bool): (r: Option<Str>)
    ensures r.Some? <==> present(Css01Scratch + abspath) || present(Css02Scratch + abspath)
    ensures r.Some? ==> present(r.value)
    ensures present(Css01Scratch + abspath) ==> r == Some(Css01Scratch + abspath)
  {
    if present(Css01Scratch + abspath) then Some(Css01Scratch + abspath)
    else if present(Css02Scratch + abspath) then Some(Css02Scratch + abspath)
    else None
  }

  /** Where a published copy was found. */
  datatype Place = Css01 | Css02 | Gdo

  /** What happens to one line. */
  datatype Outcome =
    | Published(place: Place, warned: bool)
    | StillMissing
    | Move(from: Str, to: Str)

  /** The decision for one file: the first published copy of CSS-01,
      CSS-02 and GDO2 is counted (the CSS ones with the double-publish
      check); with none, a scratch copy is moved to the GDO2 place, and
      without one the file is still missing. */
  function Decide(abspath: Str, urlpath: Str, url: Str, present: Str -> bool): Outcome {
    if present(Css01Data + urlpath) then Published(Css01, DoublePublished(Css01Data + urlpath, url))
    else if present(Css02Data + urlpath) then Published(Css02, DoublePublished(Css02Data + urlpath, url))
    else if present(GdoData + urlpath) then Published(Gdo, false)
    else match Source(abspath, present)
      case None => StillMissing
      case Some(from) => Move(from, GdoData + urlpath)
  }

  /** A move happens exactly when no published copy exists and a scratch
      copy does; it goes to the GDO2 place; published copies are looked
      for on CSS-01, CSS-02 and GDO2 in that order; a warning is given
      exactly when a CSS copy exists and the URL does not point at CSS. */
  lemma DecideSpec(abspath: Str, urlpath: Str, url: Str, present: Str -> bool)
    ensures var o := Decide(abspath, urlpath, url, present);
            var published := present(Css01Data + urlpath) || present(Css02Data + urlpath) || present(GdoData + urlpath);
            (o.Move? <==> !published && Source(abspath, present).Some?)
            && (o.Move? ==> o.from == Source(abspath, present).value && o.to == GdoData + urlpath && present(o.from))
            && (o.StillMissing? <==> !published && Source(abspath, present).None?)
            && (o.Published? && o.place == Css01 <==> present(Css01Data + urlpath))
            && (o.Published? && o.warned <==> (present(Css01Data + urlpath) || present(Css02Data + urlpath)) && !Contains(url, "cmip5_css"))
  {
    assert StartsWith(Css01Data + urlpath, "/css");
    assert StartsWith(Css02Data + urlpath, "/css");
  }

  // ---------------------------------------------------------------------
  // The run over all lines
  // ---------------------------------------------------------------------

  /** The counters the run reports, and the moves it reports. */
  datatype Tally = Tally(lines: nat, css01: nat, css02: nat, gdo: nat, missing: nat, moves: seq<(Str, Str)>)

  function Count(t: Tally, o: Outcome): Tally {
    var t := t.(lines := t.lines + 1);
    match o
    case Published(Css01, _) => t.(css01 := t.css01 + 1)
    case Published(Css02, _) => t.(css02 := t.css02 + 1)
    case Published(Gdo, _) => t.(gdo := t.gdo + 1)
    case StillMissing => t.(missing := t.missing + 1)
    case Move(from, to) => t.(moves := t.moves + [(from, to)])
  }

  /** One line as written: both paths (either may raise) and the
      decision; a URL without the PCMDI header is not refused. */
  function LineOutcome(line: Str, present: Str -> bool): (r: Result<Outcome, PyError>)
    ensures r.Success? <==> FirstPath(line).Success? && UrlField(line).Success?
  {
    var abspath :- FirstPath(line);
    var paths :- SecondPathAsWritten(line);
    Success(Decide(abspath, paths.0, paths.1, present))
  }

  /** One line with a URL lacking the header refused. */
  function LineOutcomeChecked(line: Str, present: Str -> bool): (r: Result<Outcome, PyError>)
    ensures r.Success? <==> FirstPath(line).Success? && SecondPath(line).Success?
  {
    var abspath :- FirstPath(line);
    var paths :- SecondPath(line);
    Success(Decide(abspath, paths.0, paths.1, present))
  }

  /** As written, a line whose URL lacks the header is still handled,
      with a published path that does not come from the header; the
      checked form refuses it; with the header the two agree. */
  lemma LineOutcomeAgrees(line: Str, present: Str -> bool)
    requires FirstPath(line).Success? && UrlField(line).Success?
    ensures var url := UrlField(line).value;
            !Contains(url, Header) ==>
              LineOutcome(line, present) == Success(Decide(FirstPath(line).value, SliceFrom(url, |Header| - 1), url, present))
              && LineOutcomeChecked(line, present) == Failure(ValueError)
    ensures Contains(UrlField(line).value, Header) ==> LineOutcome(line, present) == LineOutcomeChecked(line, present)
  {
    SecondPathWithoutHeader(line);
  }

  /** The loop over the lines with the per-line step given; the first
      failure ends the run with its exception. */
  function RunWith(lines: seq<Str>, step: Str -> Result<Outcome, PyError>): Result<Tally, PyError>
    decreases |lines|
  {
    if |lines| == 0 then Success(Tally(0, 0, 0, 0, 0, []))
    else
      var n := |lines| - 1;
      var t :- RunWith(lines[..n], step);
      var o :- step(lines[n]);
      Success(Count(t, o))
  }

  /** The main loop over the lines of the query output, as written. */
  function Run(lines: seq<Str>, present: Str -> bool): Result<Tally, PyError> {
    RunWith(lines, l => LineOutcome(l, present))
  }

  /** The main loop with URLs lacking the header refused. */
  function RunChecked(lines: seq<Str>, present: Str -> bool): Result<Tally, PyError> {
    RunWith(lines, l => LineOutcomeChecked(l, present))
  }

  /** A move that starts from a present file and goes to a GDO2 data path. */
  predicate GoodMove(m: (Str, Str), present: Str -> bool) {
    present(m.0) && StartsWith(m.1, GdoData)
  }

  /** A run completes exactly when every line's step does; it then
      counts every line exactly once, and every move it reports is one a
      step decided. */
  lemma RunWithTally(lines: seq<Str>, step: Str -> Result<Outcome, PyError>, present: Str -> bool)
    requires forall l :: step(l).Success? && step(l).value.Move? ==> GoodMove((step(l).value.from, step(l).value.to), present)
    ensures RunWith(lines, step).Success? <==> forall k :: 0 <= k < |lines| ==> step(lines[k]).Success?
    ensures RunWith(lines, step).Success? ==>
              var t := RunWith(lines, step).value;
              t.lines == |lines| == t.css01 + t.css02 + t.gdo + t.missing + |t.moves|
    ensures RunWith(lines, step).Success? ==>
              var t := RunWith(lines, step).value;
              forall k :: 0 <= k < |t.moves| ==> GoodMove(t.moves[k], present)
  {
    RunWithCompletes(lines, step);
    RunWithCounts(lines, step);
    RunWithMoves(lines, step, present);
  }

  lemma {:induction false} RunWithCompletes(lines: seq<Str>, step: Str -> Result<Outcome, PyError>)
    ensures RunWith(lines, step).Success? <==> forall k :: 0 <= k < |lines| ==> step(lines[k]).Success?
    decreases |lines|
  {
    if |lines| > 0 {
      var n := |lines| - 1;
      RunWithCompletes(lines[..n], step);
      assert forall k :: 0 <= k < n ==> lines[..n][k] == lines[k];
    }
  }

  lemma {:induction false} RunWithCounts(lines: seq<Str>, step: Str -> Result<Outcome, PyError>)
    ensures RunWith(lines, step).Success? ==>
              var t := RunWith(lines, step).value;
              t.lines == |lines| == t.css01 + t.css02 + t.gdo + t.missing + |t.moves|
    decreases |lines|
  {
    if |lines| > 0 {
      var n := |lines| - 1;
      RunWithCounts(lines[..n], step);
    }
  }

  lemma {:induction false} RunWithMoves(lines: seq<Str>, step: Str -> Result<Outcome, PyError>, present: Str -> bool)
    requires forall l :: step(l).Success? && step(l).value.Move? ==> GoodMove((step(l).value.from, step(l).value.to), present)
    ensures RunWith(lines, step).Success? ==>
              var t := RunWith(lines, step).value;
              forall k :: 0 <= k < |t.moves| ==> GoodMove(t.moves[k], present)
    decreases |lines|
  {
    if |lines| > 0 {
      var n := |lines| - 1;
      RunWithMoves(lines[..n], step, present);
      assert RunWith(lines[..n], step).Success? ==> (var t := RunWith(lines[..n], step).value; forall k :: 0 <= k < |t.moves| ==> GoodMove(t.moves[k], present));
      var r := RunWith(lines[..n], step);
      if r.Success? && step(lines[n]).Success? {
        var t := r.value;
        var o := step(lines[n]).value;
        var t' := Count(t, o);
        assert RunWith(lines, step) == Success(t');
        assert forall k :: 0 <= k < |t.moves| ==> t'.moves[k] == t.moves[k];
        if o.Move? {
          assert GoodMove((o.from, o.to), present);
          assert t'.moves == t.moves + [(o.from, o.to)];
          forall k | 0 <= k < |t'.moves| ensures GoodMove(t'.moves[k], present) {
            if k < |t.moves| {
              assert t'.moves[k] == t.moves[k];
              assert GoodMove(t.moves[k], present);
            } else {
              assert t'.moves[k] == (o.from, o.to);
            }
          }
        }
      }
    }
  }

  /** As written, a run completes exactly when every line has an
      identifier and a URL, whether or not the URL holds the header; it
      then counts each line exactly once, as published somewhere, still
      missing or moved, and every move goes from a scratch copy that is
      present to a GDO2 data path. */
  lemma RunTally(lines: seq<Str>, present: Str -> bool)
    ensures Run(lines, present).Success? <==>
              forall k :: 0 <= k < |lines| ==> FirstPath(lines[k]).Success? && UrlField(lines[k]).Success?
    ensures Run(lines, present).Success? ==>
              var t := Run(lines, present).value;
              t.lines == |lines| == t.css01 + t.css02 + t.gdo + t.missing + |t.moves|
    ensures Run(lines, present).Success? ==>
              var t := Run(lines, present).value;
              forall k :: 0 <= k < |t.moves| ==> GoodMove(t.moves[k], present)
  {
    var step := l => LineOutcome(l, present);
    forall l | step(l).Success? && step(l).value.Move?
      ensures GoodMove((step(l).value.from, step(l).value.to), present)
    {
      var p := SecondPathAsWritten(l).value;
      DecideSpec(FirstPath(l).value, p.0, p.1, present);
    }
    RunWithTally(lines, step, present);
  }

  /** With URLs lacking the header refused, a run completes exactly when
      every line has both paths, and counts and moves as above. */
  lemma RunCheckedTally(lines: seq<Str>, present: Str -> bool)
    ensures RunChecked(lines, present).Success? <==>
              forall k :: 0 <= k < |lines| ==> FirstPath(lines[k]).Success? && SecondPath(lines[k]).Success?
    ensures RunChecked(lines, present).Success? ==>
              var t := RunChecked(lines, present).value;
              t.lines == |lines| == t.css01 + t.css02 + t.gdo + t.missing + |t.moves|
    ensures RunChecked(lines, present).Success? ==>
              var t := RunChecked(lines, present).value;
              forall k :: 0 <= k < |t.moves| ==> GoodMove(t.moves[k], present)
  {
    var step := l => LineOutcomeChecked(l, present);
    forall l | step(l).Success? && step(l).value.Move?
      ensures GoodMove((step(l).value.from, step(l).value.to), present)
    {
      var p := SecondPath(l).value;
      DecideSpec(FirstPath(l).value, p.0, p.1, present);
    }
    RunWithTally(lines, step, present);
  }
}
