/** The replica manager: the status scale of replicated files and
    datasets, the choice of a download URL and of a download location, the
    lines of a download list, the pruning of duplicate endpoints, the
    downgrades applied when the catalog changes, the handling of finished
    checksum processes and the status roll-up after a dataset has been
    verified. The database rows are plain records; checksum processes are
    oracles giving an exit code and the text they printed. */
module ReplicaManager {
  import opened Wrappers
  import opened PyStr
  import opened PyPath
  import opened DownloadQueue
  import DownloadManager

  // ---------------------------------------------------------------------
  // The status scale
  // ---------------------------------------------------------------------

  const UNINIT: int := 0
  const INIT: int := 10
  const DOWNLOADING: int := 20
  const VERIFYING: int := 30
  const OBSOLETE: int := 50
  const WITHDRAWN: int := 51
  const UNAVAILABLE: int := 52
  const RETRIEVED: int := 100
  const FINAL_DIR: int := 110
  const CHOWNED: int := 120
  const ESGCET_DB: int := 130
  const TDS: int := 140
  const PUBLISHED: int := 150
  const ERROR: int := -1
  const MULTIPLE_ERRORS: int := -10

  /** A row of `replica.file_access`. */
  datatype Access = Access(url: Str, accessType: Str)

  /** A row of `replica.files` with its access rows. */
  datatype ReplicaFile = ReplicaFile(
    absPath: Str,
    checksum: Str,
    checksumType: Str,
    size: int,
    status: int,
    access: seq<Access>)

  /** A row of `replica.datasets` with its files. */
  datatype ReplicaDataset = ReplicaDataset(name: Str, status: int, files: seq<ReplicaFile>)

  // ---------------------------------------------------------------------
  // url_priority
  // ---------------------------------------------------------------------

  /** `server_priority`: host label to priority, 0 best and 7 worst. */
  const ServerPriority: map<Str, nat> := map[
    "local" := 7, "llnl" := 7,
    "dkrz" := 2, "badc" := 2, "ceda" := 2, "ncar" := 2, "ucar" := 2,
    "default" := 3, "gfdl" := 3, "nasa" := 3,
    "norstore" := 3, "norstore-trd-bio1" := 3,
    "dias" := 3, "dias-esg-rp" := 3, "u-tokyo" := 3,
    "cnrm" := 3, "cnrm-game-meteo" := 3,
    "nci" := 5, "bcc" := 5, "bcccsm" := 5, "bnu" := 5,
    "lasg" := 6, "ichec" := 6, "e-inis" := 6]

  const DefaultPriority: nat := 3

  lemma PriorityTableBounds()
    ensures forall w :: w in ServerPriority ==> 2 <= ServerPriority[w] <= 7
  {
  }

  /** The priority of the first label found in the table, or the default. */
  function LabelPriority(labels: seq<Str>): (r: nat)
    ensures (forall k :: 0 <= k < |labels| ==> labels[k] !in ServerPriority) ==> r == DefaultPriority
    ensures forall k :: (0 <= k < |labels| && labels[k] in ServerPriority &&
              (forall j :: 0 <= j < k ==> labels[j] !in ServerPriority)) ==> r == ServerPriority[labels[k]]
    decreases |labels|
  {
    if |labels| == 0 then DefaultPriority
    else if labels[0] in ServerPriority then ServerPriority[labels[0]]
    else
      var r := LabelPriority(labels[1..]);
      assert forall k :: 1 <= k < |labels| ==> labels[1..][k - 1] == labels[k];
      r
  }

  /** The host of a URL: the third `/`-field without its port. */
  function Host(url: Str): (r: Option<Str>)
    ensures r.Some? <==> |Split(url, "/")| >= 3
  {
    var parts := Split(url, "/");
    if |parts| < 3 then None else Some(Split(parts[2], ":")[0])
  }

  /** `url_priority(url)`: an IndexError when the URL has fewer than two
      slashes. */
  function UrlPriority(url: Str): (r: Result<nat, PyError>)
    ensures r.Failure? <==> Host(url).None?
    ensures r.Success? ==> r.value == LabelPriority(Split(Host(url).value, "."))
  {
    match Host(url)
    case None => Failure(IndexError)
    case Some(h) => Success(LabelPriority(Split(h, ".")))
  }

  /** Every priority is one of the eight buckets of `create_repo_list`. */
  lemma {:induction false} LabelPriorityBounds(labels: seq<Str>)
    ensures 2 <= LabelPriority(labels) <= 7
    decreases |labels|
  {
    PriorityTableBounds();
    if |labels| > 0 && labels[0] !in ServerPriority {
      LabelPriorityBounds(labels[1..]);
    }
  }

  lemma UrlPriorityBounds(url: Str)
    requires UrlPriority(url).Success?
    ensures 2 <= UrlPriority(url).value <= 7
  {
    LabelPriorityBounds(Split(Host(url).value, "."));
  }

  // ---------------------------------------------------------------------
  // getDownloadLocation
  // ---------------------------------------------------------------------

  /** Institutes whose files go to the newer disk section. */
  const NewSectionInstitutes: seq<Str> := [
    "/BCC/", "/CNRM-CERFACS/", "/COLA-CFS/", "/ICHEC/", "/IPSL/",
    "/LASG-CESS/", "/LASG-IAP/", "/MIROC/", "/MPI-M/", "/MRI/",
    "/NIMR-KMA/", "/NOAA-GFDL/", "/NOAA-NCEP/", "/NSF-DOE-NCAR/"]

  /** Whether `abs_path.find(inst) > 0` holds for one of the institutes. */
  predicate InNewSection(absPath: Str) {
    exists k :: 0 <= k < |NewSectionInstitutes| && Find(absPath, NewSectionInstitutes[k]) > 0
  }

  /** `ReplicaFile.getDownloadLocation()` with the two section roots as
      parameters. */
  function DownloadLocation(absPath: Str, filesDir1: Str, filesDir2: Str): Str {
    PathJoin(if InNewSection(absPath) then filesDir1 else filesDir2, absPath)
  }

  lemma InstitutesAreSlashed()
    ensures forall k :: 0 <= k < |NewSectionInstitutes| ==>
              |NewSectionInstitutes[k]| > 0 && NewSectionInstitutes[k][0] == '/'
  {
  }

  /** For a relative path (the form kept in the database) the newer section
      is chosen exactly when one of the institutes occurs anywhere in it. */
  lemma RelativePathSection(absPath: Str)
    requires |absPath| > 0 && absPath[0] != '/'
    ensures InNewSection(absPath) <==>
              exists k :: 0 <= k < |NewSectionInstitutes| && Contains(absPath, NewSectionInstitutes[k])
  {
    InstitutesAreSlashed();
  }

  /** An institute at the very start of the path is found at index 0, so
      it does not select the newer section. */
  lemma LeadingInstituteIgnored(k: nat, rest: Str)
    requires k < |NewSectionInstitutes|
    ensures Find(NewSectionInstitutes[k] + rest, NewSectionInstitutes[k]) == 0
  {
    var inst := NewSectionInstitutes[k];
    assert (inst + rest)[..|inst|] == inst;
    FindIsFirst(inst + rest, inst, 0);
  }

  // ---------------------------------------------------------------------
  // create_repo_list
  // ---------------------------------------------------------------------

  /** The `(priority, url)` pairs of the access rows of one type, in row
      order; the first URL without a host aborts the list. */
  function Prioritized(access: seq<Access>, accessType: Str): (r: Result<seq<(nat, Str)>, PyError>)
    ensures r.Success? ==> forall k :: 0 <= k < |r.value| ==> 2 <= r.value[k].0 <= 7
    decreases |access|
  {
    if |access| == 0 then Success([])
    else
      var rest :- Prioritized(access[1..], accessType);
      if access[0].accessType == accessType then
        var p :- UrlPriority(access[0].url);
        UrlPriorityBounds(access[0].url);
        Success([(p, access[0].url)] + rest)
      else Success(rest)
  }

  /** A URL of an access row of the given type. */
  predicate IsCandidate(access: seq<Access>, accessType: Str, u: Str) {
    exists j :: 0 <= j < |access| && access[j].accessType == accessType && access[j].url == u
  }

  /** The candidates are exactly the URLs of the rows of the type, and the
      list fails only on a row of the type whose URL has no host. */
  lemma PrioritizedRows(access: seq<Access>, accessType: Str)
    ensures Prioritized(access, accessType).Success? ==>
              (forall k :: 0 <= k < |Prioritized(access, accessType).value| ==>
                IsCandidate(access, accessType, Prioritized(access, accessType).value[k].1)) &&
              (forall j :: 0 <= j < |access| && access[j].accessType == accessType ==>
                exists k :: 0 <= k < |Prioritized(access, accessType).value| &&
                  Prioritized(access, accessType).value[k].1 == access[j].url)
    ensures Prioritized(access, accessType).Failure? <==>
              exists j :: 0 <= j < |access| && access[j].accessType == accessType && Host(access[j].url).None?
  {
    PrioritizedFails(access, accessType);
    if Prioritized(access, accessType).Success? {
      PrioritizedSound(access, accessType);
      PrioritizedComplete(access, accessType);
    }
  }

  /** One step of the list: the row's own pair, if it is of the type, in
      front of the pairs of the rows after it. */
  lemma PrioritizedCons(access: seq<Access>, accessType: Str)
    requires |access| > 0 && Prioritized(access, accessType).Success?
    ensures Prioritized(access[1..], accessType).Success?
    ensures var head := if access[0].accessType == accessType then [(UrlPriority(access[0].url).value, access[0].url)] else [];
            Prioritized(access, accessType).value == head + Prioritized(access[1..], accessType).value
  {
  }

  lemma {:induction false} PrioritizedFails(access: seq<Access>, accessType: Str)
    ensures Prioritized(access, accessType).Failure? <==>
              exists j :: 0 <= j < |access| && access[j].accessType == accessType && Host(access[j].url).None?
    decreases |access|
  {
    if |access| > 0 {
      var tail := access[1..];
      PrioritizedFails(tail, accessType);
      var rt := Prioritized(tail, accessType);
      if rt.Failure? {
        var j :| 0 <= j < |tail| && tail[j].accessType == accessType && Host(tail[j].url).None?;
        assert access[j + 1] == tail[j];
      } else if access[0].accessType == accessType && Host(access[0].url).None? {
        assert Prioritized(access, accessType).Failure?;
      } else {
        forall j | 0 <= j < |access| && access[j].accessType == accessType
          ensures Host(access[j].url).Some?
        {
          if j > 0 {
            assert tail[j - 1] == access[j];
          }
        }
      }
    }
  }

  /** A candidate of the rows after the first is a candidate of all rows. */
  lemma CandidateTail(access: seq<Access>, accessType: Str, u: Str)
    requires |access| > 0 && IsCandidate(access[1..], accessType, u)
    ensures IsCandidate(access, accessType, u)
  {
    var j :| 0 <= j < |access| - 1 && access[1..][j].accessType == accessType && access[1..][j].url == u;
    assert access[j + 1] == access[1..][j];
  }

  lemma {:induction false} PrioritizedSound(access: seq<Access>, accessType: Str)
    requires Prioritized(access, accessType).Success?
    ensures forall k :: 0 <= k < |Prioritized(access, accessType).value| ==>
              IsCandidate(access, accessType, Prioritized(access, accessType).value[k].1)
    decreases |access|
  {
    if |access| > 0 {
      var tail := access[1..];
      PrioritizedCons(access, accessType);
      PrioritizedSound(tail, accessType);
      var ps := Prioritized(access, accessType).value;
      var rest := Prioritized(tail, accessType).value;
      var h := |ps| - |rest|;
      forall k | 0 <= k < |ps|
        ensures IsCandidate(access, accessType, ps[k].1)
      {
        if k >= h {
          assert ps[k] == rest[k - h];
          CandidateTail(access, accessType, rest[k - h].1);
        } else {
          assert ps[k].1 == access[0].url;
        }
      }
    }
  }

  lemma {:induction false} PrioritizedComplete(access: seq<Access>, accessType: Str)
    requires Prioritized(access, accessType).Success?
    ensures forall j :: 0 <= j < |access| && access[j].accessType == accessType ==>
              exists k :: 0 <= k < |Prioritized(access, accessType).value| &&
                Prioritized(access, accessType).value[k].1 == access[j].url
    decreases |access|
  {
    if |access| > 0 {
      var tail := access[1..];
      PrioritizedCons(access, accessType);
      PrioritizedComplete(tail, accessType);
      var ps := Prioritized(access, accessType).value;
      var rest := Prioritized(tail, accessType).value;
      var h := |ps| - |rest|;
      forall j | 0 <= j < |access| && access[j].accessType == accessType
        ensures exists k :: 0 <= k < |ps| && ps[k].1 == access[j].url
      {
        if j == 0 {
          assert ps[0].1 == access[0].url;
        } else {
          assert tail[j - 1] == access[j];
          var k :| 0 <= k < |rest| && rest[k].1 == tail[j - 1].url;
          assert ps[k + h] == rest[k];
        }
      }
    }
  }

  /** `urls_bypri[pri]` */
  function Bucket(ps: seq<(nat, Str)>, pri: nat): (r: seq<Str>)
    decreases |ps|
  {
    if |ps| == 0 then []
    else (if ps[0].0 == pri then [ps[0].1] else []) + Bucket(ps[1..], pri)
  }

  /** The head of the first non-empty bucket from `pri` up to 7. */
  function FirstOfBuckets(ps: seq<(nat, Str)>, pri: nat): (r: Option<Str>)
    decreases 8 - pri
  {
    if pri >= 8 then None
    else if |Bucket(ps, pri)| > 0 then Some(Bucket(ps, pri)[0])
    else FirstOfBuckets(ps, pri + 1)
  }

  /** The first pair with priority `pri`, when there is one. */
  lemma {:induction false} BucketHead(ps: seq<(nat, Str)>, pri: nat)
    ensures |Bucket(ps, pri)| > 0 <==> exists i :: 0 <= i < |ps| && ps[i].0 == pri
    ensures |Bucket(ps, pri)| > 0 ==>
              exists i :: 0 <= i < |ps| && ps[i].0 == pri && ps[i].1 == Bucket(ps, pri)[0] &&
                (forall j :: 0 <= j < i ==> ps[j].0 != pri)
    decreases |ps|
  {
    if |ps| > 0 {
      BucketHead(ps[1..], pri);
      if ps[0].0 != pri {
        if exists i :: 0 <= i < |ps[1..]| && ps[1..][i].0 == pri && ps[1..][i].1 == Bucket(ps[1..], pri)[0] &&
             (forall j :: 0 <= j < i ==> ps[1..][j].0 != pri) {
          var i :| 0 <= i < |ps[1..]| && ps[1..][i].0 == pri && ps[1..][i].1 == Bucket(ps[1..], pri)[0] &&
             (forall j :: 0 <= j < i ==> ps[1..][j].0 != pri);
          assert ps[i + 1] == ps[1..][i];
          forall j | 0 <= j < i + 1
            ensures ps[j].0 != pri
          {
            if j > 0 {
              assert ps[j] == ps[1..][j - 1];
            }
          }
        }
        if exists i :: 0 <= i < |ps| && ps[i].0 == pri {
          var i :| 0 <= i < |ps| && ps[i].0 == pri;
          assert ps[1..][i - 1] == ps[i];
        }
      }
    }
  }

  /** The chosen URL is the first among those of least priority. */
  predicate IsBestUrl(ps: seq<(nat, Str)>, u: Str) {
    exists i :: 0 <= i < |ps| && ps[i].1 == u &&
      (forall j :: 0 <= j < |ps| ==> ps[i].0 <= ps[j].0) &&
      (forall j :: 0 <= j < i ==> ps[i].0 < ps[j].0)
  }

  /** Scanning the buckets in order picks the first URL of least priority,
      and nothing exactly when there is no candidate. */
  lemma {:induction false} FirstOfBucketsIsBest(ps: seq<(nat, Str)>, pri: nat)
    requires pri <= 8
    requires forall k :: 0 <= k < |ps| ==> pri <= ps[k].0 < 8
    ensures FirstOfBuckets(ps, pri).None? <==> |ps| == 0
    ensures FirstOfBuckets(ps, pri).Some? ==> IsBestUrl(ps, FirstOfBuckets(ps, pri).value)
    decreases 8 - pri
  {
    if |ps| > 0 {
      var first := ps[0].0;
      assert pri <= first < 8;
    }
    if pri < 8 {
      BucketHead(ps, pri);
      if |Bucket(ps, pri)| > 0 {
        var i :| 0 <= i < |ps| && ps[i].0 == pri && ps[i].1 == Bucket(ps, pri)[0] &&
                (forall j :: 0 <= j < i ==> ps[j].0 != pri);
        assert forall j :: 0 <= j < |ps| ==> ps[i].0 <= ps[j].0;
        assert IsBestUrl(ps, ps[i].1);
      } else {
        FirstOfBucketsIsBest(ps, pri + 1);
      }
    }
  }

  /** Download URL of a file in repository mode: a GridFTP server and root
      followed by the file's path, or by a tail of its first access URL. */
  datatype FileMod =
    | FromPath(server: Str, root: Str)
    | FromAccess(server: Str, root: Str, cut: nat)

  function Prefix(fm: FileMod): Str {
    "gsiftp://" + fm.server + fm.root
  }

  /** The keys of `repos`. */
  datatype RepoName = Badc | Dkrz | Pcmdi | Ncc | Nci | Ncar | Csiro | Cnrm | Ipsl

  function RepoOf(name: Str): Option<RepoName> {
    if name == "badc" then Some(Badc)
    else if name == "dkrz" then Some(Dkrz)
    else if name == "pcmdi" then Some(Pcmdi)
    else if name == "ncc" then Some(Ncc)
    else if name == "nci" then Some(Nci)
    else if name == "ncar" then Some(Ncar)
    else if name == "csiro" then Some(Csiro)
    else if name == "cnrm" then Some(Cnrm)
    else if name == "ipsl" then Some(Ipsl)
    else None
  }

  /** `repos[name]['file_mod']` */
  function RepoMod(r: RepoName): FileMod {
    match r
    case Badc => FromPath("capuchin.badc.rl.ac.uk:2812", "/badc/cmip5/data/")
    case Dkrz => FromPath("cmip2.dkrz.de:2812", "/")
    case Pcmdi => FromAccess("pcmdi7.llnl.gov:2812", "/", 53)
    case Ncc => FromAccess("norstore-trd-bio1.hpc.ntnu.no:2812", "//", 35)
    case Nci => FromAccess("esgnode1.nci.org.au:2812", "//", 35)
    case Ncar => FromAccess("vetsman.ucar.edu:2811", "//datazone/cmip5_data/", 37)
    case Csiro => FromAccess("esgnode1.nci.org.au:2812", "//", 35)
    case Cnrm => FromPath("esg.cnrm-game-meteo.fr:2812", "//esg_dataroot1/")
    case Ipsl => FromPath("vesg.ipsl.fr:2811", "//esg_dataroot/")
  }

  /** The `file_mod` lambda applied to a file; None when it raises (a file
      without access rows), which skips the file. */
  function ApplyFileMod(fm: FileMod, f: ReplicaFile): Option<Str> {
    match fm
    case FromPath(_, _) => Some(Prefix(fm) + f.absPath)
    case FromAccess(_, _, cut) =>
      if |f.access| == 0 then None else Some(Prefix(fm) + SliceFrom(f.access[0].url, cut))
  }

  /** The URL `create_repo_list` picks for one file, None when there is none. */
  function ChooseUrl(f: ReplicaFile, repo: Option<FileMod>, accessType: Str): (r: Result<Option<Str>, PyError>)
    ensures repo.None? && r.Success? && r.value.Some? ==>
              Prioritized(f.access, accessType).Success? &&
              IsBestUrl(Prioritized(f.access, accessType).value, r.value.value)
    ensures repo.None? && r.Success? && r.value.None? ==>
              forall k :: 0 <= k < |f.access| ==> f.access[k].accessType != accessType
  {
    match repo
    case Some(fm) => Success(ApplyFileMod(fm, f))
    case None =>
      var ps :- Prioritized(f.access, accessType);
      FirstOfBucketsIsBest(ps, 0);
      PrioritizedCovers(f.access, accessType);
      Success(FirstOfBuckets(ps, 0))
  }

  /** Every access row of the type contributes a candidate. */
  lemma {:induction false} PrioritizedCovers(access: seq<Access>, accessType: Str)
    requires Prioritized(access, accessType).Success?
    ensures |Prioritized(access, accessType).value| == 0 ==>
              forall k :: 0 <= k < |access| ==> access[k].accessType != accessType
    decreases |access|
  {
    if |access| > 0 {
      PrioritizedCovers(access[1..], accessType);
      assert forall k :: 1 <= k < |access| ==> access[k] == access[1..][k - 1];
    }
  }

  /** The `flags` column: -1 marks a file whose last attempt failed. */
  function ListFlags(status: int): (r: int)
    ensures r == -1 <==> status == ERROR
    ensures r == 0 <==> status != ERROR
  {
    if status == ERROR then -1 else 0
  }

  /** `'%s\t%s\t%s\t%s\t%s\t%s\n' % (url, location, size, checksum, type, flags)` */
  function ListLine(url: Str, location: Str, f: ReplicaFile): Str {
    Join([url, location, IntToStr(f.size), f.checksum, f.checksumType,
          IntToStr(ListFlags(f.status)) + "\n"], "\t")
  }

  /** The lines written for one file. */
  function FileLines(f: ReplicaFile, repo: Option<FileMod>, accessType: Str, skipExisting: bool,
                     filesDir1: Str, filesDir2: Str): (r: Result<seq<Str>, PyError>)
    ensures r.Success? ==> |r.value| <= 1
    ensures skipExisting && f.status >= VERIFYING ==> r == Success([])
  {
    if skipExisting && f.status >= VERIFYING then Success([])
    else
      var url :- ChooseUrl(f, repo, accessType);
      if url.None? || url.value == [] then Success([])
      else Success([ListLine(url.value, DownloadLocation(f.absPath, filesDir1, filesDir2), f)])
  }

  function FilesLines(fs: seq<ReplicaFile>, repo: Option<FileMod>, accessType: Str, skipExisting: bool,
                      filesDir1: Str, filesDir2: Str): (r: Result<seq<Str>, PyError>)
    ensures r.Success? ==> |r.value| <= |fs|
    decreases |fs|
  {
    if |fs| == 0 then Success([])
    else
      var a :- FileLines(fs[0], repo, accessType, skipExisting, filesDir1, filesDir2);
      var b :- FilesLines(fs[1..], repo, accessType, skipExisting, filesDir1, filesDir2);
      Success(a + b)
  }

  function DatasetsLines(ds: seq<ReplicaDataset>, repo: Option<FileMod>, accessType: Str, skipExisting: bool,
                         filesDir1: Str, filesDir2: Str): (r: Result<seq<Str>, PyError>)
    decreases |ds|
  {
    if |ds| == 0 then Success([])
    else
      var a :- if skipExisting && ds[0].status >= VERIFYING then Success([])
               else FilesLines(ds[0].files, repo, accessType, skipExisting, filesDir1, filesDir2);
      var b :- DatasetsLines(ds[1..], repo, accessType, skipExisting, filesDir1, filesDir2);
      Success(a + b)
  }

  /** What `create_repo_list` returns and writes: 1 with no lines for an
      unknown repository, else the lines (the code is then None in Python,
      modelled as 0). */
  datatype RepoList = RepoList(code: int, lines: seq<Str>)

  /** `create_repo_list(datasets, skip_existing=..., type=...)`: a type
      starting with `repo` selects a repository (`badc` when nothing follows
      the prefix); any other type selects access rows of that type. */
  function CreateRepoList(ds: seq<ReplicaDataset>, skipExisting: bool, accessType: Str,
                          filesDir1: Str, filesDir2: Str): (r: Result<RepoList, PyError>)
    ensures (StartsWith(accessType, "repo") && |accessType| > 5 && RepoOf(accessType[5..]).None?) ==>
              r == Success(RepoList(1, []))
  {
    if StartsWith(accessType, "repo") then
      var name := if |accessType| <= 5 then "badc" else accessType[5..];
      match RepoOf(name)
      case None => Success(RepoList(1, []))
      case Some(rn) =>
        var lines :- DatasetsLines(ds, Some(RepoMod(rn)), accessType, skipExisting, filesDir1, filesDir2);
        Success(RepoList(0, lines))
    else
      var lines :- DatasetsLines(ds, None, accessType, skipExisting, filesDir1, filesDir2);
      Success(RepoList(0, lines))
  }

  /** Files below VERIFYING, counted over datasets below VERIFYING. */
  function FilesToFetch(fs: seq<ReplicaFile>): nat
    decreases |fs|
  {
    if |fs| == 0 then 0 else (if fs[0].status < VERIFYING then 1 else 0) + FilesToFetch(fs[1..])
  }

  function DatasetsToFetch(ds: seq<ReplicaDataset>): nat
    decreases |ds|
  {
    if |ds| == 0 then 0
    else (if ds[0].status < VERIFYING then FilesToFetch(ds[0].files) else 0) + DatasetsToFetch(ds[1..])
  }

  lemma {:induction false} FilesLinesSkip(fs: seq<ReplicaFile>, repo: Option<FileMod>, accessType: Str,
                                           filesDir1: Str, filesDir2: Str)
    requires FilesLines(fs, repo, accessType, true, filesDir1, filesDir2).Success?
    ensures |FilesLines(fs, repo, accessType, true, filesDir1, filesDir2).value| <= FilesToFetch(fs)
    decreases |fs|
  {
    if |fs| > 0 {
      FilesLinesSkip(fs[1..], repo, accessType, filesDir1, filesDir2);
    }
  }

  /** With `skip_existing`, at most one line is written per file below
      VERIFYING in a dataset below VERIFYING, and nothing for the rest. */
  lemma {:induction false} SkipExisting(ds: seq<ReplicaDataset>, repo: Option<FileMod>, accessType: Str,
                                         filesDir1: Str, filesDir2: Str)
    requires DatasetsLines(ds, repo, accessType, true, filesDir1, filesDir2).Success?
    ensures |DatasetsLines(ds, repo, accessType, true, filesDir1, filesDir2).value| <= DatasetsToFetch(ds)
    decreases |ds|
  {
    if |ds| > 0 {
      if ds[0].status < VERIFYING {
        FilesLinesSkip(ds[0].files, repo, accessType, filesDir1, filesDir2);
      }
      SkipExisting(ds[1..], repo, accessType, filesDir1, filesDir2);
    }
  }

  // ---------------------------------------------------------------------
  // The download list, written here and read by Download.main
  // ---------------------------------------------------------------------

  /** The text fields of a line hold no tab. */
  predicate TabFree(url: Str, location: Str, f: ReplicaFile) {
    '\t' !in url && '\t' !in location && '\t' !in f.checksum && '\t' !in f.checksumType
  }

  /** Reading a written line gives back the URL, the location and the size;
      the flags column arrives as text with the newline still attached. */
  lemma ListLineRoundTrip(url: Str, location: Str, f: ReplicaFile)
    requires TabFree(url, location, f)
    ensures DownloadManager.ParseListLine(ListLine(url, location, f)) ==
              Success(Some(Task(location, url, Some(f.size), FlagStr(IntToStr(ListFlags(f.status)) + "\n"))))
  {
    var parts := [url, location, IntToStr(f.size), f.checksum, f.checksumType,
                  IntToStr(ListFlags(f.status)) + "\n"];
    forall k | 0 <= k < |parts|
      ensures '\t' !in parts[k]
    {
      if k == 2 || k == 5 {
        assert forall c :: c in IntToStr(f.size) ==> c == '-' || IsDigit(c);
        assert forall c :: c in IntToStr(ListFlags(f.status)) ==> c == '-' || IsDigit(c);
      }
    }
    SplitJoinChar(parts, '\t');
    ParseIntToStr(f.size);
  }

  lemma ListLineReadable(url: Str, location: Str, f: ReplicaFile)
    requires TabFree(url, location, f)
    ensures Readable(ListLine(url, location, f))
  {
    ListLineRoundTrip(url, location, f);
  }

  /** No tab in the text fields of a file row. */
  predicate FileTabFree(f: ReplicaFile) {
    '\t' !in f.absPath && '\t' !in f.checksum && '\t' !in f.checksumType &&
    forall k :: 0 <= k < |f.access| ==> '\t' !in f.access[k].url
  }

  /** A line the reader of download lists accepts as a task. */
  predicate Readable(line: Str) {
    var r := DownloadManager.ParseListLine(line);
    r.Success? && r.value.Some?
  }

  lemma PathJoinTabFree(a: Str, b: Str)
    requires '\t' !in a && '\t' !in b
    ensures '\t' !in PathJoin(a, b)
  {
  }

  lemma ChosenUrlTabFree(f: ReplicaFile, repo: Option<FileMod>, accessType: Str)
    requires FileTabFree(f)
    requires repo.Some? ==> '\t' !in Prefix(repo.value)
    requires ChooseUrl(f, repo, accessType).Success? && ChooseUrl(f, repo, accessType).value.Some?
    ensures '\t' !in ChooseUrl(f, repo, accessType).value.value
  {
    var u := ChooseUrl(f, repo, accessType).value.value;
    if repo.None? {
      var ps := Prioritized(f.access, accessType).value;
      var i :| 0 <= i < |ps| && ps[i].1 == u;
      PrioritizedRows(f.access, accessType);
      var j :| 0 <= j < |f.access| && f.access[j].accessType == accessType && f.access[j].url == ps[i].1;
    } else if repo.value.FromAccess? {
      var t := SliceFrom(f.access[0].url, repo.value.cut);
      assert forall c :: c in t ==> c in f.access[0].url;
    }
  }

  lemma NoTabConcat(a: Str, b: Str)
    requires '\t' !in a && '\t' !in b
    ensures '\t' !in a + b
  {
  }

  lemma PrefixTabFree(fm: FileMod)
    requires '\t' !in fm.server && '\t' !in fm.root
    ensures '\t' !in Prefix(fm)
  {
    assert '\t' !in "gsiftp://";
    NoTabConcat("gsiftp://", fm.server);
    NoTabConcat("gsiftp://" + fm.server, fm.root);
  }

  /** The servers and roots of the known repositories hold no tab. */
  lemma RepoTabFree(r: RepoName)
    ensures '\t' !in RepoMod(r).server && '\t' !in RepoMod(r).root
  {
    match r
    case Badc => BritishTabFree();
    case Dkrz => GermanTabFree();
    case Pcmdi => LivermoreTabFree();
    case Ncc => NorwegianTabFree();
    case Nci => AustralianTabFree();
    case Ncar => BoulderTabFree();
    case Csiro => AustralianTabFree();
    case Cnrm => FrenchTabFree();
    case Ipsl => FrenchTabFree();
  }

  lemma BritishTabFree()
    ensures '\t' !in RepoMod(Badc).server && '\t' !in RepoMod(Badc).root
  {
    assert '\t' !in "capuchin.badc.rl.ac.uk:2812" && '\t' !in "/badc/cmip5/data/";
  }

  lemma GermanTabFree()
    ensures '\t' !in RepoMod(Dkrz).server && '\t' !in RepoMod(Dkrz).root
  {
    assert '\t' !in "cmip2.dkrz.de:2812";
  }

  lemma LivermoreTabFree()
    ensures '\t' !in RepoMod(Pcmdi).server && '\t' !in RepoMod(Pcmdi).root
  {
    assert '\t' !in "pcmdi7.llnl.gov:2812";
  }

  lemma NorwegianTabFree()
    ensures '\t' !in RepoMod(Ncc).server && '\t' !in RepoMod(Ncc).root
  {
    assert '\t' !in "norstore-trd-bio1.hpc.ntnu.no:2812";
  }

  lemma AustralianTabFree()
    ensures '\t' !in RepoMod(Nci).server && '\t' !in RepoMod(Nci).root
    ensures '\t' !in RepoMod(Csiro).server && '\t' !in RepoMod(Csiro).root
  {
    assert '\t' !in "esgnode1.nci.org.au:2812";
  }

  lemma BoulderTabFree()
    ensures '\t' !in RepoMod(Ncar).server && '\t' !in RepoMod(Ncar).root
  {
    assert '\t' !in "vetsman.ucar.edu:2811" && '\t' !in "//datazone/cmip5_data/";
  }

  lemma FrenchTabFree()
    ensures '\t' !in RepoMod(Cnrm).server && '\t' !in RepoMod(Cnrm).root
    ensures '\t' !in RepoMod(Ipsl).server && '\t' !in RepoMod(Ipsl).root
  {
    assert '\t' !in "esg.cnrm-game-meteo.fr:2812" && '\t' !in "//esg_dataroot1/";
    assert '\t' !in "vesg.ipsl.fr:2811" && '\t' !in "//esg_dataroot/";
  }

  /** Every line written for a file with tab-free fields is read back as
      a task by the download-list reader. */
  lemma FileLinesReadable(f: ReplicaFile, repo: Option<FileMod>, accessType: Str, skipExisting: bool,
                          filesDir1: Str, filesDir2: Str)
    requires FileTabFree(f) && '\t' !in filesDir1 && '\t' !in filesDir2
    requires repo.Some? ==> '\t' !in Prefix(repo.value)
    requires FileLines(f, repo, accessType, skipExisting, filesDir1, filesDir2).Success?
    ensures forall k :: 0 <= k < |FileLines(f, repo, accessType, skipExisting, filesDir1, filesDir2).value| ==>
              Readable(FileLines(f, repo, accessType, skipExisting, filesDir1, filesDir2).value[k])
  {
    if !(skipExisting && f.status >= VERIFYING) {
      var ru := ChooseUrl(f, repo, accessType);
      if ru.value.Some? && ru.value.value != [] {
        var url := ru.value.value;
        var loc := DownloadLocation(f.absPath, filesDir1, filesDir2);
        assert FileLines(f, repo, accessType, skipExisting, filesDir1, filesDir2).value == [ListLine(url, loc, f)];
        ChosenUrlTabFree(f, repo, accessType);
        PathJoinTabFree(if InNewSection(f.absPath) then filesDir1 else filesDir2, f.absPath);
        ListLineReadable(url, loc, f);
      }
    }
  }

  lemma {:induction false} FilesLinesReadable(fs: seq<ReplicaFile>, repo: Option<FileMod>, accessType: Str,
                                               skipExisting: bool, filesDir1: Str, filesDir2: Str)
    requires forall k :: 0 <= k < |fs| ==> FileTabFree(fs[k])
    requires '\t' !in filesDir1 && '\t' !in filesDir2
    requires repo.Some? ==> '\t' !in Prefix(repo.value)
    requires FilesLines(fs, repo, accessType, skipExisting, filesDir1, filesDir2).Success?
    ensures forall k :: 0 <= k < |FilesLines(fs, repo, accessType, skipExisting, filesDir1, filesDir2).value| ==>
              Readable(FilesLines(fs, repo, accessType, skipExisting, filesDir1, filesDir2).value[k])
    decreases |fs|
  {
    if |fs| > 0 {
      FileLinesReadable(fs[0], repo, accessType, skipExisting, filesDir1, filesDir2);
      FilesLinesReadable(fs[1..], repo, accessType, skipExisting, filesDir1, filesDir2);
    }
  }

  lemma {:induction false} DatasetsLinesReadable(ds: seq<ReplicaDataset>, repo: Option<FileMod>, accessType: Str,
                                                  skipExisting: bool, filesDir1: Str, filesDir2: Str)
    requires forall i, k :: 0 <= i < |ds| && 0 <= k < |ds[i].files| ==> FileTabFree(ds[i].files[k])
    requires '\t' !in filesDir1 && '\t' !in filesDir2
    requires repo.Some? ==> '\t' !in Prefix(repo.value)
    requires DatasetsLines(ds, repo, accessType, skipExisting, filesDir1, filesDir2).Success?
    ensures forall k :: 0 <= k < |DatasetsLines(ds, repo, accessType, skipExisting, filesDir1, filesDir2).value| ==>
              Readable(DatasetsLines(ds, repo, accessType, skipExisting, filesDir1, filesDir2).value[k])
    decreases |ds|
  {
    if |ds| > 0 {
      if !(skipExisting && ds[0].status >= VERIFYING) {
        FilesLinesReadable(ds[0].files, repo, accessType, skipExisting, filesDir1, filesDir2);
      }
      DatasetsLinesReadable(ds[1..], repo, accessType, skipExisting, filesDir1, filesDir2);
    }
  }

  /** The whole download list written by `create_repo_list` is readable by
      `Download.main`, line by line. */
  lemma RepoListReadable(ds: seq<ReplicaDataset>, skipExisting: bool, accessType: Str,
                         filesDir1: Str, filesDir2: Str)
    requires forall i, k :: 0 <= i < |ds| && 0 <= k < |ds[i].files| ==> FileTabFree(ds[i].files[k])
    requires '\t' !in filesDir1 && '\t' !in filesDir2
    requires CreateRepoList(ds, skipExisting, accessType, filesDir1, filesDir2).Success?
    ensures forall k :: 0 <= k < |CreateRepoList(ds, skipExisting, accessType, filesDir1, filesDir2).value.lines| ==>
              Readable(CreateRepoList(ds, skipExisting, accessType, filesDir1, filesDir2).value.lines[k])
  {
    if StartsWith(accessType, "repo") {
      var name := if |accessType| <= 5 then "badc" else accessType[5..];
      if RepoOf(name).Some? {
        var fm := RepoMod(RepoOf(name).value);
        RepoTabFree(RepoOf(name).value);
        PrefixTabFree(fm);
        DatasetsLinesReadable(ds, Some(fm), accessType, skipExisting, filesDir1, filesDir2);
      }
    } else {
      DatasetsLinesReadable(ds, None, accessType, skipExisting, filesDir1, filesDir2);
    }
  }

  // ---------------------------------------------------------------------
  // Endpoint de-duplication in fill_replica_db
  // ---------------------------------------------------------------------

  /** An endpoint offered by the index: its URL and access type. */
  datatype Endpoint = Endpoint(url: Str, kind: Str)

  /** No later endpoint has the same URL. */
  predicate IsLast(eps: seq<Endpoint>, k: int)
    requires 0 <= k < |eps|
  {
    forall j :: k < j < |eps| ==> eps[j].url != eps[k].url
  }

  /** The endpoints among the first `n` that are last of their URL, in order. */
  function KeptUpTo(eps: seq<Endpoint>, n: nat): seq<Endpoint>
    requires n <= |eps|
  {
    if n == 0 then [] else KeptUpTo(eps, n - 1) + (if IsLast(eps, n - 1) then [eps[n - 1]] else [])
  }

  /** What is kept is a last occurrence. */
  lemma {:induction false} KeptAreLast(eps: seq<Endpoint>, n: nat)
    requires n <= |eps|
    ensures forall i :: 0 <= i < |KeptUpTo(eps, n)| ==>
              exists k :: 0 <= k < n && KeptUpTo(eps, n)[i] == eps[k] && IsLast(eps, k)
  {
    if n > 0 {
      KeptAreLast(eps, n - 1);
      var prev := KeptUpTo(eps, n - 1);
      var cur := KeptUpTo(eps, n);
      forall i | 0 <= i < |cur|
        ensures exists k :: 0 <= k < n && cur[i] == eps[k] && IsLast(eps, k)
      {
        assert cur == prev + (if IsLast(eps, n - 1) then [eps[n - 1]] else []);
        if i < |prev| {
          var k :| 0 <= k < n - 1 && prev[i] == eps[k] && IsLast(eps, k);
          assert cur[i] == eps[k];
        } else {
          assert cur[i] == eps[n - 1];
        }
      }
      assert forall i :: 0 <= i < |cur| ==> exists k :: 0 <= k < n && cur[i] == eps[k] && IsLast(eps, k);
    } else {
      assert KeptUpTo(eps, n) == [];
    }
  }

  /** A last occurrence among the first `n` is kept. */
  lemma {:induction false} LastIsKept(eps: seq<Endpoint>, n: nat, k: nat)
    requires k < n <= |eps| && IsLast(eps, k)
    ensures eps[k] in KeptUpTo(eps, n)
  {
    if k < n - 1 {
      LastIsKept(eps, n - 1, k);
    }
  }

  /** Every endpoint's URL has a last occurrence. */
  lemma {:induction false} HasLast(eps: seq<Endpoint>, k: nat)
    requires k < |eps|
    ensures exists m :: k <= m < |eps| && eps[m].url == eps[k].url && IsLast(eps, m)
    decreases |eps| - k
  {
    if !IsLast(eps, k) {
      var j :| k < j < |eps| && eps[j].url == eps[k].url;
      HasLast(eps, j);
    }
  }

  /** The kept endpoints have pairwise different URLs. */
  lemma KeptDistinct(eps: seq<Endpoint>)
    ensures forall i, j :: 0 <= i < j < |KeptUpTo(eps, |eps|)| ==>
              KeptUpTo(eps, |eps|)[i].url != KeptUpTo(eps, |eps|)[j].url
  {
    var r := KeptUpTo(eps, |eps|);
    KeptAreLast(eps, |eps|);
    forall i, j | 0 <= i < j < |r|
      ensures r[i].url != r[j].url
    {
      KeptOrder(eps, |eps|, i, j);
    }
  }

  /** Kept entries keep the order of the input. */
  lemma {:induction false} KeptOrder(eps: seq<Endpoint>, n: nat, i: nat, j: nat)
    requires n <= |eps| && i < j < |KeptUpTo(eps, n)|
    ensures exists a, b :: 0 <= a < b < n && KeptUpTo(eps, n)[i] == eps[a] && KeptUpTo(eps, n)[j] == eps[b] &&
              IsLast(eps, a) && IsLast(eps, b)
    ensures KeptUpTo(eps, n)[i].url != KeptUpTo(eps, n)[j].url
  {
    var prev := KeptUpTo(eps, n - 1);
    var cur := KeptUpTo(eps, n);
    KeptAreLast(eps, n - 1);
    if j < |prev| {
      KeptOrder(eps, n - 1, i, j);
      assert cur[i] == prev[i] && cur[j] == prev[j];
    } else {
      assert cur[j] == eps[n - 1] && IsLast(eps, n - 1);
      assert cur[i] == prev[i];
      var a :| 0 <= a < n - 1 && prev[i] == eps[a] && IsLast(eps, a);
      assert eps[n - 1].url != eps[a].url;
    }
  }

  /** Every URL offered survives in the kept endpoints. */
  lemma {:induction false} KeptCovers(eps: seq<Endpoint>)
    ensures OffersAll(KeptUpTo(eps, |eps|), eps)
  {
    var r := KeptUpTo(eps, |eps|);
    forall k | 0 <= k < |eps|
      ensures exists i :: 0 <= i < |r| && r[i].url == eps[k].url
    {
      HasLast(eps, k);
      var m :| k <= m < |eps| && eps[m].url == eps[k].url && IsLast(eps, m);
      LastIsKept(eps, |eps|, m);
      var i :| 0 <= i < |r| && r[i] == eps[m];
      assert r[i].url == eps[k].url;
    }
    assert OffersAll(r, eps);
  }

  /** Every URL of `eps` is offered by some endpoint of `r`. */
  predicate OffersAll(r: seq<Endpoint>, eps: seq<Endpoint>) {
    forall k :: 0 <= k < |eps| ==> exists i :: 0 <= i < |r| && r[i].url == eps[k].url
  }

  /** Everything kept is one of the endpoints offered. */
  lemma KeptFromInput(eps: seq<Endpoint>)
    ensures forall i :: 0 <= i < |KeptUpTo(eps, |eps|)| ==> KeptUpTo(eps, |eps|)[i] in eps
  {
    KeptAreLast(eps, |eps|);
  }

  /** The inner loop: whether no later endpoint repeats the URL of `eps[i]`. */
  method NoLaterSame(eps: seq<Endpoint>, i: nat) returns (good: bool)
    requires i < |eps|
    ensures good <==> IsLast(eps, i)
  {
    good := true;
    var j := i + 1;
    while j < |eps|
      invariant i + 1 <= j <= |eps|
      invariant good <==> forall j' :: i < j' < j ==> eps[j'].url != eps[i].url
    {
      if eps[i].url == eps[j].url {
        good := false;
      }
      j := j + 1;
    }
  }

  /** The loop of `fill_replica_db`: keep `endpoints[i]` only when no later
      endpoint has the same URL. */
  method KeepLast(eps: seq<Endpoint>) returns (r: seq<Endpoint>)
    ensures r == KeptUpTo(eps, |eps|)
  {
    r := [];
    var i := 0;
    while i < |eps|
      invariant 0 <= i <= |eps|
      invariant r == KeptUpTo(eps, i)
    {
      var good := NoLaterSame(eps, i);
      if good {
        r := r + [eps[i]];
      }
      i := i + 1;
    }
  }

  /** The endpoints `fill_replica_db` keeps have no repeated URL, lose no
      URL and are all among those offered. */
  method DedupEndpoints(eps: seq<Endpoint>) returns (r: seq<Endpoint>)
    ensures r == KeptUpTo(eps, |eps|)
    ensures forall i, j :: 0 <= i < j < |r| ==> r[i].url != r[j].url
    ensures OffersAll(r, eps)
    ensures forall i :: 0 <= i < |r| ==> r[i] in eps
  {
    r := KeepLast(eps);
    KeptDistinct(eps);
    KeptFromInput(eps);
    KeptCovers(eps);
  }

  // ---------------------------------------------------------------------
  // Downgrades in update_replica_db
  // ---------------------------------------------------------------------

  /** A file as the index reports it now; a missing checksum is None. */
  datatype RemoteFile = RemoteFile(checksum: Option<Str>, size: int, endpoints: seq<Endpoint>)

  /** The stored checksum and size after the update, the new file and
      dataset statuses, and whether anything changed. */
  datatype Updated = Updated(checksum: Str, size: int, status: int, dsStatus: int, changed: bool)

  /** Upper-casing ignores an earlier lower-casing. */
  lemma UpperOfLower(s: Str)
    ensures Upper(Lower(s)) == Upper(s)
  {
  }

  /** A text that upper-cases to `DUMMY` lower-cases to `dummy`. */
  lemma DummyLower(s: Str)
    requires Upper(s) == "DUMMY"
    ensures Lower(s) == "dummy"
  {
    assert forall k :: 0 <= k < 5 ==> UpperChar(s[k]) == "DUMMY"[k];
  }

  /** The checksum and size checks for one file found at the index. */
  function UpdateFile(f: ReplicaFile, dsStatus: int, remote: RemoteFile): (u: Updated)
    ensures u.status == f.status || (f.status == RETRIEVED && u.status == ERROR)
    ensures u.dsStatus == dsStatus || (dsStatus == RETRIEVED && u.dsStatus == ERROR)
    ensures u.size == remote.size
  {
    var rc := if remote.checksum.None? then "DUMMY" else remote.checksum.value;
    // the checksum, compared case-insensitively
    var ckChanged := Lower(f.checksum) != Lower(rc);
    var ck := if !ckChanged then f.checksum else if Upper(rc) == "DUMMY" then "DUMMY" else Lower(rc);
    var bad1 := ckChanged && Upper(ck) != "DUMMY";
    var st1 := if bad1 && f.status == RETRIEVED then ERROR else f.status;
    var ds1 := if bad1 && dsStatus == RETRIEVED then ERROR else dsStatus;
    // the size
    var bad2 := f.size != remote.size;
    var st2 := if bad2 && st1 == RETRIEVED then ERROR else st1;
    var ds2 := if bad2 && ds1 == RETRIEVED then ERROR else ds1;
    Updated(ck, remote.size, st2, ds2, ckChanged || bad2)
  }

  /** The remote record contradicts the stored one: another size, or a real
      checksum that differs up to case. */
  predicate Invalidates(f: ReplicaFile, remote: RemoteFile) {
    f.size != remote.size ||
    (remote.checksum.Some? && Upper(remote.checksum.value) != "DUMMY" &&
     Lower(f.checksum) != Lower(remote.checksum.value))
  }

  /** A RETRIEVED file or dataset becomes ERROR exactly when the remote
      record contradicts the stored one; every other status is kept, so
      files in their final directory or published are never downgraded. */
  lemma UpdateDowngrades(f: ReplicaFile, dsStatus: int, remote: RemoteFile)
    ensures UpdateFile(f, dsStatus, remote).status ==
              (if f.status == RETRIEVED && Invalidates(f, remote) then ERROR else f.status)
    ensures UpdateFile(f, dsStatus, remote).dsStatus ==
              (if dsStatus == RETRIEVED && Invalidates(f, remote) then ERROR else dsStatus)
  {
    var rc := if remote.checksum.None? then "DUMMY" else remote.checksum.value;
    UpperOfLower(rc);
    if remote.checksum.None? {
      assert Upper(rc) == "DUMMY";
    }
  }

  /** The file row as the update leaves it. */
  function Apply(f: ReplicaFile, u: Updated): ReplicaFile {
    f.(checksum := u.checksum, size := u.size, status := u.status)
  }

  /** Running the update again against the same index record changes
      nothing. */
  lemma UpdateSettles(f: ReplicaFile, dsStatus: int, remote: RemoteFile)
    ensures var u := UpdateFile(f, dsStatus, remote);
            UpdateFile(Apply(f, u), u.dsStatus, remote) == u.(changed := false)
  {
    var u := UpdateFile(f, dsStatus, remote);
    var rc := if remote.checksum.None? then "DUMMY" else remote.checksum.value;
    LowerIdempotent(rc);
    if Lower(f.checksum) != Lower(rc) && Upper(rc) == "DUMMY" {
      DummyLower(rc);
      assert Lower("DUMMY") == "dummy";
    }
  }

  /** The loop over the index's endpoints for a stored access row of type
      `ty` and URL `cur`: each endpoint of that type overwrites the URL,
      and the row is marked changed whenever the new URL differs from the
      one it replaces. Gives the final URL and the mark. */
  function EndpointLoop(eps: seq<Endpoint>, ty: Str, cur: Str): (r: (Str, bool))
    ensures !r.1 ==> r.0 == cur
    decreases |eps|
  {
    if |eps| == 0 then (cur, false)
    else
      var hit := eps[0].kind == ty;
      var u := if hit then eps[0].url else cur;
      var rest := EndpointLoop(eps[1..], ty, u);
      (rest.0, (hit && u != cur) || rest.1)
  }

  /** The row is marked changed exactly when some endpoint of its type
      has another URL than the stored one. */
  lemma {:induction false} EndpointLoopChanged(eps: seq<Endpoint>, ty: Str, cur: Str)
    ensures EndpointLoop(eps, ty, cur).1 <==> exists k :: 0 <= k < |eps| && eps[k].kind == ty && eps[k].url != cur
    decreases |eps|
  {
    if |eps| > 0 {
      EndpointLoopChanged(eps[1..], ty, cur);
      assert forall k :: 1 <= k < |eps| ==> eps[1..][k - 1] == eps[k];
      if exists k :: 0 <= k < |eps| && eps[k].kind == ty && eps[k].url != cur {
        var k :| 0 <= k < |eps| && eps[k].kind == ty && eps[k].url != cur;
        if k > 0 && !(eps[0].kind == ty && eps[0].url != cur) {
          assert eps[1..][k - 1] == eps[k];
        }
      }
    }
  }

  /** The final URL is that of the last endpoint of the row's type, and
      the stored one when the index lists none of that type. */
  lemma EndpointLoopLast(eps: seq<Endpoint>, ty: Str, cur: Str)
    ensures (forall k :: 0 <= k < |eps| ==> eps[k].kind != ty) ==> EndpointLoop(eps, ty, cur).0 == cur
    ensures forall k :: 0 <= k < |eps| && eps[k].kind == ty && (forall j :: k < j < |eps| ==> eps[j].kind != ty) ==>
              EndpointLoop(eps, ty, cur).0 == eps[k].url
  {
    EndpointLoopNone(eps, ty, cur);
    forall k | 0 <= k < |eps| && eps[k].kind == ty && (forall j :: k < j < |eps| ==> eps[j].kind != ty)
      ensures EndpointLoop(eps, ty, cur).0 == eps[k].url
    {
      EndpointLoopAt(eps, ty, cur, k);
    }
  }

  lemma {:induction false} EndpointLoopNone(eps: seq<Endpoint>, ty: Str, cur: Str)
    ensures (forall k :: 0 <= k < |eps| ==> eps[k].kind != ty) ==> EndpointLoop(eps, ty, cur).0 == cur
    decreases |eps|
  {
    if |eps| > 0 && forall k :: 0 <= k < |eps| ==> eps[k].kind != ty {
      assert eps[0].kind != ty;
      assert forall j :: 0 <= j < |eps[1..]| ==> eps[1..][j] == eps[j + 1];
      EndpointLoopNone(eps[1..], ty, cur);
    }
  }

  lemma {:induction false} EndpointLoopAt(eps: seq<Endpoint>, ty: Str, cur: Str, k: int)
    requires 0 <= k < |eps| && eps[k].kind == ty
    requires forall j :: k < j < |eps| ==> eps[j].kind != ty
    ensures EndpointLoop(eps, ty, cur).0 == eps[k].url
    decreases |eps|
  {
    var u := if eps[0].kind == ty then eps[0].url else cur;
    assert forall j :: 0 <= j < |eps[1..]| ==> eps[1..][j] == eps[j + 1];
    if k == 0 {
      EndpointLoopNone(eps[1..], ty, u);
    } else {
      EndpointLoopAt(eps[1..], ty, u, k - 1);
    }
  }

  /** A stored access row after the loop over the endpoints. */
  function Repointed(a: Access, eps: seq<Endpoint>): Access {
    a.(url := EndpointLoop(eps, a.accessType, a.url).0)
  }

  /** Another stored access row has the same type as row `i`. */
  predicate Shared(acc: seq<Access>, i: int)
    requires 0 <= i < |acc|
  {
    exists j :: 0 <= j < |acc| && j != i && acc[j].accessType == acc[i].accessType
  }

  /** The rows built from the endpoints of a file that had none. */
  function FromEndpoints(eps: seq<Endpoint>): (r: seq<Access>)
    ensures |r| == |eps|
    ensures forall i :: 0 <= i < |eps| ==> r[i] == Access(eps[i].url, eps[i].kind)
  {
    seq(|eps|, i requires 0 <= i < |eps| => Access(eps[i].url, eps[i].kind))
  }

  /** The access rows of a file after `update_replica_db`, and whether they
      changed. A file without rows gets one per endpoint. With rows, each
      is repointed at the endpoints of its type: the one-row branch does
      so directly, and the several-row branch, as written, does so for
      every row, since the per-type count reads the dictionary with
      `getattr`, which never finds an entry, so no row is ever seen as
      shared and skipped. */
  function RewriteAccess(acc: seq<Access>, eps: seq<Endpoint>): (r: (seq<Access>, bool))
  {
    if |acc| == 0 then (FromEndpoints(eps), |eps| > 0)
    else (seq(|acc|, i requires 0 <= i < |acc| => Repointed(acc[i], eps)),
          exists i :: 0 <= i < |acc| && EndpointLoop(eps, acc[i].accessType, acc[i].url).1)
  }

  /** The several-row branch as its comments intend: a row whose type
      another row shares is left alone. */
  function RewriteAccessChecked(acc: seq<Access>, eps: seq<Endpoint>): (r: (seq<Access>, bool))
  {
    if |acc| == 0 then (FromEndpoints(eps), |eps| > 0)
    else (seq(|acc|, i requires 0 <= i < |acc| => if Shared(acc, i) then acc[i] else Repointed(acc[i], eps)),
          exists i :: 0 <= i < |acc| && !Shared(acc, i) && EndpointLoop(eps, acc[i].accessType, acc[i].url).1)
  }

  /** An endpoint of type `ty` whose URL is not `url`. */
  predicate Differs(eps: seq<Endpoint>, ty: Str, url: Str) {
    exists k :: 0 <= k < |eps| && eps[k].kind == ty && eps[k].url != url
  }

  /** With rows, their number and types are kept, a row whose type the
      index does not list keeps its URL, and the rows change exactly when
      some endpoint of a row's type brings another URL; without rows, the
      endpoints become the rows, in order. */
  lemma RewriteAccessSpec(acc: seq<Access>, eps: seq<Endpoint>)
    ensures var r := RewriteAccess(acc, eps);
            |acc| == 0 ==> r.0 == FromEndpoints(eps) && (r.1 <==> |eps| > 0)
    ensures var r := RewriteAccess(acc, eps);
            |acc| > 0 ==>
              |r.0| == |acc|
              && (forall i :: 0 <= i < |acc| ==> r.0[i].accessType == acc[i].accessType)
              && (forall i :: 0 <= i < |acc| && (forall k :: 0 <= k < |eps| ==> eps[k].kind != acc[i].accessType) ==> r.0[i] == acc[i])
              && (r.1 <==> exists i :: 0 <= i < |acc| && Differs(eps, acc[i].accessType, acc[i].url))
  {
    forall i | 0 <= i < |acc|
      ensures EndpointLoop(eps, acc[i].accessType, acc[i].url).1 <==> Differs(eps, acc[i].accessType, acc[i].url)
      ensures (forall k :: 0 <= k < |eps| ==> eps[k].kind != acc[i].accessType) ==> Repointed(acc[i], eps) == acc[i]
    {
      EndpointLoopChanged(eps, acc[i].accessType, acc[i].url);
      EndpointLoopLast(eps, acc[i].accessType, acc[i].url);
    }
  }

  /** As written, two rows of one type listed by the index end with the
      same URL, that of the last endpoint of the type: one of them is
      lost. */
  lemma SharedRowsMerged(acc: seq<Access>, eps: seq<Endpoint>, i: int, j: int, k: int)
    requires 0 <= i < |acc| && 0 <= j < |acc| && i != j && acc[i].accessType == acc[j].accessType
    requires 0 <= k < |eps| && eps[k].kind == acc[i].accessType
    requires forall m :: k < m < |eps| ==> eps[m].kind != acc[i].accessType
    ensures Shared(acc, i) && Shared(acc, j)
    ensures RewriteAccess(acc, eps).0[i].url == eps[k].url == RewriteAccess(acc, eps).0[j].url
  {
    EndpointLoopLast(eps, acc[i].accessType, acc[i].url);
    EndpointLoopLast(eps, acc[j].accessType, acc[j].url);
  }

  /** As intended, a row whose type another row shares is never touched,
      and every other row is repointed as in the written form. */
  lemma RewriteCheckedKeepsShared(acc: seq<Access>, eps: seq<Endpoint>)
    requires |acc| > 0
    ensures |RewriteAccessChecked(acc, eps).0| == |acc|
    ensures forall i :: 0 <= i < |acc| && Shared(acc, i) ==> RewriteAccessChecked(acc, eps).0[i] == acc[i]
    ensures forall i :: 0 <= i < |acc| && !Shared(acc, i) ==> RewriteAccessChecked(acc, eps).0[i] == RewriteAccess(acc, eps).0[i]
    ensures RewriteAccessChecked(acc, eps).1 <==>
              exists i :: 0 <= i < |acc| && !Shared(acc, i) && Differs(eps, acc[i].accessType, acc[i].url)
  {
    forall i | 0 <= i < |acc|
      ensures EndpointLoop(eps, acc[i].accessType, acc[i].url).1 <==> Differs(eps, acc[i].accessType, acc[i].url)
    {
      EndpointLoopChanged(eps, acc[i].accessType, acc[i].url);
    }
  }

  /** Once a file has rows, a second pass against the same endpoints
      leaves them as they are. */
  lemma {:induction false} EndpointLoopSettles(eps: seq<Endpoint>, ty: Str, cur: Str)
    ensures var u := EndpointLoop(eps, ty, cur).0;
            EndpointLoop(eps, ty, u).0 == u
  {
    EndpointLoopLast(eps, ty, cur);
    var u := EndpointLoop(eps, ty, cur).0;
    EndpointLoopLast(eps, ty, u);
    if exists k :: 0 <= k < |eps| && eps[k].kind == ty {
      var k := LastOfType(eps, ty);
    }
  }

  /** The index of the last endpoint of type `ty`, when there is one. */
  lemma LastOfType(eps: seq<Endpoint>, ty: Str) returns (k: int)
    requires exists k :: 0 <= k < |eps| && eps[k].kind == ty
    ensures 0 <= k < |eps| && eps[k].kind == ty
    ensures forall j :: k < j < |eps| ==> eps[j].kind != ty
    decreases |eps|
  {
    var n := |eps| - 1;
    if eps[n].kind == ty {
      k := n;
    } else {
      assert exists k :: 0 <= k < |eps[..n]| && eps[..n][k].kind == ty by {
        var m :| 0 <= m < |eps| && eps[m].kind == ty;
        assert eps[..n][m] == eps[m];
      }
      k := LastOfType(eps[..n], ty);
      assert eps[..n][k] == eps[k];
    }
  }

  /** Once a file has rows, the rows a second pass leaves are those of
      the first. */
  lemma AccessRowsSettle(acc: seq<Access>, eps: seq<Endpoint>)
    requires |acc| > 0
    ensures RewriteAccess(RewriteAccess(acc, eps).0, eps).0 == RewriteAccess(acc, eps).0
  {
    var r := RewriteAccess(acc, eps).0;
    forall i | 0 <= i < |acc| ensures Repointed(r[i], eps) == r[i] {
      EndpointLoopSettles(eps, acc[i].accessType, acc[i].url);
    }
  }

  /** A file row found at the index after `update_replica_db`: checksum,
      size and status from the checks above and access rows repointed;
      with the dataset status and whether the row changed. */
  function UpdateRow(f: ReplicaFile, dsStatus: int, remote: RemoteFile): (r: (ReplicaFile, int, bool))
    ensures r.0.absPath == f.absPath
  {
    var u := UpdateFile(f, dsStatus, remote);
    var a := RewriteAccess(f.access, remote.endpoints);
    (Apply(f, u).(access := a.0), u.dsStatus, u.changed || a.1)
  }

  /** The update changes a file: the checksum differs up to case from the
      index's (a missing one counting as `DUMMY`), the size differs, the
      file had no rows and the index lists endpoints, or an endpoint of a
      row's type brings another URL. */
  predicate Changes(f: ReplicaFile, remote: RemoteFile) {
    var rc := if remote.checksum.None? then "DUMMY" else remote.checksum.value;
    Lower(f.checksum) != Lower(rc) || f.size != remote.size
    || (|f.access| == 0 && |remote.endpoints| > 0)
    || (exists i :: 0 <= i < |f.access| && Differs(remote.endpoints, f.access[i].accessType, f.access[i].url))
  }

  /** A row is counted as changed exactly when the update changes it,
      whatever the dataset status. */
  lemma RowChanges(f: ReplicaFile, dsStatus: int, remote: RemoteFile)
    ensures UpdateRow(f, dsStatus, remote).2 <==> Changes(f, remote)
  {
    RewriteAccessSpec(f.access, remote.endpoints);
  }

  /** The file rows of a dataset, each with its index record looked up by
      file name (missing when the index no longer lists it); the dataset
      status as the updates leave it, and `changed_files`. */
  function UpdateFiles(fs: seq<ReplicaFile>, dsStatus: int, remotes: map<Str, RemoteFile>): (r: (seq<ReplicaFile>, int, nat))
    ensures |r.0| == |fs|
    ensures r.2 <= |fs|
    decreases |fs|
  {
    if |fs| == 0 then ([], dsStatus, 0)
    else
      var name := Basename(fs[0].absPath);
      var (f1, ds1, c) := if name in remotes then UpdateRow(fs[0], dsStatus, remotes[name])
                          else (fs[0], dsStatus, false);
      var rest := UpdateFiles(fs[1..], ds1, remotes);
      ([f1] + rest.0, rest.1, (if c then 1 else 0) + rest.2)
  }

  /** The file at position `k` is listed by the index and changed by the update. */
  predicate ChangedAt(fs: seq<ReplicaFile>, remotes: map<Str, RemoteFile>, k: int)
    requires 0 <= k < |fs|
  {
    Basename(fs[k].absPath) in remotes && Changes(fs[k], remotes[Basename(fs[k].absPath)])
  }

  /** No file is counted exactly when none listed by the index changes,
      and every file is counted exactly when each is listed and changes. */
  lemma ChangedFilesCount(fs: seq<ReplicaFile>, dsStatus: int, remotes: map<Str, RemoteFile>)
    ensures UpdateFiles(fs, dsStatus, remotes).2 == 0 <==> forall k :: 0 <= k < |fs| ==> !ChangedAt(fs, remotes, k)
    ensures UpdateFiles(fs, dsStatus, remotes).2 == |fs| <==> forall k :: 0 <= k < |fs| ==> ChangedAt(fs, remotes, k)
  {
    ChangedFilesNone(fs, dsStatus, remotes);
    ChangedFilesAll(fs, dsStatus, remotes);
  }

  /** The first file is counted exactly when it changes, and the rest
      are counted from the dataset status it leaves. */
  lemma ChangedFilesStep(fs: seq<ReplicaFile>, dsStatus: int, remotes: map<Str, RemoteFile>)
    requires |fs| > 0
    ensures var name := Basename(fs[0].absPath);
            var ds1 := if name in remotes then UpdateRow(fs[0], dsStatus, remotes[name]).1 else dsStatus;
            UpdateFiles(fs, dsStatus, remotes).2
              == (if ChangedAt(fs, remotes, 0) then 1 else 0) + UpdateFiles(fs[1..], ds1, remotes).2
    ensures forall k :: 1 <= k < |fs| ==> (ChangedAt(fs, remotes, k) <==> ChangedAt(fs[1..], remotes, k - 1))
    ensures forall j :: 0 <= j < |fs| - 1 ==> (ChangedAt(fs[1..], remotes, j) <==> ChangedAt(fs, remotes, j + 1))
  {
    var name := Basename(fs[0].absPath);
    if name in remotes {
      RowChanges(fs[0], dsStatus, remotes[name]);
    }
    assert forall k :: 1 <= k < |fs| ==> fs[1..][k - 1] == fs[k];
    assert forall j :: 0 <= j < |fs| - 1 ==> fs[1..][j] == fs[j + 1];
  }

  lemma {:induction false} ChangedFilesNone(fs: seq<ReplicaFile>, dsStatus: int, remotes: map<Str, RemoteFile>)
    ensures UpdateFiles(fs, dsStatus, remotes).2 == 0 <==> forall k :: 0 <= k < |fs| ==> !ChangedAt(fs, remotes, k)
    decreases |fs|
  {
    if |fs| > 0 {
      var name := Basename(fs[0].absPath);
      var ds1 := if name in remotes then UpdateRow(fs[0], dsStatus, remotes[name]).1 else dsStatus;
      ChangedFilesStep(fs, dsStatus, remotes);
      ChangedFilesNone(fs[1..], ds1, remotes);
    }
  }

  lemma {:induction false} ChangedFilesAll(fs: seq<ReplicaFile>, dsStatus: int, remotes: map<Str, RemoteFile>)
    ensures UpdateFiles(fs, dsStatus, remotes).2 == |fs| <==> forall k :: 0 <= k < |fs| ==> ChangedAt(fs, remotes, k)
    decreases |fs|
  {
    if |fs| > 0 {
      var name := Basename(fs[0].absPath);
      var ds1 := if name in remotes then UpdateRow(fs[0], dsStatus, remotes[name]).1 else dsStatus;
      ChangedFilesStep(fs, dsStatus, remotes);
      ChangedFilesAll(fs[1..], ds1, remotes);
    }
  }

  /** Some listed file is contradicted by the index. */
  predicate AnyInvalidated(fs: seq<ReplicaFile>, remotes: map<Str, RemoteFile>) {
    exists k :: 0 <= k < |fs| && Basename(fs[k].absPath) in remotes &&
      Invalidates(fs[k], remotes[Basename(fs[k].absPath)])
  }

  /** The dataset goes from RETRIEVED to ERROR exactly when one of its
      files is contradicted by the index; any other status is kept. */
  lemma {:induction false} DatasetDowngrade(fs: seq<ReplicaFile>, dsStatus: int, remotes: map<Str, RemoteFile>)
    ensures UpdateFiles(fs, dsStatus, remotes).1 ==
              (if dsStatus == RETRIEVED && AnyInvalidated(fs, remotes) then ERROR else dsStatus)
    decreases |fs|
  {
    if |fs| > 0 {
      var name := Basename(fs[0].absPath);
      var ds1 := if name in remotes then UpdateFile(fs[0], dsStatus, remotes[name]).dsStatus else dsStatus;
      if name in remotes {
        UpdateDowngrades(fs[0], dsStatus, remotes[name]);
      }
      DatasetDowngrade(fs[1..], ds1, remotes);
      assert forall k :: 1 <= k < |fs| ==> fs[1..][k - 1] == fs[k];
      if AnyInvalidated(fs[1..], remotes) {
        var k :| 0 <= k < |fs[1..]| && Basename(fs[1..][k].absPath) in remotes &&
                 Invalidates(fs[1..][k], remotes[Basename(fs[1..][k].absPath)]);
        assert fs[k + 1] == fs[1..][k];
      }
      if AnyInvalidated(fs, remotes) && !(name in remotes && Invalidates(fs[0], remotes[name])) {
        var k :| 0 <= k < |fs| && Basename(fs[k].absPath) in remotes &&
                 Invalidates(fs[k], remotes[Basename(fs[k].absPath)]);
        assert k > 0;
        assert fs[1..][k - 1] == fs[k];
      }
    }
  }

  // ---------------------------------------------------------------------
  // finish_first_checksum_process
  // ---------------------------------------------------------------------

  /** A checksum process started for one file: the file's catalog checksum
      and status, and the process's exit code and standard output. */
  datatype ChecksumProc = ChecksumProc(checksum: Str, status: int, exitCode: int, output: Str)

  /** The remaining processes (None after a failed process), the file's new
      status, the dataset's new status and the `ds_incomplete` flag. */
  datatype Finished = Finished(rest: Option<seq<ChecksumProc>>, fileStatus: int, dsStatus: int, incomplete: bool)

  /** The first 32 characters of the output: an MD5 in hexadecimal. */
  function Digest(p: ChecksumProc): Str {
    SliceTo(p.output, 32)
  }

  /** The process failed or computed another checksum than the catalog's. */
  predicate Bad(p: ChecksumProc) {
    p.exitCode != 0 || Digest(p) != p.checksum
  }

  function Max(a: int, b: int): int {
    if a < b then b else a
  }

  /** Waits for the first process and books its result. Unpublished files
      become RETRIEVED or ERROR; a published file is only ever raised to
      FINAL_DIR; a failed process ends the batch. */
  function FinishFirst(procs: seq<ChecksumProc>, dsStatus: int, incomplete: bool, published: bool): (r: Result<Finished, PyError>)
    ensures r.Failure? <==> |procs| == 0
    ensures r.Success? ==> (r.value.rest.None? <==> procs[0].exitCode != 0)
    ensures r.Success? && r.value.rest.Some? ==> r.value.rest.value == procs[1..]
    ensures r.Success? && !published ==>
              (r.value.fileStatus == ERROR <==> Bad(procs[0])) &&
              (r.value.fileStatus == RETRIEVED <==> !Bad(procs[0])) &&
              (r.value.dsStatus == (if Bad(procs[0]) then ERROR else dsStatus)) &&
              (r.value.incomplete == (incomplete || Bad(procs[0])))
    ensures r.Success? && published ==>
              r.value.dsStatus == dsStatus && r.value.incomplete == incomplete &&
              r.value.fileStatus >= procs[0].status &&
              (r.value.fileStatus != procs[0].status ==> r.value.fileStatus == FINAL_DIR && !Bad(procs[0]))
  {
    if |procs| == 0 then Failure(IndexError)
    else
      var p := procs[0];
      if p.exitCode != 0 then
        if published then Success(Finished(None, p.status, dsStatus, incomplete))
        else Success(Finished(None, ERROR, ERROR, true))
      else if published then
        Success(Finished(Some(procs[1..]), if Digest(p) == p.checksum then Max(p.status, FINAL_DIR) else p.status,
                         dsStatus, incomplete))
      else if Digest(p) != p.checksum then
        Success(Finished(Some(procs[1..]), ERROR, ERROR, true))
      else
        Success(Finished(Some(procs[1..]), RETRIEVED, dsStatus, incomplete))
  }

  /** The number of processes handled before the batch stops: up to and
      including the first failed one. */
  function Handled(procs: seq<ChecksumProc>): (n: nat)
    ensures n <= |procs|
    ensures forall k :: 0 <= k < n - 1 ==> procs[k].exitCode == 0
    ensures n < |procs| ==> n > 0 && procs[n - 1].exitCode != 0
    ensures n == |procs| && n > 0 ==> (forall k :: 0 <= k < n - 1 ==> procs[k].exitCode == 0)
    decreases |procs|
  {
    if |procs| == 0 then 0
    else if procs[0].exitCode != 0 then 1
    else
      var n := Handled(procs[1..]);
      assert forall k :: 1 <= k < |procs| ==> procs[1..][k - 1] == procs[k];
      n + 1
  }

  /** Some handled process is bad, for unpublished data. */
  predicate AnyBad(procs: seq<ChecksumProc>, n: nat, published: bool)
    requires n <= |procs|
  {
    !published && exists k :: 0 <= k < n && Bad(procs[k])
  }

  /** The loop that drains the remaining processes after the last file:
      the dataset is marked ERROR and incomplete exactly when one of the
      processes it waited for failed or disagreed with the catalog. */
  method DrainChecksums(procs: seq<ChecksumProc>, dsStatus: int, incomplete: bool, published: bool)
    returns (ds: int, inc: bool)
    ensures inc == (incomplete || AnyBad(procs, Handled(procs), published))
    ensures ds == (if AnyBad(procs, Handled(procs), published) then ERROR else dsStatus)
  {
    var ps := procs;
    var done: nat := 0;
    var stopped := false;
    ds, inc := dsStatus, incomplete;
    while |ps| > 0 && !stopped
      invariant done <= |procs|
      invariant !stopped ==> ps == procs[done..] && forall k :: 0 <= k < done ==> procs[k].exitCode == 0
      invariant stopped ==> done == Handled(procs)
      invariant inc == (incomplete || AnyBad(procs, done, published))
      invariant ds == (if AnyBad(procs, done, published) then ERROR else dsStatus)
      decreases |ps|, if stopped then 0 else 1
    {
      var r := FinishFirst(ps, ds, inc, published).value;
      assert ps[0] == procs[done];
      ds, inc := r.dsStatus, r.incomplete;
      done := done + 1;
      assert AnyBad(procs, done, published) <==> AnyBad(procs, done - 1, published) || (!published && Bad(procs[done - 1]));
      if r.rest.None? {
        stopped := true;
        HandledAtFailure(procs, done - 1);
      } else {
        ps := r.rest.value;
      }
    }
    if !stopped {
      HandledAllPassed(procs, done);
    }
  }

  lemma {:induction false} HandledAtFailure(procs: seq<ChecksumProc>, i: nat)
    requires i < |procs| && procs[i].exitCode != 0
    requires forall k :: 0 <= k < i ==> procs[k].exitCode == 0
    ensures Handled(procs) == i + 1
    decreases i
  {
    if i > 0 {
      HandledAtFailure(procs[1..], i - 1);
    }
  }

  lemma {:induction false} HandledAllPassed(procs: seq<ChecksumProc>, n: nat)
    requires n == |procs|
    requires forall k :: 0 <= k < n ==> procs[k].exitCode == 0
    ensures Handled(procs) == n
    decreases n
  {
    if n > 0 {
      HandledAllPassed(procs[1..], n - 1);
    }
  }

  // ---------------------------------------------------------------------
  // The status roll-up at the end of verify_datasets
  // ---------------------------------------------------------------------

  /** Every file is INIT or UNINIT: nothing was attempted yet. */
  predicate AllUnstarted(files: seq<int>) {
    forall k :: 0 <= k < |files| ==> files[k] == INIT || files[k] == UNINIT
  }

  /** Every file is in its final directory or beyond. */
  predicate AllFinal(files: seq<int>) {
    forall k :: 0 <= k < |files| ==> files[k] >= FINAL_DIR
  }

  /** The dataset status after its files were checked. `checksumsDone`
      stands for `checksums_done == True or do_checksums == "Verified"`. */
  function RollUp(status: int, files: seq<int>, incomplete: bool, filecount: int, checksumsDone: bool): (r: int)
    // an incomplete dataset is at most DOWNLOADING, back to INIT when no file was started
    ensures incomplete ==> r <= DOWNLOADING
    ensures incomplete ==> (r == INIT <==> status == INIT || (status >= DOWNLOADING && AllUnstarted(files)))
    ensures incomplete && status < DOWNLOADING ==> r == status
    // a complete dataset without a file count is left at VERIFYING
    ensures !incomplete && filecount == 0 ==> r == VERIFYING
    // otherwise a complete dataset is at least VERIFYING, and a retrieved one is never lowered
    ensures !incomplete && filecount != 0 ==> r >= VERIFYING
    ensures !incomplete && filecount != 0 && status >= RETRIEVED ==> r >= status
    ensures !incomplete && filecount != 0 && checksumsDone ==> r >= status && r >= RETRIEVED
    ensures !incomplete && filecount != 0 && !checksumsDone && status < RETRIEVED ==> r == VERIFYING
    // FINAL_DIR is reached from RETRIEVED only when every file is final
    ensures r == FINAL_DIR && status != FINAL_DIR ==> AllFinal(files)
    ensures r == RETRIEVED ==> !AllFinal(files)
  {
    var s1 :=
      if incomplete then
        var c := if status > DOWNLOADING then DOWNLOADING else status;
        if c == DOWNLOADING then (if AllUnstarted(files) then INIT else DOWNLOADING) else c
      else if filecount == 0 then VERIFYING
      else if checksumsDone then (if status < RETRIEVED then RETRIEVED else status)
      else (if status < RETRIEVED then VERIFYING else status);
    if s1 == RETRIEVED && AllFinal(files) then FINAL_DIR else s1
  }

  // ---------------------------------------------------------------------
  // no_v and the published-version comparison
  // ---------------------------------------------------------------------

  /** `no_v(x)` for a str or None: one leading `v` is dropped from a str
      longer than one character; the empty str raises IndexError. */
  function NoV(v: Option<Str>): (r: Result<Option<Str>, PyError>)
    ensures r.Failure? <==> v == Some([])
    ensures r.Success? ==> (r.value.None? <==> v.None?)
    ensures r.Success? && v.Some? ==> v.value == r.value.value || v.value == "v" + r.value.value
  {
    match v
    case None => Success(None)
    case Some(s) =>
      if |s| == 0 then Failure(IndexError)
      else if s[0] == 'v' && |s| > 1 then
        assert s == "v" + s[1..];
        Success(Some(s[1..]))
      else Success(v)
  }

  /** `no_v(pubversion) == no_v(str(dataset.version))` */
  function SameVersion(pubversion: Option<Str>, version: int): Result<bool, PyError> {
    var a :- NoV(pubversion);
    var b :- NoV(Some(IntToStr(version)));
    Success(a == b)
  }

  /** A published version matches the dataset version with or without its
      `v`; an unknown one never matches. */
  lemma SameVersionWithOrWithoutV(version: int)
    ensures SameVersion(Some(IntToStr(version)), version) == Success(true)
    ensures SameVersion(Some("v" + IntToStr(version)), version) == Success(true)
    ensures SameVersion(None, version) == Success(false)
  {
    var t := IntToStr(version);
    assert t[0] != 'v';
    assert ("v" + t)[1..] == t;
  }
}
