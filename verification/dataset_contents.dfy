/** The report on partly downloaded datasets: for each dataset, the number
    of its files per status (as the database groups them), a download
    priority from how much of it is verified and what kind of dataset it
    is, the running totals, and the rule deciding for which datasets a
    download list is made. The database queries, the printing, the time
    stamp of a list's file name and the list making itself are left out. */
module DatasetContents {
  import opened Wrappers
  import opened PyStr

  /** A row of `SELECT status, COUNT(status) … GROUP BY status`. */
  datatype StatusCount = StatusCount(status: int, count: nat)

  /** `allnfd.get(s, 0)`: the count of the last row of that status, or 0. */
  function Get(allnf: seq<StatusCount>, s: int): (r: nat)
    ensures r > 0 ==> exists k :: 0 <= k < |allnf| && allnf[k].status == s && allnf[k].count == r
    decreases |allnf|
  {
    if |allnf| == 0 then 0
    else
      var n := |allnf| - 1;
      if allnf[n].status == s then allnf[n].count else Get(allnf[..n], s)
  }

  /** `sum(f[1] for f in allnf)`. */
  function Sum(allnf: seq<StatusCount>): nat
    decreases |allnf|
  {
    if |allnf| == 0 then 0 else Sum(allnf[..|allnf| - 1]) + allnf[|allnf| - 1].count
  }

  /** The counts reported for a dataset: all files; not attempted (status
      0 or 10); chosen for download (20); downloaded (30); verified (100);
      failed (-1). */
  datatype Counts = Counts(files: nat, s010: nat, s20: nat, s30: nat, s100: nat, sm1: nat)

  function CountsOf(allnf: seq<StatusCount>): Counts {
    Counts(Sum(allnf), Get(allnf, 0) + Get(allnf, 10), Get(allnf, 20), Get(allnf, 30), Get(allnf, 100), Get(allnf, -1))
  }

  /** The statuses that are reported on their own. */
  const Reported: seq<int> := [0, 10, 20, 30, 100, -1]

  /** The sum of the counts looked up for a list of statuses. */
  function SumGets(allnf: seq<StatusCount>, ss: seq<int>): nat
    decreases |ss|
  {
    if |ss| == 0 then 0 else Get(allnf, ss[0]) + SumGets(allnf, ss[1..])
  }

  /** Looking up distinct statuses after one more row changes only the
      lookup of that row's status. */
  lemma {:induction false} SumGetsStep(allnf: seq<StatusCount>, ss: seq<int>)
    requires |allnf| > 0
    requires forall a, b :: 0 <= a < b < |ss| ==> ss[a] != ss[b]
    ensures var n := |allnf| - 1;
            SumGets(allnf, ss) <= SumGets(allnf[..n], ss) + allnf[n].count
    ensures var n := |allnf| - 1;
            allnf[n].status !in ss ==> SumGets(allnf, ss) == SumGets(allnf[..n], ss)
    decreases |ss|
  {
    if |ss| > 0 {
      var n := |allnf| - 1;
      SumGetsStep(allnf, ss[1..]);
      if ss[0] == allnf[n].status {
        SumGetsAbsent(allnf, ss[1..]);
      }
    }
  }

  /** A status not looked up does not change the sum when its row comes last. */
  lemma {:induction false} SumGetsAbsent(allnf: seq<StatusCount>, ss: seq<int>)
    requires |allnf| > 0 && allnf[|allnf| - 1].status !in ss
    ensures SumGets(allnf, ss) == SumGets(allnf[..|allnf| - 1], ss)
    decreases |ss|
  {
    if |ss| > 0 {
      SumGetsAbsent(allnf, ss[1..]);
    }
  }

  /** The counts looked up for distinct statuses never exceed the total. */
  lemma {:induction false} SumGetsWithin(allnf: seq<StatusCount>, ss: seq<int>)
    requires forall a, b :: 0 <= a < b < |ss| ==> ss[a] != ss[b]
    ensures SumGets(allnf, ss) <= Sum(allnf)
    decreases |allnf|
  {
    if |allnf| == 0 {
      SumGetsEmpty(ss);
    } else {
      SumGetsWithin(allnf[..|allnf| - 1], ss);
      SumGetsStep(allnf, ss);
    }
  }

  lemma {:induction false} SumGetsEmpty(ss: seq<int>)
    ensures SumGets([], ss) == 0
    decreases |ss|
  {
    if |ss| > 0 {
      SumGetsEmpty(ss[1..]);
    }
  }

  /** The per-status counts of a dataset add up to at most its file count
      (other statuses make up the rest). */
  lemma CountsWithinTotal(allnf: seq<StatusCount>)
    ensures var c := CountsOf(allnf);
            c.s010 + c.s20 + c.s30 + c.s100 + c.sm1 <= c.files
  {
    SumGetsWithin(allnf, Reported);
    assert SumGets(allnf, Reported)
        == Get(allnf, 0) + Get(allnf, 10) + Get(allnf, 20) + Get(allnf, 30) + Get(allnf, 100) + Get(allnf, -1);
  }

  // ---------------------------------------------------------------------
  // The download priority
  // ---------------------------------------------------------------------

  /** `s.find(sub) > 0`: found, and not at the very start. */
  predicate FoundAfterStart(s: Str, sub: Str) {
    Find(s, sub) > 0
  }

  /** A main experiment: historical, rcp85, rcp45 or piControl. */
  predicate MainExperiment(name: Str) {
    FoundAfterStart(name, ".historical.") || FoundAfterStart(name, ".rcp85.")
    || FoundAfterStart(name, ".rcp45.") || FoundAfterStart(name, ".piControl.")
  }

  /** More than half the files verified, but not all: `nfiles100 <
      nfiles and nfiles100 > 0.5*nfiles`, the half compared exactly. */
  predicate MostlyVerified(c: Counts) {
    c.s100 < c.files && 2 * c.s100 > c.files
  }

  /** `dpri`: 9 to 5 for a mostly verified dataset (monthly atmosphere
      of a main experiment first, then other non-decadal monthly
      atmosphere, then decadal monthly atmosphere, then other
      non-decadal, then other decadal), 2 for another incomplete monthly
      atmosphere dataset, and 0 otherwise. */
  function Priority(name: Str, c: Counts): (r: int)
    ensures r in {0, 2, 5, 6, 7, 8, 9}
    ensures r >= 5 <==> MostlyVerified(c)
    ensures r == 2 <==> !MostlyVerified(c) && c.s100 < c.files && FoundAfterStart(name, "mon.atmos")
    ensures c.s100 >= c.files ==> r == 0
    ensures r == 9 <==> MostlyVerified(c) && FoundAfterStart(name, "mon.atmos") && MainExperiment(name)
    ensures MostlyVerified(c) && FoundAfterStart(name, "mon.atmos") ==> r >= 7
  {
    if MostlyVerified(c) then
      if FoundAfterStart(name, "mon.atmos") then
        if MainExperiment(name) then 9
        else if Find(name, ".decadal") < 0 then 8
        else 7
      else if Find(name, ".decadal") < 0 then 6
      else 5
    else if c.s100 < c.files && FoundAfterStart(name, "mon.atmos") then 2
    else 0
  }

  // ---------------------------------------------------------------------
  // The survey
  // ---------------------------------------------------------------------

  /** One dataset's line of the report. */
  datatype Line = Line(name: Str, priority: int, counts: Counts)

  /** `make_dl_lists`: `False`, `True`, or a minimum priority. */
  datatype ListSetting = Off | On | AtLeast(min: int)

  /** Whether a dataset of this priority gets a download list: never
      when the setting is `False` itself; `True` compares as 1; a number
      is the minimum priority. */
  function MakesList(priority: int, setting: ListSetting): (r: bool)
  {
    match setting
    case Off => false
    case On => priority >= 1
    case AtLeast(k) => priority >= k
  }

  /** A dataset of the highest priority. */
  predicate Urgent(d: (Str, seq<StatusCount>)) {
    var c := CountsOf(d.1);
    MostlyVerified(c) && FoundAfterStart(d.0, "mon.atmos") && MainExperiment(d.0)
  }

  /** The line the survey writes for a dataset. */
  function LineOf(d: (Str, seq<StatusCount>)): Line {
    Line(d.0, Priority(d.0, CountsOf(d.1)), CountsOf(d.1))
  }

  /** The report: a line per dataset with any files, in order, skipping
      datasets with none. */
  function Survey(datasets: seq<(Str, seq<StatusCount>)>): (r: seq<Line>)
    ensures |r| <= |datasets|
    decreases |datasets|
  {
    if |datasets| == 0 then []
    else
      var n := |datasets| - 1;
      var init := Survey(datasets[..n]);
      if CountsOf(datasets[n].1).files == 0 then init else init + [LineOf(datasets[n])]
  }

  /** One more dataset adds its line when it has files. */
  lemma SurveyStep(datasets: seq<(Str, seq<StatusCount>)>, n: nat)
    requires n == |datasets| - 1
    ensures Survey(datasets) == if CountsOf(datasets[n].1).files == 0 then Survey(datasets[..n])
                                else Survey(datasets[..n]) + [LineOf(datasets[n])]
  {
  }

  /** The names of the datasets a list is made for, in order. */
  function ListsFor(lines: seq<Line>, setting: ListSetting): (r: seq<Str>)
    ensures forall x :: x in r <==> exists k :: 0 <= k < |lines| && lines[k].name == x && MakesList(lines[k].priority, setting)
    decreases |lines|
  {
    if |lines| == 0 then []
    else
      var n := |lines| - 1;
      var init := ListsFor(lines[..n], setting);
      assert forall k :: 0 <= k < n ==> lines[..n][k] == lines[k];
      if MakesList(lines[n].priority, setting) then init + [lines[n].name] else init
  }

  /** The running totals: each count summed over the lines. */
  function Totals(lines: seq<Line>): Counts
    decreases |lines|
  {
    if |lines| == 0 then Counts(0, 0, 0, 0, 0, 0)
    else
      var t := Totals(lines[..|lines| - 1]);
      var c := lines[|lines| - 1].counts;
      Counts(t.files + c.files, t.s010 + c.s010, t.s20 + c.s20, t.s30 + c.s30, t.s100 + c.s100, t.sm1 + c.sm1)
  }

  /** Every line of the survey is the line of a dataset with files. */
  lemma {:induction false} SurveySound(datasets: seq<(Str, seq<StatusCount>)>)
    ensures forall l :: l in Survey(datasets) ==>
              l.counts.files > 0 && exists k :: 0 <= k < |datasets| && l == LineOf(datasets[k])
    decreases |datasets|
  {
    if |datasets| > 0 {
      var n := |datasets| - 1;
      var init := Survey(datasets[..n]);
      SurveySound(datasets[..n]);
      SurveyStep(datasets, n);
      forall l | l in Survey(datasets)
        ensures l.counts.files > 0 && exists k :: 0 <= k < |datasets| && l == LineOf(datasets[k])
      {
        if l in init {
          var k :| 0 <= k < n && l == LineOf(datasets[..n][k]);
          assert datasets[..n][k] == datasets[k];
        } else {
          assert l == LineOf(datasets[n]);
        }
      }
    }
  }

  /** Every dataset with files has its line in the survey. */
  lemma SurveyComplete(datasets: seq<(Str, seq<StatusCount>)>)
    ensures forall k :: 0 <= k < |datasets| && CountsOf(datasets[k].1).files > 0 ==>
              LineOf(datasets[k]) in Survey(datasets)
  {
    forall k | 0 <= k < |datasets| && CountsOf(datasets[k].1).files > 0
      ensures LineOf(datasets[k]) in Survey(datasets)
    {
      SurveyHas(datasets, k);
    }
  }

  /** The line of one dataset with files is in the survey. */
  lemma {:induction false} SurveyHas(datasets: seq<(Str, seq<StatusCount>)>, k: nat)
    requires k < |datasets| && CountsOf(datasets[k].1).files > 0
    ensures LineOf(datasets[k]) in Survey(datasets)
    decreases |datasets|
  {
    var n := |datasets| - 1;
    var init := Survey(datasets[..n]);
    SurveyStep(datasets, n);
    if k == n {
      assert Survey(datasets) == init + [LineOf(datasets[n])];
      assert Survey(datasets)[|init|] == LineOf(datasets[n]);
    } else {
      assert datasets[..n][k] == datasets[k];
      SurveyHas(datasets[..n], k);
      assert LineOf(datasets[k]) in init;
    }
  }

  /** The per-status totals add up to at most the total file count. */
  lemma {:induction false} TotalsWithin(datasets: seq<(Str, seq<StatusCount>)>)
    ensures var t := Totals(Survey(datasets));
            t.s010 + t.s20 + t.s30 + t.s100 + t.sm1 <= t.files
    decreases |datasets|
  {
    if |datasets| > 0 {
      var n := |datasets| - 1;
      TotalsWithin(datasets[..n]);
      CountsWithinTotal(datasets[n].1);
      var init := Survey(datasets[..n]);
      var c := CountsOf(datasets[n].1);
      if c.files > 0 {
        assert (init + [LineOf(datasets[n])])[..|init|] == init;
      }
    }
  }

  /** A dataset gets a download list under a setting exactly when it
      has files and its priority passes that setting. */
  lemma ListsForSurvey(datasets: seq<(Str, seq<StatusCount>)>, setting: ListSetting, name: Str)
    ensures name in ListsFor(Survey(datasets), setting) <==>
              exists k :: 0 <= k < |datasets| && datasets[k].0 == name && CountsOf(datasets[k].1).files > 0
                          && MakesList(LineOf(datasets[k]).priority, setting)
  {
    SurveySound(datasets);
    SurveyComplete(datasets);
    var lines := Survey(datasets);
    if name in ListsFor(lines, setting) {
      var i :| 0 <= i < |lines| && lines[i].name == name && MakesList(lines[i].priority, setting);
      assert lines[i] in lines;
    }
    if exists k :: 0 <= k < |datasets| && datasets[k].0 == name && CountsOf(datasets[k].1).files > 0
                   && MakesList(LineOf(datasets[k]).priority, setting) {
      var k :| 0 <= k < |datasets| && datasets[k].0 == name && CountsOf(datasets[k].1).files > 0
               && MakesList(LineOf(datasets[k]).priority, setting);
      assert LineOf(datasets[k]) in lines;
      var i :| 0 <= i < |lines| && lines[i] == LineOf(datasets[k]);
    }
  }

  /** Under the default setting (a minimum priority of 9) a download list
      is made exactly for the mostly verified monthly atmosphere datasets
      of a main experiment; under `True`, for exactly the candidates of
      priority 2 and up; under `False`, for none. */
  lemma DefaultLists(datasets: seq<(Str, seq<StatusCount>)>, name: Str)
    ensures name in ListsFor(Survey(datasets), AtLeast(9)) <==>
              exists k :: 0 <= k < |datasets| && datasets[k].0 == name && Urgent(datasets[k])
    ensures name in ListsFor(Survey(datasets), On) <==>
              exists k :: 0 <= k < |datasets| && datasets[k].0 == name && Priority(name, CountsOf(datasets[k].1)) >= 2
    ensures name !in ListsFor(Survey(datasets), Off)
  {
    DefaultListsNine(datasets, name);
    DefaultListsOn(datasets, name);
    ListsForSurvey(datasets, Off, name);
  }

  /** Under a minimum of 9, exactly the urgent datasets get a list. */
  lemma DefaultListsNine(datasets: seq<(Str, seq<StatusCount>)>, name: Str)
    ensures name in ListsFor(Survey(datasets), AtLeast(9)) <==>
              exists k :: 0 <= k < |datasets| && datasets[k].0 == name && Urgent(datasets[k])
  {
    ListsForSurvey(datasets, AtLeast(9), name);
    if name in ListsFor(Survey(datasets), AtLeast(9)) {
      var k :| 0 <= k < |datasets| && datasets[k].0 == name && CountsOf(datasets[k].1).files > 0
               && MakesList(LineOf(datasets[k]).priority, AtLeast(9));
      UrgentIff(datasets[k]);
    }
    if exists k :: 0 <= k < |datasets| && datasets[k].0 == name && Urgent(datasets[k]) {
      var k :| 0 <= k < |datasets| && datasets[k].0 == name && Urgent(datasets[k]);
      UrgentIff(datasets[k]);
    }
  }

  /** Under `True`, exactly the datasets of priority 2 and up get a list. */
  lemma DefaultListsOn(datasets: seq<(Str, seq<StatusCount>)>, name: Str)
    ensures name in ListsFor(Survey(datasets), On) <==>
              exists k :: 0 <= k < |datasets| && datasets[k].0 == name && Priority(name, CountsOf(datasets[k].1)) >= 2
  {
    ListsForSurvey(datasets, On, name);
    if name in ListsFor(Survey(datasets), On) {
      var k :| 0 <= k < |datasets| && datasets[k].0 == name && CountsOf(datasets[k].1).files > 0
               && MakesList(LineOf(datasets[k]).priority, On);
      OnIff(datasets[k]);
    }
    if exists k :: 0 <= k < |datasets| && datasets[k].0 == name && Priority(name, CountsOf(datasets[k].1)) >= 2 {
      var k :| 0 <= k < |datasets| && datasets[k].0 == name && Priority(name, CountsOf(datasets[k].1)) >= 2;
      OnIff(datasets[k]);
    }
  }

  /** A dataset passes a minimum of 9 exactly when it is urgent; an
      urgent dataset has files. */
  lemma UrgentIff(d: (Str, seq<StatusCount>))
    ensures CountsOf(d.1).files > 0 && MakesList(LineOf(d).priority, AtLeast(9)) <==> Urgent(d)
  {
  }

  /** A dataset passes `True` exactly when its priority is 2 or more; such
      a dataset has files. */
  lemma OnIff(d: (Str, seq<StatusCount>))
    ensures CountsOf(d.1).files > 0 && MakesList(LineOf(d).priority, On) <==> Priority(d.0, CountsOf(d.1)) >= 2
  {
  }
}
