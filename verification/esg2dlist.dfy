/** The download-list generator fed by index searches: the two forms of
    institute names, dataset names and their facets, one download row per
    file record of the search, the removal of rows for files already held or
    unknown to the database, version wildcarding of stored paths, the switch
    to a local copy when an identical file is held under another version,
    and the lines written for the downloader. The search output and the
    database queries are inputs. */
module Esg2dList {
  import opened Wrappers
  import opened PyStr
  import opened DownloadQueue
  import DownloadManager

  // ---------------------------------------------------------------------
  // Institute names
  // ---------------------------------------------------------------------

  /** The P2P forms of `institutepgl`, in the order of its pairs. */
  const P2PNames: seq<Str> := [
    "ANL", "BCC", "CCCMA", "CNES", "CNRM-CERFACS", "COLA-CFS", "ICHEC", "INM", "IPSL", "LASF-CESS",
    "LASG-IAP", "LLNL", "MIROC", "MOHC", "MPI-M", "MRI", "NASA GISS", "NASA GMAO", "NASA GSFC",
    "NASA JPL", "NCAR", "NCC", "NOAA GFDL", "NOAA-NCEP", "PNNL", "REMSS"]

  /** The gateway forms of `institutepgl`, in the order of its pairs. */
  const GatewayNames: seq<Str> := [
    "ANL", "BCC", "CCCma", "CNES", "CNRM-CERFACS", "COLA-CFS", "ICHEC", "INM", "IPSL", "LASG-CESS",
    "LASG-IAP", "LLNL", "MIROC", "MOHC", "MPI-M", "MRI", "NASA-GISS", "NASA-GMAO", "NASA-GSFC",
    "NASA-JPL", "NCAR", "NCC", "NOAA-GFDL", "NOAA-NCEP", "PNNL", "REMSS"]

  /** Two lists of the same length, paired up position by position. */
  function Zip(xs: seq<Str>, ys: seq<Str>): (r: seq<(Str, Str)>)
    requires |xs| == |ys|
    ensures |r| == |xs| && forall i :: 0 <= i < |r| ==> r[i] == (xs[i], ys[i])
  {
    seq(|xs|, i requires 0 <= i < |xs| => (xs[i], ys[i]))
  }

  /** `institutepgl`: (P2P form, gateway form). */
  const InstitutePairs: seq<(Str, Str)> := Zip(P2PNames, GatewayNames)

  /** The loop building `institute_g`: both forms map to the gateway form. */
  function BuildG(pairs: seq<(Str, Str)>): map<Str, Str>
    decreases |pairs|
  {
    if |pairs| == 0 then map[]
    else
      var m := BuildG(pairs[..|pairs| - 1]);
      var (p, g) := pairs[|pairs| - 1];
      m[g := g][p := g]
  }

  /** The loop building `institute_p`: both forms map to the P2P form. */
  function BuildP(pairs: seq<(Str, Str)>): map<Str, Str>
    decreases |pairs|
  {
    if |pairs| == 0 then map[]
    else
      var m := BuildP(pairs[..|pairs| - 1]);
      var (p, g) := pairs[|pairs| - 1];
      m[g := p][p := p]
  }

  /** `pairs` with the two forms exchanged. */
  function Swap(pairs: seq<(Str, Str)>): (r: seq<(Str, Str)>)
    ensures |r| == |pairs| && forall i :: 0 <= i < |r| ==> r[i] == (pairs[i].1, pairs[i].0)
  {
    seq(|pairs|, i requires 0 <= i < |pairs| => (pairs[i].1, pairs[i].0))
  }

  /** No name is the second form of one pair and the first form of
      another pair with a different second form. */
  predicate Consistent(pairs: seq<(Str, Str)>) {
    forall i, j :: 0 <= i < |pairs| && 0 <= j < |pairs| && pairs[j].0 == pairs[i].1 ==> pairs[j].1 == pairs[i].1
  }

  lemma PairsConsistent()
    ensures Consistent(InstitutePairs) && Consistent(Swap(InstitutePairs))
  {
    PairsSettled();
    SwappedPairsSettled();
    SettledConsistent(InstitutePairs);
    SettledConsistent(Swap(InstitutePairs));
  }

  /** Each pair either names one form twice, or has a first form that is
      no pair's second form. */
  predicate Settled(pairs: seq<(Str, Str)>) {
    forall j :: 0 <= j < |pairs| ==>
      pairs[j].0 == pairs[j].1 || forall i :: 0 <= i < |pairs| ==> pairs[i].1 != pairs[j].0
  }

  lemma SettledConsistent(pairs: seq<(Str, Str)>)
    requires Settled(pairs)
    ensures Consistent(pairs)
  {
    forall i, j | 0 <= i < |pairs| && 0 <= j < |pairs| && pairs[j].0 == pairs[i].1
      ensures pairs[j].1 == pairs[i].1
    {
      assert pairs[j].0 == pairs[j].1;
    }
  }

  /** The gateway forms of the table never name another pair's P2P form:
      each P2P form that differs from its gateway form sits strictly
      between two neighbouring gateway forms. */
  lemma PairsSettled()
    ensures Settled(InstitutePairs)
  {
    var ps := InstitutePairs;
    forall j | 0 <= j < |ps|
      ensures ps[j].0 == ps[j].1 || forall i :: 0 <= i < |ps| ==> ps[i].1 != ps[j].0
    {
      if P2PNames[j] != GatewayNames[j] {
        P2PNameNotGateway(j);
      }
    }
  }

  /** Each P2P name that differs from its gateway name is no gateway name. */
  lemma P2PNameNotGateway(j: int)
    requires 0 <= j < |P2PNames| && P2PNames[j] != GatewayNames[j]
    ensures forall i :: 0 <= i < |GatewayNames| ==> GatewayNames[i] != P2PNames[j]
  {
    P2PNamePlaced(j);
    GatewayNamesRise();
    CodeBetween(GatewayNames, P2PNames[j], GatewaySlot(j));
  }

  /** The gateway name just before a P2P name that differs from its own
      gateway name. */
  function GatewaySlot(j: int): int {
    if j == 2 then 1 else if j == 9 then 8 else if j == 22 then 21 else 15
  }

  lemma P2PNamePlaced(j: int)
    requires 0 <= j < |P2PNames| && P2PNames[j] != GatewayNames[j]
    ensures var k := GatewaySlot(j);
            0 <= k < |GatewayNames| - 1 && Before(GatewayNames[k], P2PNames[j]) && Before(P2PNames[j], GatewayNames[k + 1])
  {
    if j < 8 {
      P2PNamePlacedLow(j);
    } else if j < 16 {
      P2PNamePlacedMid(j);
    } else if j < 20 {
      P2PNamePlacedNasa(j);
    } else {
      P2PNamePlacedHigh(j);
    }
  }

  lemma P2PNamePlacedLow(j: int)
    requires 0 <= j < 8 && P2PNames[j] != GatewayNames[j]
    ensures var k := GatewaySlot(j);
            0 <= k < |GatewayNames| - 1 && Before(GatewayNames[k], P2PNames[j]) && Before(P2PNames[j], GatewayNames[k + 1])
  {
  }

  lemma P2PNamePlacedMid(j: int)
    requires 8 <= j < 16 && P2PNames[j] != GatewayNames[j]
    ensures var k := GatewaySlot(j);
            0 <= k < |GatewayNames| - 1 && Before(GatewayNames[k], P2PNames[j]) && Before(P2PNames[j], GatewayNames[k + 1])
  {
  }

  lemma P2PNamePlacedNasa(j: int)
    requires 16 <= j < 20 && P2PNames[j] != GatewayNames[j]
    ensures var k := GatewaySlot(j);
            0 <= k < |GatewayNames| - 1 && Before(GatewayNames[k], P2PNames[j]) && Before(P2PNames[j], GatewayNames[k + 1])
  {
  }

  lemma P2PNamePlacedHigh(j: int)
    requires 20 <= j < 26 && P2PNames[j] != GatewayNames[j]
    ensures var k := GatewaySlot(j);
            0 <= k < |GatewayNames| - 1 && Before(GatewayNames[k], P2PNames[j]) && Before(P2PNames[j], GatewayNames[k + 1])
  {
  }

  /** Each gateway form that differs from its P2P form sits strictly
      between two neighbouring P2P forms. */
  lemma SwappedPairsSettled()
    ensures Settled(Swap(InstitutePairs))
  {
    var ps := InstitutePairs;
    var sw := Swap(ps);
    forall j | 0 <= j < |sw|
      ensures sw[j].0 == sw[j].1 || forall i :: 0 <= i < |sw| ==> sw[i].1 != sw[j].0
    {
      if P2PNames[j] != GatewayNames[j] {
        GatewayNameNotP2P(j);
      }
    }
  }

  /** Each gateway name that differs from its P2P name is no P2P name. */
  lemma GatewayNameNotP2P(j: int)
    requires 0 <= j < |GatewayNames| && P2PNames[j] != GatewayNames[j]
    ensures forall i :: 0 <= i < |P2PNames| ==> P2PNames[i] != GatewayNames[j]
  {
    GatewayNamePlaced(j);
    P2PNamesRise();
    CodeBetween(P2PNames, GatewayNames[j], P2PSlot(j));
  }

  /** The P2P name just before a gateway name that differs from its own
      P2P name. */
  function P2PSlot(j: int): int {
    if 16 <= j <= 19 then 19 else j
  }

  lemma GatewayNamePlaced(j: int)
    requires 0 <= j < |P2PNames| && P2PNames[j] != GatewayNames[j]
    ensures var k := P2PSlot(j);
            0 <= k < |P2PNames| - 1 && Before(P2PNames[k], GatewayNames[j]) && Before(GatewayNames[j], P2PNames[k + 1])
  {
    if j < 8 {
      GatewayNamePlacedLow(j);
    } else if j < 16 {
      GatewayNamePlacedMid(j);
    } else if j < 20 {
      GatewayNamePlacedNasa(j);
    } else {
      GatewayNamePlacedHigh(j);
    }
  }

  lemma GatewayNamePlacedLow(j: int)
    requires 0 <= j < 8 && P2PNames[j] != GatewayNames[j]
    ensures var k := P2PSlot(j);
            0 <= k < |P2PNames| - 1 && Before(P2PNames[k], GatewayNames[j]) && Before(GatewayNames[j], P2PNames[k + 1])
  {
  }

  lemma GatewayNamePlacedMid(j: int)
    requires 8 <= j < 16 && P2PNames[j] != GatewayNames[j]
    ensures var k := P2PSlot(j);
            0 <= k < |P2PNames| - 1 && Before(P2PNames[k], GatewayNames[j]) && Before(GatewayNames[j], P2PNames[k + 1])
  {
  }

  lemma GatewayNamePlacedNasa(j: int)
    requires 16 <= j < 20 && P2PNames[j] != GatewayNames[j]
    ensures var k := P2PSlot(j);
            0 <= k < |P2PNames| - 1 && Before(P2PNames[k], GatewayNames[j]) && Before(GatewayNames[j], P2PNames[k + 1])
  {
  }

  lemma GatewayNamePlacedHigh(j: int)
    requires 20 <= j < 26 && P2PNames[j] != GatewayNames[j]
    ensures var k := P2PSlot(j);
            0 <= k < |P2PNames| - 1 && Before(P2PNames[k], GatewayNames[j]) && Before(GatewayNames[j], P2PNames[k + 1])
  {
  }

  /** The first forms of the pairs. */
  function Firsts(pairs: seq<(Str, Str)>): (r: seq<Str>)
    ensures |r| == |pairs| && forall i :: 0 <= i < |r| ==> r[i] == pairs[i].0
  {
    seq(|pairs|, i requires 0 <= i < |pairs| => pairs[i].0)
  }

  /** The second forms of the pairs. */
  function Seconds(pairs: seq<(Str, Str)>): (r: seq<Str>)
    ensures |r| == |pairs| && forall i :: 0 <= i < |r| ==> r[i] == pairs[i].1
  {
    seq(|pairs|, i requires 0 <= i < |pairs| => pairs[i].1)
  }

  /** Character `i` of a name shifted up by one, or 0 past its end. */
  function Digit(s: Str, i: nat): int {
    if i < |s| then s[i] as int + 1 else 0
  }

  /** Whether `a` comes before `b` on their first seven characters, in
      the order of the characters' codes (a shorter name first). */
  predicate Before(a: Str, b: Str) {
    if Digit(a, 0) != Digit(b, 0) then Digit(a, 0) < Digit(b, 0)
    else if Digit(a, 1) != Digit(b, 1) then Digit(a, 1) < Digit(b, 1)
    else if Digit(a, 2) != Digit(b, 2) then Digit(a, 2) < Digit(b, 2)
    else if Digit(a, 3) != Digit(b, 3) then Digit(a, 3) < Digit(b, 3)
    else if Digit(a, 4) != Digit(b, 4) then Digit(a, 4) < Digit(b, 4)
    else if Digit(a, 5) != Digit(b, 5) then Digit(a, 5) < Digit(b, 5)
    else Digit(a, 6) < Digit(b, 6)
  }

  lemma BeforeTrans(a: Str, b: Str, c: Str)
    requires Before(a, b) && Before(b, c)
    ensures Before(a, c)
  {
  }

  /** Whether each name of the list comes before the next. */
  predicate CodesRise(xs: seq<Str>) {
    forall k :: 0 <= k < |xs| - 1 ==> Before(xs[k], xs[k + 1])
  }

  lemma {:induction false} CodesOrdered(xs: seq<Str>, i: int, j: int)
    requires CodesRise(xs) && 0 <= i < j < |xs|
    ensures Before(xs[i], xs[j])
    decreases j - i
  {
    if i + 1 < j {
      CodesOrdered(xs, i + 1, j);
      BeforeTrans(xs[i], xs[i + 1], xs[j]);
    }
  }

  /** Names listed in order are all different. */
  lemma CodesDistinct(xs: seq<Str>)
    requires CodesRise(xs)
    ensures forall i, j :: 0 <= i < |xs| && 0 <= j < |xs| && i != j ==> xs[i] != xs[j]
  {
    forall i, j | 0 <= i < |xs| && 0 <= j < |xs| && i != j
      ensures xs[i] != xs[j]
    {
      if i < j {
        CodesOrdered(xs, i, j);
      } else {
        CodesOrdered(xs, j, i);
      }
    }
  }

  /** A name that falls strictly between two neighbours of a list in order
      is none of its names. */
  lemma CodeBetween(xs: seq<Str>, x: Str, k: int)
    requires CodesRise(xs) && 0 <= k < |xs| - 1 && Before(xs[k], x) && Before(x, xs[k + 1])
    ensures forall i :: 0 <= i < |xs| ==> xs[i] != x
  {
    forall i | 0 <= i < |xs|
      ensures xs[i] != x
    {
      if i < k {
        CodesOrdered(xs, i, k);
        BeforeTrans(xs[i], xs[k], x);
      } else if i > k + 1 {
        CodesOrdered(xs, k + 1, i);
        BeforeTrans(x, xs[k + 1], xs[i]);
      }
    }
  }

  /** Whether the names from `lo` to `hi` of the list are in order. */
  predicate RiseBetween(xs: seq<Str>, lo: nat, hi: nat)
    requires hi < |xs|
  {
    forall k :: lo <= k < hi ==> Before(xs[k], xs[k + 1])
  }

  /** The P2P forms are listed in order. */
  lemma FirstsRise()
    ensures CodesRise(Firsts(InstitutePairs))
  {
    assert Firsts(InstitutePairs) == P2PNames;
    P2PNamesRise();
  }

  lemma P2PNamesRise()
    ensures CodesRise(P2PNames)
  {
    P2PNamesRiseLow();
    P2PNamesRiseMid();
    P2PNamesRiseHigh();
  }

  lemma P2PNamesRiseLow()
    ensures RiseBetween(P2PNames, 0, 8)
  {
    forall k | 0 <= k < 8
      ensures Before(P2PNames[k], P2PNames[k + 1])
    {
      if k == 0 {
      } else if k == 1 {
      } else if k == 2 {
      } else if k == 3 {
      } else if k == 4 {
      } else if k == 5 {
      } else if k == 6 {
      }
    }
  }

  lemma P2PNamesRiseMid()
    ensures RiseBetween(P2PNames, 8, 16)
  {
    forall k | 8 <= k < 16
      ensures Before(P2PNames[k], P2PNames[k + 1])
    {
      if k == 8 {
      } else if k == 9 {
      } else if k == 10 {
      } else if k == 11 {
      } else if k == 12 {
      } else if k == 13 {
      } else if k == 14 {
      }
    }
  }

  lemma P2PNamesRiseHigh()
    ensures RiseBetween(P2PNames, 16, 25)
  {
    forall k | 16 <= k < 25
      ensures Before(P2PNames[k], P2PNames[k + 1])
    {
      if k == 16 {
      } else if k == 17 {
      } else if k == 18 {
      } else if k == 19 {
      } else if k == 20 {
      } else if k == 21 {
      } else if k == 22 {
      } else if k == 23 {
      }
    }
  }

  /** The gateway forms are listed in order. */
  lemma SecondsRise()
    ensures CodesRise(Seconds(InstitutePairs))
  {
    assert Seconds(InstitutePairs) == GatewayNames;
    GatewayNamesRise();
  }

  lemma GatewayNamesRise()
    ensures CodesRise(GatewayNames)
  {
    GatewayNamesRiseLow();
    GatewayNamesRiseMid();
    GatewayNamesRiseHigh();
  }

  lemma GatewayNamesRiseLow()
    ensures RiseBetween(GatewayNames, 0, 8)
  {
    forall k | 0 <= k < 8
      ensures Before(GatewayNames[k], GatewayNames[k + 1])
    {
      if k == 0 {
      } else if k == 1 {
      } else if k == 2 {
      } else if k == 3 {
      } else if k == 4 {
      } else if k == 5 {
      } else if k == 6 {
      }
    }
  }

  lemma GatewayNamesRiseMid()
    ensures RiseBetween(GatewayNames, 8, 16)
  {
    forall k | 8 <= k < 16
      ensures Before(GatewayNames[k], GatewayNames[k + 1])
    {
      if k == 8 {
      } else if k == 9 {
      } else if k == 10 {
      } else if k == 11 {
      } else if k == 12 {
      } else if k == 13 {
      } else if k == 14 {
      }
    }
  }

  lemma GatewayNamesRiseHigh()
    ensures RiseBetween(GatewayNames, 16, 25)
  {
    forall k | 16 <= k < 25
      ensures Before(GatewayNames[k], GatewayNames[k + 1])
    {
      if k == 16 {
      } else if k == 17 {
      } else if k == 18 {
      } else if k == 19 {
      } else if k == 20 {
      } else if k == 21 {
      } else if k == 22 {
      } else if k == 23 {
      }
    }
  }

  /** The institute_p loop is the institute_g loop on swapped pairs. */
  lemma {:induction false} BuildPIsSwappedG(pairs: seq<(Str, Str)>)
    ensures BuildP(pairs) == BuildG(Swap(pairs))
    decreases |pairs|
  {
    if |pairs| > 0 {
      var init := pairs[..|pairs| - 1];
      BuildPIsSwappedG(init);
      assert Swap(pairs)[..|pairs| - 1] == Swap(init);
      var m := BuildP(init);
      var (p, g) := pairs[|pairs| - 1];
      if p != g {
        assert m[g := p][p := p] == m[p := p][g := p];
      }
    }
  }

  /** Every name reaches a fixed point in one step: each second form maps
      to itself and every value is a second form. */
  lemma {:induction false} BuildGFixed(pairs: seq<(Str, Str)>)
    requires Consistent(pairs)
    ensures var m := BuildG(pairs);
            (forall i :: 0 <= i < |pairs| ==> pairs[i].1 in m && m[pairs[i].1] == pairs[i].1) &&
            (forall k :: k in m ==> m[k] in m && m[m[k]] == m[k])
    decreases |pairs|
  {
    if |pairs| > 0 {
      var init := pairs[..|pairs| - 1];
      assert Consistent(init) by {
        forall i, j | 0 <= i < |init| && 0 <= j < |init| && init[j].0 == init[i].1
          ensures init[j].1 == init[i].1
        {
          assert init[i] == pairs[i] && init[j] == pairs[j];
        }
      }
      BuildGFixed(init);
      var m0 := BuildG(init);
      var last := |pairs| - 1;
      var (p, g) := pairs[last];
      var m := BuildG(pairs);
      assert m == m0[g := g][p := g];
      forall i | 0 <= i < |pairs|
        ensures pairs[i].1 in m && m[pairs[i].1] == pairs[i].1
      {
        if i < last {
          assert pairs[i] == init[i];
          if pairs[i].1 == p {
            assert pairs[last].0 == pairs[i].1;
          }
        }
      }
      forall k | k in m
        ensures m[k] in m && m[m[k]] == m[k]
      {
        if k == p || k == g {
          assert pairs[last].1 == g;
        } else {
          var v := m0[k];
          assert m[k] == v;
          if v == p {
            // a value of the earlier map is the second form of an earlier pair
            assert exists i :: 0 <= i < last && init[i].1 == v by {
              ValueIsSecond(init, k);
            }
            var i :| 0 <= i < last && init[i].1 == v;
            assert pairs[i] == init[i];
            assert pairs[last].0 == pairs[i].1;
          }
        }
      }
    }
  }

  /** Every value of the map is the second form of some pair. */
  lemma {:induction false} ValueIsSecond(pairs: seq<(Str, Str)>, k: Str)
    requires k in BuildG(pairs)
    ensures exists i :: 0 <= i < |pairs| && pairs[i].1 == BuildG(pairs)[k]
    decreases |pairs|
  {
    var last := |pairs| - 1;
    var init := pairs[..last];
    var (p, g) := pairs[last];
    if k == p || k == g {
      assert pairs[last].1 == BuildG(pairs)[k];
    } else {
      ValueIsSecond(init, k);
      var i :| 0 <= i < |init| && init[i].1 == BuildG(init)[k];
      assert pairs[i] == init[i];
    }
  }

  /** `institute_g[x]` when `x` is a key, else `x`. */
  function InstituteG(x: Str): Str {
    var m := BuildG(InstitutePairs);
    if x in m then m[x] else x
  }

  /** `institute_p[x]` when `x` is a key, else `x`. */
  function InstituteP(x: Str): Str {
    var m := BuildP(InstitutePairs);
    if x in m then m[x] else x
  }

  /** Normalising to the gateway form twice is normalising once. */
  lemma InstituteGIdempotent(x: Str)
    ensures InstituteG(InstituteG(x)) == InstituteG(x)
  {
    PairsConsistent();
    BuildGFixed(InstitutePairs);
  }

  /** Normalising to the P2P form twice is normalising once. */
  lemma InstitutePIdempotent(x: Str)
    ensures InstituteP(InstituteP(x)) == InstituteP(x)
  {
    PairsConsistent();
    BuildPIsSwappedG(InstitutePairs);
    BuildGFixed(Swap(InstitutePairs));
  }

  /** Two pairs with the same first form have the same second form. */
  predicate FirstDetermines(pairs: seq<(Str, Str)>) {
    forall i, j :: 0 <= i < |pairs| && 0 <= j < |pairs| && pairs[i].0 == pairs[j].0 ==> pairs[i].1 == pairs[j].1
  }

  /** No P2P form appears twice in the table. */
  lemma PairsFirstDetermines()
    ensures FirstDetermines(InstitutePairs)
  {
    FirstsRise();
    CodesDistinct(Firsts(InstitutePairs));
  }

  /** A pair's first form maps to its second form. */
  lemma {:induction false} BuildGFirst(pairs: seq<(Str, Str)>, i: nat)
    requires Consistent(pairs) && FirstDetermines(pairs) && i < |pairs|
    ensures pairs[i].0 in BuildG(pairs) && BuildG(pairs)[pairs[i].0] == pairs[i].1
    decreases |pairs|
  {
    var last := |pairs| - 1;
    var init := pairs[..last];
    if i < last {
      assert Consistent(init) && FirstDetermines(init) by {
        forall a, b | 0 <= a < |init| && 0 <= b < |init|
          ensures init[a] == pairs[a] && init[b] == pairs[b]
        {
        }
      }
      BuildGFirst(init, i);
      assert init[i] == pairs[i];
    }
  }

  /** Each table entry normalises to its gateway form, from either form. */
  lemma GatewayForms(i: nat)
    requires i < |InstitutePairs|
    ensures InstituteG(InstitutePairs[i].1) == InstitutePairs[i].1
    ensures InstituteG(InstitutePairs[i].0) == InstitutePairs[i].1
  {
    PairsConsistent();
    PairsFirstDetermines();
    BuildGFixed(InstitutePairs);
    BuildGFirst(InstitutePairs, i);
  }

  /** A name outside the table is left as it is. */
  lemma InstituteGOutside(x: Str)
    requires forall i :: 0 <= i < |InstitutePairs| ==> InstitutePairs[i].0 != x && InstitutePairs[i].1 != x
    ensures InstituteG(x) == x
  {
    if x in BuildG(InstitutePairs) {
      KeysAreForms(InstitutePairs, x);
      assert false;
    }
  }

  /** Every key of the map is one of the two forms of some pair. */
  lemma {:induction false} KeysAreForms(pairs: seq<(Str, Str)>, x: Str)
    requires x in BuildG(pairs)
    ensures exists i :: 0 <= i < |pairs| && (pairs[i].0 == x || pairs[i].1 == x)
    decreases |pairs|
  {
    var last := |pairs| - 1;
    var init := pairs[..last];
    if pairs[last].0 != x && pairs[last].1 != x {
      KeysAreForms(init, x);
      var i :| 0 <= i < |init| && (init[i].0 == x || init[i].1 == x);
      assert pairs[i] == init[i];
    }
  }

  /** Two pairs with the same gateway form have the same P2P form. */
  lemma PairsSecondDetermines()
    ensures FirstDetermines(Swap(InstitutePairs))
  {
    SecondsRise();
    CodesDistinct(Seconds(InstitutePairs));
  }

  /** Both forms of every pair are keys of the map. */
  lemma FormsAreKeys(pairs: seq<(Str, Str)>, i: nat)
    requires Consistent(pairs) && FirstDetermines(pairs) && i < |pairs|
    ensures pairs[i].0 in BuildG(pairs) && pairs[i].1 in BuildG(pairs)
  {
    BuildGFirst(pairs, i);
    BuildGFixed(pairs);
  }

  /** Putting an institute in its P2P form first does not change its
      gateway form. */
  lemma InstituteGOfP(x: Str)
    ensures InstituteG(InstituteP(x)) == InstituteG(x)
  {
    var pairs := InstitutePairs;
    var sw := Swap(pairs);
    PairsConsistent();
    PairsFirstDetermines();
    PairsSecondDetermines();
    BuildPIsSwappedG(pairs);
    if x in BuildP(pairs) {
      KeysAreForms(sw, x);
      var j :| 0 <= j < |sw| && (sw[j].0 == x || sw[j].1 == x);
      BuildGFirst(sw, j);
      BuildGFixed(sw);
      assert InstituteP(x) == pairs[j].0;
      BuildGFirst(pairs, j);
      BuildGFixed(pairs);
    } else if x in BuildG(pairs) {
      KeysAreForms(pairs, x);
      var j :| 0 <= j < |pairs| && (pairs[j].0 == x || pairs[j].1 == x);
      FormsAreKeys(sw, j);
      assert false;
    }
  }

  // ---------------------------------------------------------------------
  // Dataset names and facets
  // ---------------------------------------------------------------------

  /** The nine facets of a dataset name, in name order. */
  datatype Facets = Facets(project: Str, product: Str, institute: Str, model: Str, experiment: Str,
                           timeFrequency: Str, realm: Str, cmorTable: Str, ensemble: Str)

  function FacetList(f: Facets): (r: seq<Str>)
    ensures |r| == 9
  {
    [f.project, f.product, f.institute, f.model, f.experiment, f.timeFrequency, f.realm, f.cmorTable, f.ensemble]
  }

  /** `dataset2facets`: exactly nine dot-separated parts, taken in order. */
  function Dataset2Facets(dset: Str): (r: Result<Facets, PyError>)
    ensures r.Success? <==> |Split(dset, ".")| == 9
    ensures r.Success? ==> FacetList(r.value) == Split(dset, ".")
    ensures r.Failure? ==> r.error.GenericException?
  {
    var fs := Split(dset, ".");
    if |fs| != 9 then Failure(GenericException("unexpected dataset format; expect 9 items separated by periods"))
    else Success(Facets(fs[0], fs[1], fs[2], fs[3], fs[4], fs[5], fs[6], fs[7], fs[8]))
  }

  /** The model names the INM-CM4 branch catches. */
  predicate IsInmModel(model: Str) {
    model == "INM-CM4" || model == "inm-cm4"
  }

  /** The facets of `facets2dataset`'s name: project lower-cased, institute
      in gateway form, and `model` for the model. */
  function NameFacets(f: Facets, model: Str): (r: seq<Str>)
    ensures |r| == 9 && r[3] == model && r[2] == InstituteG(f.institute) && r[0] == Lower(f.project)
  {
    [Lower(f.project), f.product, InstituteG(f.institute), model, f.experiment, f.timeFrequency, f.realm,
     f.cmorTable, f.ensemble]
  }

  /** `facets2dataset` as written: the INM-CM4 branch assigns from an
      undefined name and raises NameError. */
  function Facets2DatasetAsWritten(f: Facets): (r: Result<Str, PyError>)
    ensures r.Failure? <==> IsInmModel(f.model)
    ensures r.Failure? ==> r.error == NameError
    ensures r.Success? ==> r.value == Facets2Dataset(f)
  {
    if IsInmModel(f.model) then Failure(NameError)
    else Success(Join(NameFacets(f, f.model), "."))
  }

  /** `facets2dataset` with the INM-CM4 branch assigning the string
      "inmcm4", the model's gateway form. */
  function Facets2Dataset(f: Facets): (r: Str)
  {
    Join(NameFacets(f, if IsInmModel(f.model) then "inmcm4" else f.model), ".")
  }

  /** Splitting a computed dataset name at its dots gives back the nine
      normalised facets. */
  lemma Facets2DatasetParts(f: Facets)
    requires forall k :: 0 <= k < 9 ==> '.' !in FacetList(f)[k]
    requires '.' !in InstituteG(f.institute)
    ensures Split(Facets2Dataset(f), ".") ==
              NameFacets(f, if IsInmModel(f.model) then "inmcm4" else f.model)
  {
    var parts := NameFacets(f, if IsInmModel(f.model) then "inmcm4" else f.model);
    forall k | 0 <= k < 9
      ensures '.' !in parts[k]
    {
      if k == 0 {
        forall i | 0 <= i < |parts[0]|
          ensures parts[0][i] != '.'
        {
          assert FacetList(f)[0] == f.project;
          assert f.project[i] in f.project;
          assert parts[0][i] == LowerChar(f.project[i]);
        }
      } else if k == 3 && IsInmModel(f.model) {
        assert parts[3] == "inmcm4";
      } else if k != 2 {
        assert parts[k] == FacetList(f)[k];
      }
    }
    SplitJoinChar(parts, '.');
  }

  /** A name in normal form survives the trip through its facets. */
  lemma DatasetRoundTrip(dset: Str)
    requires Dataset2Facets(dset).Success?
    requires var f := Dataset2Facets(dset).value;
             Lower(f.project) == f.project && InstituteG(f.institute) == f.institute && !IsInmModel(f.model)
    ensures Facets2Dataset(Dataset2Facets(dset).value) == dset
    ensures Facets2DatasetAsWritten(Dataset2Facets(dset).value) == Success(dset)
  {
    var f := Dataset2Facets(dset).value;
    assert NameFacets(f, f.model) == Split(dset, ".");
    JoinSplit(dset, ".");
  }

  /** `download_list`'s facets for the search: institute in P2P form,
      project upper-cased, and the one model whose P2P form differs. */
  function QueryFacets(f: Facets): (r: Facets)
    ensures r.institute == InstituteP(f.institute) && r.project == Upper(f.project)
    ensures f.model == "inmcm4" ==> r.model == "INM-CM4"
    ensures f.model != "inmcm4" ==> r.model == f.model
    ensures r.(institute := f.institute, project := f.project, model := f.model) == f
  {
    f.(institute := InstituteP(f.institute), project := Upper(f.project),
       model := if f.model == "inmcm4" then "INM-CM4" else f.model)
  }

  /** Asking `download_list` for model inmcm4 always reaches the undefined
      name when the database's dataset pattern is built. */
  lemma InmDownloadRaisesAsWritten(f: Facets)
    requires f.model == "inmcm4" || IsInmModel(f.model)
    ensures Facets2DatasetAsWritten(QueryFacets(f)) == Failure(NameError)
  {
  }

  /** With the branch corrected, the database pattern built from the search
      facets is the dataset name of the facets the caller gave. */
  lemma QueryDatasetName(f: Facets)
    ensures Facets2Dataset(QueryFacets(f)) == Facets2Dataset(f)
  {
    var q := QueryFacets(f);
    InstituteGOfP(f.institute);
    assert Lower(Upper(f.project)) == Lower(f.project);
    assert NameFacets(q, if IsInmModel(q.model) then "inmcm4" else q.model) ==
           NameFacets(f, if IsInmModel(f.model) then "inmcm4" else f.model);
  }

  // ---------------------------------------------------------------------
  // Search output: one record per file
  // ---------------------------------------------------------------------

  /** A file of the search with the values of each field it was asked for;
      the id is kept apart from the fields. */
  datatype FileRecord = FileRecord(fileid: Str, fields: map<Str, seq<Str>>)

  /** A line of `esgquery_index` output split at `|`: the raw file id, the
      stripped field name and the stripped values between the fourth column
      and the last one; lines of fewer than six columns are headers or
      footers. */
  function DataLine(line: Str): (r: Option<(Str, Str, seq<Str>)>)
    ensures r.Some? <==> |Split(line, "|")| >= 6
    ensures r.Some? ==> |r.value.2| == |Split(line, "|")| - 5 >= 1
  {
    var cols := Split(line, "|");
    if |cols| < 6 then None
    else Some((cols[1], Strip(cols[3]), LineValues(cols)))
  }

  /** The state of the reading loop: the raw id of the file being read and
      the records so far. */
  datatype Scan = Scan(current: Option<Str>, records: seq<FileRecord>)

  /** One turn of the reading loop: a line whose raw id differs from the
      previous data line's starts a new record; otherwise its field is set,
      a repeated field keeping the last values. */
  function Step(s: Scan, line: Str): (r: Scan)
    requires s.current.None? <==> |s.records| == 0
    ensures r.current.None? <==> |r.records| == 0
    ensures |s.records| <= |r.records| <= |s.records| + 1
  {
    match DataLine(line)
    case None => s
    case Some((id, field, values)) =>
      if s.current != Some(id) then Scan(Some(id), s.records + [FileRecord(Strip(id), map[field := values])])
      else
        var last := s.records[|s.records| - 1];
        Scan(s.current, s.records[..|s.records| - 1] + [last.(fields := last.fields[field := values])])
  }

  /** The reading loop over the whole output. */
  function ScanLines(lines: seq<Str>): (r: Scan)
    ensures r.current.None? <==> |r.records| == 0
    ensures |r.records| <= |lines|
    decreases |lines|
  {
    if |lines| == 0 then Scan(None, [])
    else Step(ScanLines(lines[..|lines| - 1]), lines[|lines| - 1])
  }

  lemma ScanAppend(lines: seq<Str>, line: Str)
    ensures ScanLines(lines + [line]) == Step(ScanLines(lines), line)
  {
    assert (lines + [line])[..|lines|] == lines;
  }

  /** A text the output format carries unchanged: no column separator and
      no whitespace at either end for `strip` to remove. */
  predicate Clean(x: Str) {
    '|' !in x && (|x| == 0 || (!IsSpace(x[0]) && !IsSpace(x[|x| - 1])))
  }

  /** A clean text strips to itself. */
  lemma CleanStrips(x: Str)
    requires Clean(x)
    ensures Strip(x) == x
  {
    if |x| > 0 {
      StripNoSpace(x);
    }
  }

  /** One output line for a field of a file, as the search tool prints it:
      an empty first column, the id, the host, the field, the values, and a
      last column holding the line end. */
  function RenderLine(id: Str, host: Str, field: Str, values: seq<Str>): Str {
    Join(["", id, host, field] + values + ["\n"], "|")
  }

  /** The stripped values of a split line: columns 4 to the last but one. */
  function LineValues(cols: seq<Str>): (r: seq<Str>)
    requires |cols| >= 6
    ensures |r| == |cols| - 5
  {
    seq(|cols| - 5, k requires 0 <= k < |cols| - 5 => Strip(cols[4 + k]))
  }

  /** The columns of a rendered field line. */
  lemma RenderColumns(id: Str, host: Str, field: Str, values: seq<Str>)
    requires '|' !in id && '|' !in host && '|' !in field
    requires forall k :: 0 <= k < |values| ==> '|' !in values[k]
    ensures Split(RenderLine(id, host, field, values), "|") == ["", id, host, field] + values + ["\n"]
  {
    var parts := ["", id, host, field] + values + ["\n"];
    forall k | 0 <= k < |parts|
      ensures '|' !in parts[k]
    {
      if 4 <= k < 4 + |values| {
        assert parts[k] == values[k - 4];
      }
    }
    SplitJoinChar(parts, '|');
  }

  /** A rendered field line reads back as its id, field and values. */
  lemma DataLineRender(id: Str, host: Str, field: Str, values: seq<Str>)
    requires |values| >= 1 && Clean(field) && '|' !in id && '|' !in host
    requires forall k :: 0 <= k < |values| ==> Clean(values[k])
    ensures DataLine(RenderLine(id, host, field, values)) == Some((id, field, values))
  {
    var cols := ["", id, host, field] + values + ["\n"];
    RenderColumns(id, host, field, values);
    ColumnsRead(id, host, field, values, cols);
  }

  /** The columns of a rendered line give back its id, field and values. */
  lemma ColumnsRead(id: Str, host: Str, field: Str, values: seq<Str>, cols: seq<Str>)
    requires |values| >= 1 && Clean(field)
    requires forall k :: 0 <= k < |values| ==> Clean(values[k])
    requires cols == ["", id, host, field] + values + ["\n"]
    ensures |cols| >= 6 && cols[1] == id && Strip(cols[3]) == field && LineValues(cols) == values
  {
    assert cols[1] == id && cols[3] == field;
    CleanStrips(field);
    forall k | 0 <= k < |values|
      ensures cols[4 + k] == values[k]
    {
    }
    ValuesRead(values, cols);
  }

  /** Clean values in columns 4 onwards strip back to themselves. */
  lemma ValuesRead(values: seq<Str>, cols: seq<Str>)
    requires |cols| == |values| + 5 && |values| >= 1
    requires forall k :: 0 <= k < |values| ==> cols[4 + k] == values[k] && Clean(values[k])
    ensures LineValues(cols) == values
  {
    assert |LineValues(cols)| == |values|;
    forall k | 0 <= k < |values|
      ensures LineValues(cols)[k] == values[k]
    {
      CleanStrips(values[k]);
      ValueRead(cols, k);
    }
  }

  lemma ValueRead(cols: seq<Str>, k: int)
    requires |cols| >= 6 && 0 <= k < |cols| - 5
    ensures LineValues(cols)[k] == Strip(cols[4 + k])
  {
  }

  /** The lines printed for one file: one per (field, values) pair. */
  function Block(id: Str, host: Str, fvs: seq<(Str, seq<Str>)>): (r: seq<Str>)
    ensures |r| == |fvs|
    decreases |fvs|
  {
    if |fvs| == 0 then []
    else Block(id, host, fvs[..|fvs| - 1]) + [RenderLine(id, host, fvs[|fvs| - 1].0, fvs[|fvs| - 1].1)]
  }

  /** The fields of one file as the reading loop collects them. */
  function FieldMap(fvs: seq<(Str, seq<Str>)>): (m: map<Str, seq<Str>>)
    ensures forall k :: 0 <= k < |fvs| ==> fvs[k].0 in m
    decreases |fvs|
  {
    if |fvs| == 0 then map[]
    else FieldMap(fvs[..|fvs| - 1])[fvs[|fvs| - 1].0 := fvs[|fvs| - 1].1]
  }

  /** Field lines fit for rendering: a separator-free id and host, clean
      field names and at least one clean value each. */
  predicate BlockClean(id: Str, host: Str, fvs: seq<(Str, seq<Str>)>) {
    Clean(id) && '|' !in host &&
    forall k :: 0 <= k < |fvs| ==> FieldClean(fvs[k])
  }

  predicate FieldClean(fv: (Str, seq<Str>)) {
    Clean(fv.0) && |fv.1| >= 1 && forall j :: 0 <= j < |fv.1| ==> Clean(fv.1[j])
  }

  /** Reading a file's block after any lines whose last id differs adds
      exactly one record with the block's fields. */
  lemma {:induction false} ScanBlock(lines: seq<Str>, id: Str, host: Str, fvs: seq<(Str, seq<Str>)>)
    requires |fvs| >= 1 && BlockClean(id, host, fvs)
    requires ScanLines(lines).current != Some(id)
    ensures ScanLines(lines + Block(id, host, fvs)) ==
              Scan(Some(id), ScanLines(lines).records + [FileRecord(id, FieldMap(fvs))])
    decreases |fvs|
  {
    var n := |fvs|;
    var (field, values) := fvs[n - 1];
    var init := fvs[..n - 1];
    var before := lines + Block(id, host, init);
    var line := RenderLine(id, host, field, values);
    assert lines + Block(id, host, fvs) == before + [line];
    ScanAppend(before, line);
    assert FieldClean(fvs[n - 1]);
    DataLineRender(id, host, field, values);
    FieldMapSnoc(fvs);
    if n == 1 {
      assert before == lines;
      CleanStrips(id);
      StepNew(ScanLines(before), line, id, field, values);
    } else {
      assert BlockClean(id, host, init) by {
        forall k | 0 <= k < |init|
          ensures init[k] == fvs[k]
        {
        }
      }
      ScanBlock(lines, id, host, init);
      SameRecordStep(ScanLines(before), line, id, field, values, ScanLines(lines).records, FieldMap(init));
    }
  }

  /** A data line with the current id sets a field of the record last
      started. */
  lemma SameRecordStep(s: Scan, line: Str, id: Str, field: Str, values: seq<Str>,
                       recs: seq<FileRecord>, fields: map<Str, seq<Str>>)
    requires s == Scan(Some(id), recs + [FileRecord(id, fields)])
    requires DataLine(line) == Some((id, field, values))
    ensures Step(s, line) == Scan(Some(id), recs + [FileRecord(id, fields[field := values])])
  {
    StepSame(s, line, id, field, values);
    assert s.records[..|s.records| - 1] == recs;
  }

  /** A data line whose id differs from the current one starts a record. */
  lemma StepNew(s: Scan, line: Str, id: Str, field: Str, values: seq<Str>)
    requires s.current.None? <==> |s.records| == 0
    requires DataLine(line) == Some((id, field, values)) && s.current != Some(id) && Strip(id) == id
    ensures Step(s, line) == Scan(Some(id), s.records + [FileRecord(id, map[field := values])])
  {
  }

  /** A data line with the current id sets a field of the last record. */
  lemma StepSame(s: Scan, line: Str, id: Str, field: Str, values: seq<Str>)
    requires s.current.None? <==> |s.records| == 0
    requires DataLine(line) == Some((id, field, values)) && s.current == Some(id)
    ensures var last := s.records[|s.records| - 1];
            Step(s, line) == Scan(Some(id), s.records[..|s.records| - 1] + [last.(fields := last.fields[field := values])])
  {
  }

  lemma FieldMapSnoc(fvs: seq<(Str, seq<Str>)>)
    requires |fvs| > 0
    ensures FieldMap(fvs) == FieldMap(fvs[..|fvs| - 1])[fvs[|fvs| - 1].0 := fvs[|fvs| - 1].1]
    ensures |fvs| == 1 ==> FieldMap(fvs[..|fvs| - 1]) == map[]
  {
  }

  /** A whole listing: files with their field lines, in print order. */
  function Render(host: Str, listing: seq<(Str, seq<(Str, seq<Str>)>)>): seq<Str>
    decreases |listing|
  {
    if |listing| == 0 then []
    else Render(host, listing[..|listing| - 1]) + Block(listing[|listing| - 1].0, host, listing[|listing| - 1].1)
  }

  /** The records a listing describes. */
  function ListedRecords(listing: seq<(Str, seq<(Str, seq<Str>)>)>): (r: seq<FileRecord>)
    ensures |r| == |listing|
  {
    seq(|listing|, i requires 0 <= i < |listing| => FileRecord(listing[i].0, FieldMap(listing[i].1)))
  }

  lemma ListedRecordsSnoc(listing: seq<(Str, seq<(Str, seq<Str>)>)>)
    requires |listing| > 0
    ensures ListedRecords(listing) ==
              ListedRecords(listing[..|listing| - 1]) + [FileRecord(listing[|listing| - 1].0, FieldMap(listing[|listing| - 1].1))]
  {
  }

  /** Every file of the listing has clean field lines, and neighbouring
      files have different ids. */
  predicate ListingClean(host: Str, listing: seq<(Str, seq<(Str, seq<Str>)>)>) {
    (forall i :: 0 <= i < |listing| ==> |listing[i].1| >= 1 && BlockClean(listing[i].0, host, listing[i].1)) &&
    (forall i :: 0 < i < |listing| ==> listing[i - 1].0 != listing[i].0)
  }

  /** Reading back a printed listing gives one record per file. */
  lemma {:induction false} ScanRender(host: Str, listing: seq<(Str, seq<(Str, seq<Str>)>)>)
    requires ListingClean(host, listing)
    ensures ScanLines(Render(host, listing)).records == ListedRecords(listing)
    ensures |listing| > 0 ==> ScanLines(Render(host, listing)).current == Some(listing[|listing| - 1].0)
    decreases |listing|
  {
    var n := |listing|;
    if n > 0 {
      var init := listing[..n - 1];
      var (id, fvs) := listing[n - 1];
      assert ListingClean(host, init) by {
        assert forall i :: 0 <= i < |init| ==> init[i] == listing[i];
      }
      ScanRender(host, init);
      var before := Render(host, init);
      assert Render(host, listing) == before + Block(id, host, fvs);
      assert ScanLines(before).current != Some(id) by {
        if n > 1 {
          assert ScanLines(before).current == Some(listing[n - 2].0);
        }
      }
      assert |fvs| >= 1 && BlockClean(id, host, fvs);
      ScanBlock(before, id, host, fvs);
      ListedRecordsSnoc(listing);
    }
  }

  // ---------------------------------------------------------------------
  // Download rows
  // ---------------------------------------------------------------------

  /** A download row: url, path below the head directory, size, checksum
      and checksum type, as strings. */
  datatype Row = Row(url: Str, path: Str, size: Str, checksum: Str, checksumType: Str)

  /** `fd[k][0]`: KeyError for a missing field, IndexError for an empty one. */
  function Field(fd: map<Str, seq<Str>>, k: Str): (r: Result<Str, PyError>)
    ensures r.Success? <==> k in fd && |fd[k]| > 0
    ensures r.Success? ==> r.value == fd[k][0]
    ensures r.Failure? ==> r.error == (if k in fd then IndexError else KeyError)
  {
    if k !in fd then Failure(KeyError)
    else if |fd[k]| == 0 then Failure(IndexError)
    else Success(fd[k][0])
  }

  /** `fd.get(k, [dflt])[0]` */
  function FieldOr(fd: map<Str, seq<Str>>, k: Str, dflt: Str): (r: Result<Str, PyError>)
    ensures k !in fd ==> r == Success(dflt)
    ensures k in fd ==> r == Field(fd, k)
  {
    if k in fd then Field(fd, k) else Success(dflt)
  }

  /** The first values of `keys` in order; the first failing key decides
      the error. */
  function Fields(fd: map<Str, seq<Str>>, keys: seq<Str>): (r: Result<seq<Str>, PyError>)
    ensures r.Success? <==> forall i :: 0 <= i < |keys| ==> Field(fd, keys[i]).Success?
    ensures r.Success? ==> |r.value| == |keys| && forall i :: 0 <= i < |keys| ==> r.value[i] == fd[keys[i]][0]
    decreases |keys|
  {
    if |keys| == 0 then Success([])
    else
      match Field(fd, keys[0])
      case Failure(e) => Failure(e)
      case Success(v) =>
        match Fields(fd, keys[1..])
        case Failure(e) => Failure(e)
        case Success(vs) => Success([v] + vs)
  }

  /** The facet fields a row's path is built from, in lookup order. */
  const PathKeys: seq<Str> := ["institute", "model", "project", "product", "experiment", "time_frequency",
                               "realm", "cmor_table", "ensemble", "variable", "title"]

  /** The twelve path components from the looked-up values of `PathKeys`
      and the version: project lower-cased, institute in gateway form and
      the model as the search gave it. */
  function PathParts(v: seq<Str>, version: Str): (r: seq<Str>)
    requires |v| == 11
    ensures |r| == 12
  {
    [Lower(v[2]), v[3], InstituteG(v[0]), v[1], v[4], v[5], v[6], v[7], v[8], version, v[9], v[10]]
  }

  /** The url, size, checksum and lower-cased checksum type of a file; a
      missing checksum reads as "DUMMY" and a missing type as "md5". */
  function RowHead(fd: map<Str, seq<Str>>): (r: Result<(Str, Str, Str, Str), PyError>)
    ensures r.Success? ==> Field(fd, "url") == Success(r.value.0) && Field(fd, "size") == Success(r.value.1)
    ensures r.Success? ==> ("checksum" in fd ==> Field(fd, "checksum") == Success(r.value.2)) &&
                           ("checksum" !in fd ==> r.value.2 == "DUMMY")
    ensures r.Success? ==> Lower(r.value.3) == r.value.3 && ("checksum_type" !in fd ==> r.value.3 == "md5")
  {
    match Field(fd, "url")
    case Failure(e) => Failure(e)
    case Success(url) =>
      match Field(fd, "size")
      case Failure(e) => Failure(e)
      case Success(size) =>
        match FieldOr(fd, "checksum", "DUMMY")
        case Failure(e) => Failure(e)
        case Success(checksum) =>
          match FieldOr(fd, "checksum_type", "md5")
          case Failure(e) => Failure(e)
          case Success(ctype) =>
            LowerIdempotent(ctype);
            assert Lower("md5") == "md5";
            Success((url, size, checksum, Lower(ctype)))
  }

  /** The path of a file below the head directory, its version taken from
      component 9 of the file id. */
  function RowPath(fd: map<Str, seq<Str>>, fileid: Str): (r: Result<Str, PyError>)
    ensures r.Success? <==> |Split(fileid, ".")| >= 10 && Fields(fd, PathKeys).Success?
    ensures r.Failure? && |Split(fileid, ".")| < 10 ==> r.error == IndexError
    ensures r.Success? ==> r.value == Join(PathParts(Fields(fd, PathKeys).value, Split(fileid, ".")[9]), "/")
  {
    var ids := Split(fileid, ".");
    if |ids| < 10 then Failure(IndexError)
    else
      match Fields(fd, PathKeys)
      case Failure(e) => Failure(e)
      case Success(v) => Success(Join(PathParts(v, ids[9]), "/"))
  }

  /** One file's download row: none unless the file is marked latest. */
  function MakeRow(rec: FileRecord): (r: Result<Option<Row>, PyError>)
    ensures r == Success(None) <==> Field(rec.fields, "latest").Success? && rec.fields["latest"][0] != "true"
    ensures r.Success? && r.value.Some? ==>
              Field(rec.fields, "latest") == Success("true") && RowHead(rec.fields).Success? &&
              RowPath(rec.fields, rec.fileid).Success? &&
              var (url, size, checksum, ctype) := RowHead(rec.fields).value;
              r.value.value == Row(url, RowPath(rec.fields, rec.fileid).value, size, checksum, ctype)
  {
    var fd := rec.fields;
    match Field(fd, "latest")
    case Failure(e) => Failure(e)
    case Success(latest) =>
      if latest != "true" then Success(None)
      else
        match RowHead(fd)
        case Failure(e) => Failure(e)
        case Success(h) =>
          match RowPath(fd, rec.fileid)
          case Failure(e) => Failure(e)
          case Success(path) => Success(Some(Row(h.0, path, h.1, h.2, h.3)))
  }

  /** The components of a row's path: version from the file id at 9, the
      raw model at 3, the gateway-form institute at 2. */
  lemma RowPathParts(rec: FileRecord)
    requires MakeRow(rec).Success? && MakeRow(rec).value.Some?
    requires forall i :: 0 <= i < |PathKeys| ==>
               PathKeys[i] in rec.fields && |rec.fields[PathKeys[i]]| > 0 && '/' !in rec.fields[PathKeys[i]][0]
    requires |Split(rec.fileid, ".")| >= 10 && '/' !in Split(rec.fileid, ".")[9]
    ensures var parts := Split(MakeRow(rec).value.value.path, "/");
            |parts| == 12 && parts[9] == Split(rec.fileid, ".")[9] &&
            parts[3] == rec.fields["model"][0] && parts[2] == InstituteG(rec.fields["institute"][0]) &&
            parts[0] == Lower(rec.fields["project"][0])
  {
    var fd := rec.fields;
    var v := Fields(fd, PathKeys).value;
    var version := Split(rec.fileid, ".")[9];
    assert MakeRow(rec).value.value.path == Join(PathParts(v, version), "/");
    PathKeyValues(fd, v);
    PathPartsRead(v, version);
    PathPartsAt(v, version);
  }

  /** The looked-up values of `PathKeys` by name, and slash-free when the
      first value of each key is. */
  lemma PathKeyValues(fd: map<Str, seq<Str>>, v: seq<Str>)
    requires Fields(fd, PathKeys) == Success(v)
    requires forall i :: 0 <= i < |PathKeys| ==>
               PathKeys[i] in fd && |fd[PathKeys[i]]| > 0 && '/' !in fd[PathKeys[i]][0]
    ensures |v| == 11 && forall i :: 0 <= i < |v| ==> '/' !in v[i]
    ensures v[0] == fd["institute"][0] && v[1] == fd["model"][0] && v[2] == fd["project"][0]
  {
    assert PathKeys[0] == "institute" && PathKeys[1] == "model" && PathKeys[2] == "project";
    forall i | 0 <= i < |v|
      ensures '/' !in v[i]
    {
      assert v[i] == fd[PathKeys[i]][0];
    }
  }

  lemma PathPartsAt(v: seq<Str>, version: Str)
    requires |v| == 11
    ensures var parts := PathParts(v, version);
            parts[9] == version && parts[3] == v[1] && parts[2] == InstituteG(v[0]) && parts[0] == Lower(v[2])
  {
  }

  /** Slash-free values and version join into a path that splits back into
      the twelve components. */
  lemma PathPartsRead(v: seq<Str>, version: Str)
    requires |v| == 11 && '/' !in version
    requires forall i :: 0 <= i < |v| ==> '/' !in v[i]
    ensures Split(Join(PathParts(v, version), "/"), "/") == PathParts(v, version)
  {
    var parts := PathParts(v, version);
    forall k | 0 <= k < 12
      ensures '/' !in parts[k]
    {
      if k == 0 {
        forall i | 0 <= i < |parts[0]|
          ensures parts[0][i] != '/'
        {
          assert v[2][i] in v[2];
          assert parts[0][i] == LowerChar(v[2][i]);
        }
      } else if k == 2 {
        InstituteSlashFree(v[0]);
      } else {
        assert parts[k] in v || parts[k] == version;
      }
    }
    SplitJoinChar(parts, '/');
  }

  /** The gateway form of a slash-free name is slash-free. */
  lemma InstituteSlashFree(x: Str)
    requires '/' !in x
    ensures '/' !in InstituteG(x)
  {
    var pairs := InstitutePairs;
    if x in BuildG(pairs) {
      PairsConsistent();
      ValueIsSecond(pairs, x);
      var i :| 0 <= i < |pairs| && pairs[i].1 == BuildG(pairs)[x];
      assert pairs[i].1 == GatewayNames[i];
      GatewayNamesSlashFree(i);
    }
  }

  lemma GatewayNamesSlashFree(i: int)
    requires 0 <= i < |GatewayNames|
    ensures '/' !in GatewayNames[i]
  {
    if i == 0 {
    } else if i == 1 {
    } else if i == 2 {
    } else if i == 3 {
    } else if i == 4 {
    } else if i == 5 {
    } else if i == 6 {
    } else if i == 7 {
    } else if i == 8 {
    } else if i == 9 {
    } else if i == 10 {
    } else if i == 11 {
    } else if i == 12 {
    } else if i == 13 {
    } else if i == 14 {
    } else if i == 15 {
    } else if i == 16 {
    } else if i == 17 {
    } else if i == 18 {
    } else if i == 19 {
    } else if i == 20 {
    } else if i == 21 {
    } else if i == 22 {
    } else if i == 23 {
    } else if i == 24 {
    }
  }

  /** The rows of all records in order; the first bad record aborts. */
  function MakeRows(recs: seq<FileRecord>): (r: Result<seq<Row>, PyError>)
    ensures r.Success? ==> |r.value| <= |recs|
    ensures r.Failure? <==> exists i :: 0 <= i < |recs| && MakeRow(recs[i]).Failure?
    decreases |recs|
  {
    if |recs| == 0 then Success([])
    else
      var rest := MakeRows(recs[1..]);
      assert forall i :: 0 < i < |recs| ==> recs[i] == recs[1..][i - 1];
      match MakeRow(recs[0])
      case Failure(e) => Failure(e)
      case Success(row) =>
        match rest
        case Failure(e) => Failure(e)
        case Success(rows) => if row.Some? then Success([row.value] + rows) else Success(rows)
  }

  /** Every row comes from a record marked latest. */
  lemma {:induction false} MakeRowsFromLatest(recs: seq<FileRecord>, x: Row)
    requires MakeRows(recs).Success? && x in MakeRows(recs).value
    ensures exists i :: 0 <= i < |recs| && MakeRow(recs[i]) == Success(Some(x)) &&
                        Field(recs[i].fields, "latest") == Success("true")
    decreases |recs|
  {
    var row := MakeRow(recs[0]).value;
    if row != Some(x) {
      MakeRowsFromLatest(recs[1..], x);
      var i :| 0 <= i < |recs[1..]| && MakeRow(recs[1..][i]) == Success(Some(x)) &&
               Field(recs[1..][i].fields, "latest") == Success("true");
      assert recs[1..][i] == recs[i + 1];
    }
  }

  // ---------------------------------------------------------------------
  // Matching rows against the database
  // ---------------------------------------------------------------------

  /** The key a row is matched under: its path lower-cased, with the
      INM-CM4 model in its gateway spelling. */
  function HeldKey(path: Str): Str {
    Replace(Lower(path), "inm-cm4", "inmcm4")
  }

  /** The database paths, lower-cased. */
  function LoweredSet(files: seq<Str>): (r: set<Str>)
    ensures forall f :: f in files ==> Lower(f) in r
    ensures forall x :: x in r ==> exists f :: f in files && Lower(f) == x
  {
    set f | f in files :: Lower(f)
  }

  /** The rows whose key is (`keep`) or is not (`!keep`) in `keys`, in order. */
  function Select(rows: seq<Row>, keys: set<Str>, keep: bool): (r: seq<Row>)
    ensures |r| <= |rows|
    ensures forall x :: x in r <==> x in rows && (HeldKey(x.path) in keys <==> keep)
    decreases |rows|
  {
    if |rows| == 0 then []
    else
      var rest := Select(rows[1..], keys, keep);
      assert forall x :: x in rows <==> x == rows[0] || x in rows[1..];
      if (HeldKey(rows[0].path) in keys) == keep then [rows[0]] + rest else rest
  }

  /** Selection keeps the relative order: it distributes over concatenation. */
  lemma {:induction false} SelectAppend(a: seq<Row>, b: seq<Row>, keys: set<Str>, keep: bool)
    ensures Select(a + b, keys, keep) == Select(a, keys, keep) + Select(b, keys, keep)
    decreases |a|
  {
    if |a| == 0 {
      assert a + b == b;
    } else {
      assert (a + b)[0] == a[0] && (a + b)[1..] == a[1..] + b;
      SelectAppend(a[1..], b, keys, keep);
      SelectCons(a + b, keys, keep);
      SelectCons(a, keys, keep);
      var head := if (HeldKey(a[0].path) in keys) == keep then [a[0]] else [];
      ConcatAssoc(head, Select(a[1..], keys, keep), Select(b, keys, keep));
    }
  }

  /** One step of the selection: the first row, if kept, then the rest. */
  lemma SelectCons(rows: seq<Row>, keys: set<Str>, keep: bool)
    requires |rows| > 0
    ensures Select(rows, keys, keep) ==
              (if (HeldKey(rows[0].path) in keys) == keep then [rows[0]] else []) + Select(rows[1..], keys, keep)
  {
  }

  /** A path free of the INM spelling is matched by case alone. */
  lemma HeldKeyPlain(path: Str)
    requires Find(Lower(path), "inm-cm4") == -1
    ensures HeldKey(path) == Lower(path)
  {
    ReplaceAbsent(Lower(path), "inm-cm4", "inmcm4");
  }

  /** The download list after the database checks, as written: the
      already-held rows go unless the download is forced, then the rows the
      database does not know go; the debugging print between the two steps
      indexes the first remaining row. */
  function ReduceAsWritten(rows: seq<Row>, files0: seq<Str>, files1: seq<Str>, forced: bool): (r: Result<seq<Row>, PyError>)
    ensures r.Failure? ==> r.error == IndexError
    ensures r.Success? ==> r.value == Reduce(rows, files0, files1, forced)
  {
    var wanted := if forced then rows else Select(rows, LoweredSet(files0), false);
    if |wanted| == 0 then Failure(IndexError)
    else Success(Select(wanted, LoweredSet(files1), true))
  }

  /** The same reduction without the debugging print. */
  function Reduce(rows: seq<Row>, files0: seq<Str>, files1: seq<Str>, forced: bool): (r: seq<Row>)
    ensures |r| <= |rows|
  {
    var wanted := if forced then rows else Select(rows, LoweredSet(files0), false);
    Select(wanted, LoweredSet(files1), true)
  }

  /** A row survives exactly when the database knows it and, unless the
      download is forced, does not already hold it. */
  lemma ReduceMembers(rows: seq<Row>, files0: seq<Str>, files1: seq<Str>, forced: bool, x: Row)
    ensures x in Reduce(rows, files0, files1, forced) <==>
              (x in rows && (forced || HeldKey(x.path) !in LoweredSet(files0)) && HeldKey(x.path) in LoweredSet(files1))
  {
  }

  /** When every wanted file is already held, the print fails instead of an
      empty list being written. */
  lemma AllHeldRaisesAsWritten(rows: seq<Row>, files0: seq<Str>, files1: seq<Str>)
    requires forall i :: 0 <= i < |rows| ==> HeldKey(rows[i].path) in LoweredSet(files0)
    ensures ReduceAsWritten(rows, files0, files1, false) == Failure(IndexError)
    ensures Reduce(rows, files0, files1, false) == []
  {
    var wanted := Select(rows, LoweredSet(files0), false);
    if |wanted| > 0 {
      assert wanted[0] in rows;
    }
  }

  // ---------------------------------------------------------------------
  // Version wildcards
  // ---------------------------------------------------------------------

  /** A stored path with its version component (index 9) replaced by the
      SQL wildcard; IndexError for a path of fewer than ten components. */
  function Wildcard(f: Str): (r: Result<Str, PyError>)
    ensures r.Failure? <==> |Split(f, "/")| < 10
    ensures r.Failure? ==> r.error == IndexError
  {
    var fs := Split(f, "/");
    if |fs| < 10 then Failure(IndexError) else Success(Join(fs[9 := "%"], "/"))
  }

  /** Wildcarding changes component 9 and nothing else. */
  lemma WildcardParts(f: Str)
    requires Wildcard(f).Success?
    ensures Split(Wildcard(f).value, "/") == Split(f, "/")[9 := "%"]
  {
    var fs := Split(f, "/");
    SplitPiecesFree(f, '/');
    var ws := fs[9 := "%"];
    assert forall k :: 0 <= k < |ws| ==> '/' !in ws[k] by {
      forall k | 0 <= k < |ws|
        ensures '/' !in ws[k]
      {
        if k != 9 {
          assert ws[k] == fs[k];
        }
      }
    }
    SplitJoinChar(ws, '/');
  }

  /** Two paths that differ only in their version get the same wildcard, so
      either one finds the other. */
  lemma WildcardIgnoresVersion(f: Str, g: Str)
    requires |Split(f, "/")| >= 10 && |Split(f, "/")| == |Split(g, "/")|
    requires forall k :: 0 <= k < |Split(f, "/")| && k != 9 ==> Split(f, "/")[k] == Split(g, "/")[k]
    ensures Wildcard(f) == Wildcard(g)
  {
    assert Split(f, "/")[9 := "%"] == Split(g, "/")[9 := "%"];
  }

  /** `files2`: every database path wildcarded; the first short path aborts. */
  function Wildcards(files: seq<Str>): (r: Result<seq<Str>, PyError>)
    ensures r.Success? <==> forall i :: 0 <= i < |files| ==> Wildcard(files[i]).Success?
    ensures r.Success? ==> |r.value| == |files| && forall i :: 0 <= i < |files| ==> Wildcard(files[i]) == Success(r.value[i])
    decreases |files|
  {
    if |files| == 0 then Success([])
    else
      var rest := Wildcards(files[1..]);
      assert forall i :: 0 < i < |files| ==> files[i] == files[1..][i - 1];
      match Wildcard(files[0])
      case Failure(e) => Failure(e)
      case Success(w) =>
        match rest
        case Failure(e) => Failure(e)
        case Success(ws) => Success([w] + ws)
  }

  // ---------------------------------------------------------------------
  // Local copies of identical files held under another version
  // ---------------------------------------------------------------------

  /** A held file the wildcard query returns: its path, checksum and type. */
  datatype HeldCopy = HeldCopy(absPath: Str, checksum: Str, checksumType: Str)

  /** The first row whose path is `path` exactly. */
  function FirstRowAt(rows: seq<Row>, path: Str): (r: Option<nat>)
    ensures r.Some? ==> r.value < |rows| && rows[r.value].path == path
    ensures r.Some? ==> forall j :: 0 <= j < r.value ==> rows[j].path != path
    ensures r.None? <==> forall j :: 0 <= j < |rows| ==> rows[j].path != path
    decreases |rows|
  {
    if |rows| == 0 then None
    else if rows[0].path == path then Some(0)
    else match FirstRowAt(rows[1..], path)
         case None => None
         case Some(i) => Some(i + 1)
  }

  /** A held copy may replace the download: checksums equal ignoring case
      and not the DUMMY placeholder, types equal ignoring case, and the url
      not already a local one. */
  predicate Usable(row: Row, fi: HeldCopy) {
    Upper(fi.checksum) == Upper(row.checksum) && Upper(fi.checksum) != "DUMMY" &&
    Lower(fi.checksumType) == Lower(row.checksumType) && Find(row.url, "file") != 0
  }

  /** The url of a local copy. */
  function CopyUrl(head: Str, fi: HeldCopy): Str {
    "file://" + head + "/" + fi.absPath
  }

  /** One held copy considered for the database file `fil1`. */
  function UseCopy(rows: seq<Row>, fil1: Str, fi: HeldCopy, head: Str): (r: seq<Row>)
    ensures |r| == |rows|
  {
    match FirstRowAt(rows, fil1)
    case None => rows
    case Some(i) => if Usable(rows[i], fi) then rows[i := rows[i].(url := CopyUrl(head, fi))] else rows
  }

  /** All held copies found for `fil1`, in the order the query returns them. */
  function UseCopies(rows: seq<Row>, fil1: Str, hvf: seq<HeldCopy>, head: Str): (r: seq<Row>)
    ensures |r| == |rows|
    decreases |hvf|
  {
    if |hvf| == 0 then rows else UseCopies(UseCopy(rows, fil1, hvf[0], head), fil1, hvf[1..], head)
  }

  /** The first held copy usable for `row`. */
  function FirstUsable(row: Row, hvf: seq<HeldCopy>): (r: Option<HeldCopy>)
    ensures r.Some? ==> r.value in hvf && Usable(row, r.value)
    ensures r.None? <==> forall k :: 0 <= k < |hvf| ==> !Usable(row, hvf[k])
    decreases |hvf|
  {
    if |hvf| == 0 then None
    else if Usable(row, hvf[0]) then Some(hvf[0])
    else FirstUsable(row, hvf[1..])
  }

  /** `find("file") == 0` is "starts with file". */
  lemma FindFilePrefix(url: Str)
    ensures Find(url, "file") == 0 <==> StartsWith(url, "file")
  {
    if StartsWith(url, "file") {
      assert OccursAt(url, "file", 0);
      FindIsFirst(url, "file", 0);
    }
  }

  /** A local copy's url starts with "file". */
  lemma CopyUrlIsLocal(head: Str, fi: HeldCopy)
    ensures Find(CopyUrl(head, fi), "file") == 0
  {
    var u := CopyUrl(head, fi);
    assert u[..4] == "file";
    FindFilePrefix(u);
  }

  /** Changing urls leaves the row search alone. */
  lemma FirstRowAtUrls(rows: seq<Row>, rows2: seq<Row>, path: Str)
    requires |rows| == |rows2| && forall j :: 0 <= j < |rows| ==> rows[j].path == rows2[j].path
    ensures FirstRowAt(rows, path) == FirstRowAt(rows2, path)
  {
    match FirstRowAt(rows, path)
    case None =>
    case Some(i) =>
      assert rows2[i].path == path;
      assert forall j :: 0 <= j < i ==> rows2[j].path != path;
      FirstRowAtUnique(rows2, path, i);
  }

  /** The first matching index is the one before which nothing matches. */
  lemma FirstRowAtUnique(rows: seq<Row>, path: Str, i: nat)
    requires i < |rows| && rows[i].path == path && forall j :: 0 <= j < i ==> rows[j].path != path
    ensures FirstRowAt(rows, path) == Some(i)
  {
  }

  /** Once the matched row's url is local, further held copies change nothing. */
  lemma {:induction false} UseCopiesOnLocal(rows: seq<Row>, fil1: Str, hvf: seq<HeldCopy>, head: Str)
    requires FirstRowAt(rows, fil1).Some? ==> Find(rows[FirstRowAt(rows, fil1).value].url, "file") == 0
    ensures UseCopies(rows, fil1, hvf, head) == rows
    decreases |hvf|
  {
    if |hvf| > 0 {
      assert UseCopy(rows, fil1, hvf[0], head) == rows;
      UseCopiesOnLocal(rows, fil1, hvf[1..], head);
    }
  }

  /** The held copies for one file: the matched row takes the url of the
      first usable copy, and every other row is unchanged. */
  lemma {:induction false} UseCopiesSpec(rows: seq<Row>, fil1: Str, hvf: seq<HeldCopy>, head: Str)
    ensures UseCopies(rows, fil1, hvf, head) ==
              match FirstRowAt(rows, fil1)
              case None => rows
              case Some(i) =>
                match FirstUsable(rows[i], hvf)
                case None => rows
                case Some(fi) => rows[i := rows[i].(url := CopyUrl(head, fi))]
    decreases |hvf|
  {
    if |hvf| > 0 {
      var next := UseCopy(rows, fil1, hvf[0], head);
      match FirstRowAt(rows, fil1)
      case None =>
        UseCopiesSpec(next, fil1, hvf[1..], head);
      case Some(i) =>
        if Usable(rows[i], hvf[0]) {
          FirstRowAtUrls(rows, next, fil1);
          CopyUrlIsLocal(head, hvf[0]);
          UseCopiesOnLocal(next, fil1, hvf[1..], head);
        } else {
          UseCopiesSpec(next, fil1, hvf[1..], head);
        }
    }
  }

  /** Considering the same held copies a second time changes nothing. */
  lemma UseCopiesIdempotent(rows: seq<Row>, fil1: Str, hvf: seq<HeldCopy>, head: Str)
    ensures UseCopies(UseCopies(rows, fil1, hvf, head), fil1, hvf, head) == UseCopies(rows, fil1, hvf, head)
  {
    var once := UseCopies(rows, fil1, hvf, head);
    UseCopiesSpec(rows, fil1, hvf, head);
    match FirstRowAt(rows, fil1)
    case None =>
      UseCopiesSpec(once, fil1, hvf, head);
    case Some(i) =>
      match FirstUsable(rows[i], hvf)
      case None =>
        UseCopiesSpec(once, fil1, hvf, head);
      case Some(fi) =>
        FirstRowAtUrls(rows, once, fil1);
        CopyUrlIsLocal(head, fi);
        UseCopiesOnLocal(once, fil1, hvf, head);
  }

  /** The search for older versions over all database files, each held-copy
      list being what the wildcard query returned for that file. */
  function LocalCopiesFrom(rows: seq<Row>, files1: seq<Str>, hvfs: seq<seq<HeldCopy>>, head: Str): (r: seq<Row>)
    requires |hvfs| == |files1|
    ensures |r| == |rows|
    decreases |files1|
  {
    if |files1| == 0 then rows
    else LocalCopiesFrom(UseCopies(rows, files1[0], hvfs[0], head), files1[1..], hvfs[1..], head)
  }

  /** The older-version search of `download_list`: wildcard every database
      file, ask the database for held files matching each wildcard, and
      apply the held copies file by file. */
  function LocalCopies(rows: seq<Row>, files1: seq<Str>, query: Str -> seq<HeldCopy>, head: Str): (r: Result<seq<Row>, PyError>)
    ensures r.Failure? <==> exists i :: 0 <= i < |files1| && Wildcard(files1[i]).Failure?
    ensures r.Success? ==> |r.value| == |rows|
  {
    match Wildcards(files1)
    case Failure(e) => Failure(e)
    case Success(files2) =>
      Success(LocalCopiesFrom(rows, files1, seq(|files2|, i requires 0 <= i < |files2| => query(files2[i])), head))
  }

  /** The search only ever changes urls, and a changed url is a local copy. */
  lemma {:induction false} LocalCopiesKeep(rows: seq<Row>, files1: seq<Str>, hvfs: seq<seq<HeldCopy>>, head: Str)
    requires |hvfs| == |files1|
    ensures var r := LocalCopiesFrom(rows, files1, hvfs, head);
            forall j :: 0 <= j < |rows| ==>
              r[j] == rows[j].(url := r[j].url) &&
              (r[j].url == rows[j].url || StartsWith(r[j].url, "file://" + head + "/"))
    decreases |files1|
  {
    if |files1| > 0 {
      var next := UseCopies(rows, files1[0], hvfs[0], head);
      UseCopiesSpec(rows, files1[0], hvfs[0], head);
      LocalCopiesKeep(next, files1[1..], hvfs[1..], head);
      var r := LocalCopiesFrom(rows, files1, hvfs, head);
      forall j | 0 <= j < |rows|
        ensures r[j] == rows[j].(url := r[j].url)
        ensures r[j].url == rows[j].url || StartsWith(r[j].url, "file://" + head + "/")
      {
        if next[j].url != rows[j].url {
          var fi :| next[j].url == CopyUrl(head, fi);
          assert StartsWith(next[j].url, "file://" + head + "/");
        }
      }
    }
  }

  // ---------------------------------------------------------------------
  // The written list
  // ---------------------------------------------------------------------

  /** A line of the download list: url, target path under `head`, size,
      checksum and checksum type, tab-separated. */
  function ListLine(row: Row, head: Str): Str {
    Join([row.url, head + "/" + row.path, row.size, row.checksum, row.checksumType], "\t") + "\n"
  }

  /** Fields a tab-separated line carries unchanged. */
  predicate RowTabFree(row: Row, head: Str) {
    '\t' !in row.url && '\t' !in head && '\t' !in row.path && '\t' !in row.checksum && '\t' !in row.checksumType
  }

  /** Adding text after a join extends its last piece. */
  lemma {:induction false} JoinThenAppend(parts: seq<Str>, sep: Str, t: Str)
    requires |parts| >= 1
    ensures Join(parts, sep) + t == Join(parts[..|parts| - 1] + [parts[|parts| - 1] + t], sep)
    decreases |parts|
  {
    if |parts| > 1 {
      JoinThenAppend(parts[1..], sep, t);
      var ps := parts[..|parts| - 1] + [parts[|parts| - 1] + t];
      assert ps[1..] == parts[1..][..|parts| - 2] + [parts[|parts| - 1] + t];
    }
  }

  /** The downloader reads a written line back as the task for the row: the
      target under `head`, the url, the size and no flags. */
  lemma ListLineRead(row: Row, head: Str, n: int)
    requires RowTabFree(row, head) && row.size == IntToStr(n)
    ensures DownloadManager.ParseListLine(ListLine(row, head)) ==
              Success(Some(Task(head + "/" + row.path, row.url, Some(n), FlagInt(0))))
  {
    var parts := [row.url, head + "/" + row.path, row.size, row.checksum, row.checksumType];
    JoinThenAppend(parts, "\t", "\n");
    var ps := parts[..4] + [row.checksumType + "\n"];
    forall k | 0 <= k < |ps|
      ensures '\t' !in ps[k]
    {
      if k == 2 {
        assert forall c :: c in IntToStr(n) ==> c == '-' || IsDigit(c);
      }
    }
    SplitJoinChar(ps, '\t');
    ParseIntToStr(n);
  }
}
