/**
 * The group-by-average computations of AutoMPGData.mpg_by_year and
 * mpg_by_make (autompg.py lines 120-138): the mpg values are gathered per
 * key in record order, then each key's average is their sum divided by
 * their count. mpg values are exact reals, so the averages are exact.
 */
module Grouping {
  import opened Records

  /** The grouping key of mpg_by_year. */
  function YearOf(r: AutoMpg): int
  {
    r.year
  }

  /** The grouping key of mpg_by_make. */
  function MakeOf(r: AutoMpg): string
  {
    r.make
  }

  /** Python's sum() of a list: 0 plus the values, left to right. */
  function Sum(xs: seq<real>): real
  {
    if |xs| == 0 then 0.0 else Sum(xs[..|xs| - 1]) + xs[|xs| - 1]
  }

  /** The arithmetic mean as the source computes it: sum over count. */
  function Mean(xs: seq<real>): real
    requires |xs| > 0
  {
    Sum(xs) / |xs| as real
  }

  /** Every mpg value of `data`, in order. */
  function Mpgs(data: seq<AutoMpg>): seq<real>
  {
    if |data| == 0 then [] else Mpgs(data[..|data| - 1]) + [data[|data| - 1].mpg]
  }

  /** The keys that occur in `data`. */
  function KeysOf<K(==)>(data: seq<AutoMpg>, key: AutoMpg -> K): set<K>
  {
    set i | 0 <= i < |data| :: key(data[i])
  }

  /** The list the source builds for key `k`: the mpg of every record with that key, in order. */
  function GroupMpgs<K(==)>(data: seq<AutoMpg>, key: AutoMpg -> K, k: K): (g: seq<real>)
    ensures |g| > 0 <==> k in KeysOf(data, key)
    ensures |g| <= |data|
  {
    if |data| == 0 then []
    else
      var init, last := data[..|data| - 1], data[|data| - 1];
      KeysOfSnoc(data, key);
      GroupMpgs(init, key, k) + (if key(last) == k then [last.mpg] else [])
  }

  lemma KeysOfSnoc<K>(data: seq<AutoMpg>, key: AutoMpg -> K)
    requires |data| > 0
    ensures KeysOf(data, key) == KeysOf(data[..|data| - 1], key) + {key(data[|data| - 1])}
  {
    var init := data[..|data| - 1];
    forall k | k in KeysOf(data, key)
      ensures k in KeysOf(init, key) + {key(data[|data| - 1])}
    {
      var i :| 0 <= i < |data| && key(data[i]) == k;
      if i < |data| - 1 { assert init[i] == data[i]; }
    }
    forall k | k in KeysOf(init, key)
      ensures k in KeysOf(data, key)
    {
      var i :| 0 <= i < |init| && key(init[i]) == k;
      assert data[i] == init[i];
    }
  }

  /**
   * The table mpg_by_year / mpg_by_make stores: one entry per key occurring
   * in `data`, holding the sum of that key's mpg values divided by their count.
   */
  ghost predicate IsAverageTable<K>(avgs: map<K, real>, data: seq<AutoMpg>, key: AutoMpg -> K)
  {
    && avgs.Keys == KeysOf(data, key)
    && forall k :: k in avgs ==>
         |GroupMpgs(data, key, k)| > 0 && avgs[k] == Mean(GroupMpgs(data, key, k))
  }

  /** Both loops of mpg_by_year / mpg_by_make: gather the values per key, then average each list. */
  method GroupAverages<K(==)>(data: seq<AutoMpg>, key: AutoMpg -> K) returns (avgs: map<K, real>)
    ensures IsAverageTable(avgs, data, key)
  {
    var groups: map<K, seq<real>> := map[];
    for i := 0 to |data|
      invariant groups.Keys == KeysOf(data[..i], key)
      invariant forall k :: k in groups ==> groups[k] == GroupMpgs(data[..i], key, k)
    {
      var car := data[i];
      GroupsStep(data, key, i, groups);
      if key(car) in groups {
        groups := groups[key(car) := groups[key(car)] + [car.mpg]];
      } else {
        groups := groups[key(car) := [car.mpg]];
      }
    }
    assert data[..|data|] == data;
    avgs := map[];
    var pending := groups.Keys;
    while pending != {}
      invariant pending <= groups.Keys
      invariant avgs.Keys == groups.Keys - pending
      invariant forall k :: k in avgs ==> |groups[k]| > 0 && avgs[k] == Mean(groups[k])
      decreases pending
    {
      var k :| k in pending;
      avgs := avgs[k := Sum(groups[k]) / |groups[k]| as real];
      pending := pending - {k};
    }
  }

  /** Appending record `i` to its key's list keeps the lists equal to the groups of the longer prefix. */
  lemma GroupsStep<K>(data: seq<AutoMpg>, key: AutoMpg -> K, i: nat, groups: map<K, seq<real>>)
    requires i < |data|
    requires groups.Keys == KeysOf(data[..i], key)
    requires forall k :: k in groups ==> groups[k] == GroupMpgs(data[..i], key, k)
    ensures var car := data[i];
            var next := if key(car) in groups then groups[key(car) := groups[key(car)] + [car.mpg]]
                        else groups[key(car) := [car.mpg]];
            && next.Keys == KeysOf(data[..i + 1], key)
            && forall k :: k in next ==> next[k] == GroupMpgs(data[..i + 1], key, k)
  {
    assert data[..i + 1][..i] == data[..i];
    assert data[..i + 1][i] == data[i];
    KeysOfSnoc(data[..i + 1], key);
  }

  predicate Distinct<K(==)>(ks: seq<K>)
  {
    forall i, j :: 0 <= i < j < |ks| ==> ks[i] != ks[j]
  }

  /** The sum over the keys `ks` of each group's total. */
  function GroupTotals<K(==)>(data: seq<AutoMpg>, key: AutoMpg -> K, ks: seq<K>): real
  {
    if |ks| == 0 then 0.0 else GroupTotals(data, key, ks[..|ks| - 1]) + Sum(GroupMpgs(data, key, ks[|ks| - 1]))
  }

  /** The sum over the keys `ks` of group size times the table's average. */
  function WeightedTotal<K(==)>(avgs: map<K, real>, data: seq<AutoMpg>, key: AutoMpg -> K, ks: seq<K>): real
    requires forall i :: 0 <= i < |ks| ==> ks[i] in avgs
  {
    if |ks| == 0 then 0.0
    else
      var k := ks[|ks| - 1];
      WeightedTotal(avgs, data, key, ks[..|ks| - 1]) + |GroupMpgs(data, key, k)| as real * avgs[k]
  }

  /** Count times average gives back the sum. */
  lemma CountTimesMean(xs: seq<real>)
    requires |xs| > 0
    ensures |xs| as real * Mean(xs) == Sum(xs)
  {
  }

  lemma {:induction false} SumBounds(xs: seq<real>, lo: real, hi: real)
    requires forall i :: 0 <= i < |xs| ==> lo <= xs[i] <= hi
    ensures |xs| as real * lo <= Sum(xs) <= |xs| as real * hi
  {
    if |xs| > 0 {
      var n := |xs| - 1;
      SumBounds(xs[..n], lo, hi);
      assert (n + 1) as real * lo == n as real * lo + lo;
      assert (n + 1) as real * hi == n as real * hi + hi;
    }
  }

  /** An average lies between the smallest and the largest value averaged. */
  lemma MeanWithinBounds(xs: seq<real>, lo: real, hi: real)
    requires |xs| > 0
    requires forall i :: 0 <= i < |xs| ==> lo <= xs[i] <= hi
    ensures lo <= Mean(xs) <= hi
  {
    SumBounds(xs, lo, hi);
    var n := |xs| as real;
    assert Sum(xs) / n >= (n * lo) / n;
    assert Sum(xs) / n <= (n * hi) / n;
  }

  lemma SumSnoc(xs: seq<real>, v: real)
    ensures Sum(xs + [v]) == Sum(xs) + v
  {
    assert (xs + [v])[..|xs|] == xs;
  }

  /** A new last record adds its mpg to its own key's group total and nothing to the others. */
  lemma {:induction false} GroupTotalsSnoc<K>(data: seq<AutoMpg>, key: AutoMpg -> K, ks: seq<K>)
    requires |data| > 0 && Distinct(ks)
    ensures var x := data[|data| - 1];
            GroupTotals(data, key, ks)
            == GroupTotals(data[..|data| - 1], key, ks) + (if key(x) in ks then x.mpg else 0.0)
  {
    var x := data[|data| - 1];
    if |ks| > 0 {
      var init, k := ks[..|ks| - 1], ks[|ks| - 1];
      assert Distinct(init);
      GroupTotalsSnoc(data, key, init);
      var g := GroupMpgs(data[..|data| - 1], key, k);
      if key(x) == k {
        SumSnoc(g, x.mpg);
        assert key(x) !in init;
      } else {
        assert g + [] == g;
        assert key(x) in ks <==> key(x) in init;
      }
    }
  }

  lemma {:induction false} GroupTotalsOfNothing<K>(key: AutoMpg -> K, ks: seq<K>)
    ensures GroupTotals([], key, ks) == 0.0
  {
    if |ks| > 0 {
      GroupTotalsOfNothing(key, ks[..|ks| - 1]);
    }
  }

  /** Summing every group's total over a list of distinct keys that covers the data gives the total mpg. */
  lemma {:induction false} GroupTotalsCoverAll<K>(data: seq<AutoMpg>, key: AutoMpg -> K, ks: seq<K>)
    requires Distinct(ks)
    requires forall k :: k in KeysOf(data, key) ==> k in ks
    ensures GroupTotals(data, key, ks) == Sum(Mpgs(data))
  {
    if |data| == 0 {
      GroupTotalsOfNothing(key, ks);
    } else {
      var init, x := data[..|data| - 1], data[|data| - 1];
      KeysOfSnoc(data, key);
      GroupTotalsCoverAll(init, key, ks);
      GroupTotalsSnoc(data, key, ks);
      assert Mpgs(data) == Mpgs(init) + [x.mpg];
      SumSnoc(Mpgs(init), x.mpg);
    }
  }

  lemma {:induction false} WeightedIsGroupTotals<K>(avgs: map<K, real>, data: seq<AutoMpg>, key: AutoMpg -> K, ks: seq<K>)
    requires forall i :: 0 <= i < |ks| ==>
               ks[i] in avgs && |GroupMpgs(data, key, ks[i])| > 0 && avgs[ks[i]] == Mean(GroupMpgs(data, key, ks[i]))
    ensures WeightedTotal(avgs, data, key, ks) == GroupTotals(data, key, ks)
  {
    if |ks| > 0 {
      var k := ks[|ks| - 1];
      WeightedIsGroupTotals(avgs, data, key, ks[..|ks| - 1]);
      CountTimesMean(GroupMpgs(data, key, k));
    }
  }

  /**
   * Whatever order the table's keys are listed in (Python lists them in
   * order of first occurrence), group size times average, summed over the
   * keys, gives back the total mpg of the data.
   */
  lemma AveragesRecoverTotal<K>(avgs: map<K, real>, data: seq<AutoMpg>, key: AutoMpg -> K, ks: seq<K>)
    requires IsAverageTable(avgs, data, key)
    requires Distinct(ks)
    requires forall i :: 0 <= i < |ks| ==> ks[i] in avgs
    requires forall k :: k in avgs ==> k in ks
    ensures WeightedTotal(avgs, data, key, ks) == Sum(Mpgs(data))
  {
    WeightedIsGroupTotals(avgs, data, key, ks);
    GroupTotalsCoverAll(data, key, ks);
  }

  /** Each value of a group is the mpg of a record with that key. */
  lemma {:induction false} GroupMembers<K>(data: seq<AutoMpg>, key: AutoMpg -> K, k: K, j: nat)
    requires j < |GroupMpgs(data, key, k)|
    ensures exists i :: 0 <= i < |data| && key(data[i]) == k && data[i].mpg == GroupMpgs(data, key, k)[j]
  {
    var init, last := data[..|data| - 1], data[|data| - 1];
    var g := GroupMpgs(init, key, k);
    if j < |g| {
      GroupMembers(init, key, k, j);
      var i :| 0 <= i < |init| && key(init[i]) == k && init[i].mpg == g[j];
      assert data[i] == init[i];
    } else {
      assert key(last) == k && GroupMpgs(data, key, k)[j] == last.mpg;
    }
  }

  /** The positions of the records with key `k`, in order. */
  function GroupIndices<K(==)>(data: seq<AutoMpg>, key: AutoMpg -> K, k: K): seq<nat>
  {
    if |data| == 0 then []
    else
      var last := |data| - 1;
      GroupIndices(data[..last], key, k) + (if key(data[last]) == k then [last] else [])
  }

  /**
   * A key's group holds the mpg of exactly the records with that key, each
   * once, in record order: it is indexed by a strictly increasing sequence
   * of positions that contains a position exactly when its record has the key.
   */
  lemma {:induction false} GroupMpgsExact<K>(data: seq<AutoMpg>, key: AutoMpg -> K, k: K)
    ensures |GroupIndices(data, key, k)| == |GroupMpgs(data, key, k)|
    ensures forall j :: 0 <= j < |GroupIndices(data, key, k)| ==> GroupIndices(data, key, k)[j] < |data|
    ensures forall j1, j2 :: 0 <= j1 < j2 < |GroupIndices(data, key, k)| ==>
              GroupIndices(data, key, k)[j1] < GroupIndices(data, key, k)[j2]
    ensures forall i :: 0 <= i < |data| ==> (key(data[i]) == k <==> i in GroupIndices(data, key, k))
    ensures forall j :: 0 <= j < |GroupIndices(data, key, k)| ==>
              GroupMpgs(data, key, k)[j] == data[GroupIndices(data, key, k)[j]].mpg
  {
    GroupIndicesIncreasing(data, key, k);
    GroupIndicesMembers(data, key, k);
    GroupMpgsAtIndices(data, key, k);
  }

  lemma {:induction false} GroupIndicesIncreasing<K>(data: seq<AutoMpg>, key: AutoMpg -> K, k: K)
    ensures forall j :: 0 <= j < |GroupIndices(data, key, k)| ==> GroupIndices(data, key, k)[j] < |data|
    ensures forall j1, j2 :: 0 <= j1 < j2 < |GroupIndices(data, key, k)| ==>
              GroupIndices(data, key, k)[j1] < GroupIndices(data, key, k)[j2]
  {
    if |data| > 0 {
      GroupIndicesIncreasing(data[..|data| - 1], key, k);
    }
  }

  lemma {:induction false} GroupIndicesMembers<K>(data: seq<AutoMpg>, key: AutoMpg -> K, k: K)
    ensures forall i :: 0 <= i < |data| ==> (key(data[i]) == k <==> i in GroupIndices(data, key, k))
  {
    if |data| > 0 {
      var last := |data| - 1;
      var init := data[..last];
      GroupIndicesMembers(init, key, k);
      GroupIndicesIncreasing(init, key, k);
      assert last !in GroupIndices(init, key, k);
      forall i | 0 <= i < last
        ensures key(data[i]) == k <==> i in GroupIndices(data, key, k)
      {
        assert data[i] == init[i];
      }
    }
  }

  lemma {:induction false} GroupMpgsAtIndices<K>(data: seq<AutoMpg>, key: AutoMpg -> K, k: K)
    ensures |GroupIndices(data, key, k)| == |GroupMpgs(data, key, k)|
    ensures forall j :: 0 <= j < |GroupIndices(data, key, k)| ==> GroupIndices(data, key, k)[j] < |data|
    ensures forall j :: 0 <= j < |GroupIndices(data, key, k)| ==>
              GroupMpgs(data, key, k)[j] == data[GroupIndices(data, key, k)[j]].mpg
  {
    if |data| > 0 {
      var init := data[..|data| - 1];
      GroupMpgsAtIndices(init, key, k);
      var idx0 := GroupIndices(init, key, k);
      forall j | 0 <= j < |idx0|
        ensures GroupMpgs(data, key, k)[j] == data[GroupIndices(data, key, k)[j]].mpg
      {
        assert data[idx0[j]] == init[idx0[j]];
      }
    }
  }

  /** Each average of the table lies between the least and the greatest mpg of its key's records. */
  lemma AverageWithinGroup<K>(avgs: map<K, real>, data: seq<AutoMpg>, key: AutoMpg -> K, k: K, lo: real, hi: real)
    requires IsAverageTable(avgs, data, key)
    requires forall i :: 0 <= i < |data| && key(data[i]) == k ==> lo <= data[i].mpg <= hi
    requires k in avgs
    ensures lo <= avgs[k] <= hi
  {
    var g := GroupMpgs(data, key, k);
    forall j | 0 <= j < |g|
      ensures lo <= g[j] <= hi
    {
      GroupMembers(data, key, k, j);
    }
    MeanWithinBounds(g, lo, hi);
  }

  /** Two 1970 records with mpg 18.0 and 22.0 give the year 1970 the average 20.0. */
  lemma YearAverageExample(avgs: map<int, real>)
    requires IsAverageTable(avgs, [AutoMpg("chevrolet", "malibu", 1970, 18.0), AutoMpg("ford", "torino", 1970, 22.0)], YearOf)
    ensures avgs == map[1970 := 20.0]
  {
    ExampleKeys();
    ExampleGroup();
    ExampleSum();
    assert avgs.Keys == {1970};
    assert avgs[1970] == 40.0 / 2.0;
  }

  lemma ExampleKeys()
    ensures KeysOf([AutoMpg("chevrolet", "malibu", 1970, 18.0), AutoMpg("ford", "torino", 1970, 22.0)], YearOf) == {1970}
  {
    var data := [AutoMpg("chevrolet", "malibu", 1970, 18.0), AutoMpg("ford", "torino", 1970, 22.0)];
    assert YearOf(data[0]) == 1970;
  }

  lemma ExampleGroup()
    ensures GroupMpgs([AutoMpg("chevrolet", "malibu", 1970, 18.0), AutoMpg("ford", "torino", 1970, 22.0)], YearOf, 1970)
            == [18.0, 22.0]
  {
    var data := [AutoMpg("chevrolet", "malibu", 1970, 18.0), AutoMpg("ford", "torino", 1970, 22.0)];
    assert data[..1] == [data[0]];
    assert data[..1][..0] == [];
    assert GroupMpgs(data[..1], YearOf, 1970) == [18.0];
  }

  lemma ExampleSum()
    ensures Sum([18.0, 22.0]) == 40.0
  {
    assert [18.0, 22.0][..1] == [18.0];
    assert [18.0][..0] == [];
  }
}
