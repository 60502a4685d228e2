/**
 * The orders of AutoMPGData's three sorts (autompg.py lines 107-118). Python's
 * list.sort and sorted are stable and consult only `<`: on whole records for
 * sort_by_default, on the year or the mpg for the other two. The
 * specification here is a stable insertion sort; the lemmas show that it is
 * sorted, a permutation, stable, and the only arrangement with those
 * properties, so it is what any stable sort returns.
 */
module Sorting {
  import opened Records

  /** Which of sort_by_default, sort_by_year, sort_by_mpg is meant. */
  datatype SortKey = Default | ByYear | ByMpg

  /** The `<` the sort consults: AutoMPG.__lt__, or `<` on the year or the mpg. */
  predicate Before(key: SortKey, a: AutoMpg, b: AutoMpg)
  {
    match key
    case Default => Less(a, b)
    case ByYear => a.year < b.year
    case ByMpg => a.mpg < b.mpg
  }

  /** Neither record is below the other: a stable sort keeps such records in input order. */
  predicate Tied(key: SortKey, a: AutoMpg, b: AutoMpg)
  {
    !Before(key, a, b) && !Before(key, b, a)
  }

  /** No record is below a record to its left. */
  predicate Sorted(key: SortKey, s: seq<AutoMpg>)
  {
    forall i, j :: 0 <= i < j < |s| ==> !Before(key, s[j], s[i])
  }

  /** The records of `s` tied with `x`, in their order in `s`. */
  function Ties(key: SortKey, s: seq<AutoMpg>, x: AutoMpg): seq<AutoMpg>
  {
    if |s| == 0 then []
    else (if Tied(key, s[0], x) then [s[0]] else []) + Ties(key, s[1..], x)
  }

  /** Insert `x` after every record it is not below. */
  function Insert(key: SortKey, s: seq<AutoMpg>, x: AutoMpg): seq<AutoMpg>
  {
    if |s| == 0 then [x]
    else if Before(key, x, s[0]) then [x] + s
    else [s[0]] + Insert(key, s[1..], x)
  }

  /** The stable sort of `s`: the records inserted one by one, left to right. */
  function SortBy(key: SortKey, s: seq<AutoMpg>): (r: seq<AutoMpg>)
    ensures Sorted(key, r)
    ensures multiset(r) == multiset(s)
    ensures forall x :: Ties(key, r, x) == Ties(key, s, x)
    decreases |s|
  {
    if |s| == 0 then []
    else
      var init, last := s[..|s| - 1], s[|s| - 1];
      var sortedInit := SortBy(key, init);
      assert s == init + [last];
      InsertSorted(key, sortedInit, last);
      InsertMultiset(key, sortedInit, last);
      InsertTiesAll(key, sortedInit, init, last);
      Insert(key, sortedInit, last)
  }

  lemma BeforeIrreflexive(key: SortKey, a: AutoMpg)
    ensures !Before(key, a, a)
  {
    if key == Default { LessIrreflexive(a); }
  }

  lemma BeforeTransitive(key: SortKey, a: AutoMpg, b: AutoMpg, c: AutoMpg)
    requires Before(key, a, b) && Before(key, b, c)
    ensures Before(key, a, c)
  {
    if key == Default { LessTransitive(a, b, c); }
  }

  /** If a is below c, any b is above a or below c: ties are an equivalence. */
  lemma BeforeSplits(key: SortKey, a: AutoMpg, b: AutoMpg, c: AutoMpg)
    requires Before(key, a, c)
    ensures Before(key, a, b) || Before(key, b, c)
  {
    if key == Default {
      LessTrichotomy(a, b);
      LessTrichotomy(b, c);
      LessTrichotomy(a, c);
      if Less(b, a) && Less(c, b) {
        LessTransitive(c, b, a);
      }
    }
  }

  /** Under the record order only equal records are tied, so sort_by_default has no ties to keep. */
  lemma DefaultTiesAreEqual(a: AutoMpg, b: AutoMpg)
    ensures Tied(Default, a, b) <==> a == b
  {
    LessTrichotomy(a, b);
  }

  lemma {:induction false} InsertMultiset(key: SortKey, s: seq<AutoMpg>, x: AutoMpg)
    ensures multiset(Insert(key, s, x)) == multiset(s) + multiset{x}
  {
    if |s| > 0 && !Before(key, x, s[0]) {
      InsertMultiset(key, s[1..], x);
      assert s == [s[0]] + s[1..];
    }
  }

  lemma {:induction false} InsertSorted(key: SortKey, s: seq<AutoMpg>, x: AutoMpg)
    requires Sorted(key, s)
    ensures Sorted(key, Insert(key, s, x))
  {
    if |s| == 0 {
    } else if Before(key, x, s[0]) {
      forall j | 0 <= j < |s|
        ensures !Before(key, s[j], x)
      {
        if Before(key, s[j], x) {
          BeforeTransitive(key, s[j], x, s[0]);
          if j == 0 { BeforeIrreflexive(key, s[0]); }
        }
      }
      SortedCons(key, x, s);
    } else {
      InsertSorted(key, s[1..], x);
      InsertMultiset(key, s[1..], x);
      HeadStaysFirst(key, s, x);
      SortedCons(key, s[0], Insert(key, s[1..], x));
    }
  }

  /** A record no later record is below, put in front of a sorted sequence, keeps it sorted. */
  lemma SortedCons(key: SortKey, h: AutoMpg, t: seq<AutoMpg>)
    requires Sorted(key, t)
    requires forall j :: 0 <= j < |t| ==> !Before(key, t[j], h)
    ensures Sorted(key, [h] + t)
  {
    var r := [h] + t;
    forall i, j | 0 <= i < j < |r|
      ensures !Before(key, r[j], r[i])
    {
      assert r[j] == t[j - 1];
      if i > 0 { assert r[i] == t[i - 1]; }
    }
  }

  /** Inserting behind the head of a sorted sequence puts nothing below the head. */
  lemma HeadStaysFirst(key: SortKey, s: seq<AutoMpg>, x: AutoMpg)
    requires Sorted(key, s) && |s| > 0 && !Before(key, x, s[0])
    requires multiset(Insert(key, s[1..], x)) == multiset(s[1..]) + multiset{x}
    ensures forall j :: 0 <= j < |Insert(key, s[1..], x)| ==> !Before(key, Insert(key, s[1..], x)[j], s[0])
  {
    var rest := Insert(key, s[1..], x);
    forall j | 0 <= j < |rest|
      ensures !Before(key, rest[j], s[0])
    {
      assert rest[j] in multiset(rest);
      if rest[j] != x {
        assert rest[j] in multiset(s[1..]);
        var k :| 0 <= k < |s[1..]| && s[1..][k] == rest[j];
        assert s[k + 1] == rest[j];
      }
    }
  }

  lemma {:induction false} TiesAppend(key: SortKey, a: seq<AutoMpg>, b: seq<AutoMpg>, y: AutoMpg)
    ensures Ties(key, a + b, y) == Ties(key, a, y) + Ties(key, b, y)
  {
    if |a| == 0 {
      assert a + b == b;
    } else {
      assert (a + b)[1..] == a[1..] + b;
      TiesAppend(key, a[1..], b, y);
    }
  }

  lemma {:induction false} NoTies(key: SortKey, s: seq<AutoMpg>, y: AutoMpg)
    requires forall i :: 0 <= i < |s| ==> Before(key, y, s[i])
    ensures Ties(key, s, y) == []
  {
    if |s| > 0 {
      NoTies(key, s[1..], y);
    }
  }

  /** Inserting into a sorted sequence puts `x` after the records already tied with it. */
  lemma {:induction false} InsertTies(key: SortKey, s: seq<AutoMpg>, x: AutoMpg, y: AutoMpg)
    requires Sorted(key, s)
    ensures Ties(key, Insert(key, s, x), y) == Ties(key, s, y) + (if Tied(key, x, y) then [x] else [])
  {
    var e := if Tied(key, x, y) then [x] else [];
    if |s| == 0 {
      assert Insert(key, s, x) == [x];
    } else if Before(key, x, s[0]) {
      assert ([x] + s)[1..] == s;
      assert Ties(key, [x] + s, y) == e + Ties(key, s, y);
      if Tied(key, x, y) {
        TiedBelowAll(key, s, x, y);
        NoTies(key, s, y);
      }
    } else {
      var rest := Insert(key, s[1..], x);
      var h := if Tied(key, s[0], y) then [s[0]] else [];
      SortedTail(key, s);
      InsertTies(key, s[1..], x, y);
      assert ([s[0]] + rest)[1..] == rest;
      assert Ties(key, [s[0]] + rest, y) == h + Ties(key, rest, y);
      assert h + (Ties(key, s[1..], y) + e) == (h + Ties(key, s[1..], y)) + e;
    }
  }

  lemma SortedTail(key: SortKey, s: seq<AutoMpg>)
    requires Sorted(key, s) && |s| > 0
    ensures Sorted(key, s[1..])
  {
    forall i, j | 0 <= i < j < |s[1..]|
      ensures !Before(key, s[1..][j], s[1..][i])
    {
      assert s[1..][j] == s[j + 1] && s[1..][i] == s[i + 1];
    }
  }

  /** A record tied with one below the head of a sorted sequence is below all of it. */
  lemma TiedBelowAll(key: SortKey, s: seq<AutoMpg>, x: AutoMpg, y: AutoMpg)
    requires Sorted(key, s) && |s| > 0 && Before(key, x, s[0]) && Tied(key, x, y)
    ensures forall i :: 0 <= i < |s| ==> Before(key, y, s[i])
  {
    forall i | 0 <= i < |s|
      ensures Before(key, y, s[i])
    {
      if i > 0 { BeforeSplits(key, x, s[i], s[0]); }
      BeforeSplits(key, x, y, s[i]);
    }
  }

  lemma InsertTiesAll(key: SortKey, sortedInit: seq<AutoMpg>, init: seq<AutoMpg>, last: AutoMpg)
    requires Sorted(key, sortedInit)
    requires forall x :: Ties(key, sortedInit, x) == Ties(key, init, x)
    ensures forall x :: Ties(key, Insert(key, sortedInit, last), x) == Ties(key, init + [last], x)
  {
    forall x
      ensures Ties(key, Insert(key, sortedInit, last), x) == Ties(key, init + [last], x)
    {
      InsertTies(key, sortedInit, last, x);
      TiesAppend(key, init, [last], x);
      assert Ties(key, [last], x) == (if Tied(key, last, x) then [last] else []) + Ties(key, [], x);
    }
  }

  /**
   * Two sorted sequences that keep every class of tied records in the same
   * order are equal: a stable sort has exactly one possible result.
   */
  lemma {:induction false} SortedWithSameTiesAreEqual(key: SortKey, a: seq<AutoMpg>, b: seq<AutoMpg>)
    requires Sorted(key, a) && Sorted(key, b)
    requires forall x :: Ties(key, a, x) == Ties(key, b, x)
    ensures a == b
    decreases |a| + |b|
  {
    if |a| == 0 || |b| == 0 {
      if |a| > 0 { SelfTied(key, a, a[0]); }
      if |b| > 0 { SelfTied(key, b, b[0]); }
    } else {
      if Before(key, a[0], b[0]) {
        SmallerHasNoTies(key, b, a[0]);
        SelfTied(key, a, a[0]);
        assert false;
      }
      if Before(key, b[0], a[0]) {
        SmallerHasNoTies(key, a, b[0]);
        SelfTied(key, b, b[0]);
        assert false;
      }
      BeforeIrreflexive(key, a[0]);
      assert Ties(key, a, a[0])[0] == a[0];
      assert Ties(key, b, a[0])[0] == b[0];
      assert Ties(key, a, a[0]) == Ties(key, b, a[0]);
      assert a[0] == b[0];
      forall x
        ensures Ties(key, a[1..], x) == Ties(key, b[1..], x)
      {
        assert Ties(key, a, x) == (if Tied(key, a[0], x) then [a[0]] else []) + Ties(key, a[1..], x);
        assert Ties(key, b, x) == (if Tied(key, b[0], x) then [b[0]] else []) + Ties(key, b[1..], x);
        var head := if Tied(key, a[0], x) then [a[0]] else [];
        assert Ties(key, a, x) == Ties(key, b, x);
        assert Ties(key, a[1..], x) == Ties(key, a, x)[|head|..];
        assert Ties(key, b[1..], x) == Ties(key, b, x)[|head|..];
      }
      SortedWithSameTiesAreEqual(key, a[1..], b[1..]);
      assert a == [a[0]] + a[1..] && b == [b[0]] + b[1..];
    }
  }

  /** A record heading a sequence is the first of its own ties. */
  lemma SelfTied(key: SortKey, s: seq<AutoMpg>, x: AutoMpg)
    requires |s| > 0 && s[0] == x
    ensures |Ties(key, s, x)| > 0 && Ties(key, s, x)[0] == x
  {
    BeforeIrreflexive(key, x);
  }

  /** Nothing in a sorted sequence is tied with a record below its head. */
  lemma SmallerHasNoTies(key: SortKey, s: seq<AutoMpg>, x: AutoMpg)
    requires Sorted(key, s) && |s| > 0 && Before(key, x, s[0])
    ensures Ties(key, s, x) == []
  {
    forall i | 0 <= i < |s|
      ensures Before(key, x, s[i])
    {
      if i > 0 { BeforeSplits(key, x, s[i], s[0]); }
    }
    NoTies(key, s, x);
  }

  /** Any sorted rearrangement that keeps tied records in input order is SortBy's result. */
  lemma StableSortIsUnique(key: SortKey, s: seq<AutoMpg>, t: seq<AutoMpg>)
    requires Sorted(key, t)
    requires forall x :: Ties(key, t, x) == Ties(key, s, x)
    ensures t == SortBy(key, s)
  {
    SortedWithSameTiesAreEqual(key, t, SortBy(key, s));
  }
}
