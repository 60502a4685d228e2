/**
 * The AutoMPG record of autompg.py (lines 23-45): one vehicle observation,
 * compared field by field for `==` and lexicographically on
 * (make, model, year, mpg) for `<`, as Python compares tuples.
 */
module Records {

  datatype AutoMpg = AutoMpg(make: string, model: string, year: int, mpg: real)

  /** Python's `<` on str: the first differing code point decides; a proper prefix is smaller. */
  predicate StrLess(s: string, t: string)
    decreases |s|
  {
    if |s| == 0 then |t| > 0
    else if |t| == 0 then false
    else if s[0] != t[0] then s[0] < t[0]
    else StrLess(s[1..], t[1..])
  }

  /** The textbook definition of lexicographic order on strings. */
  ghost predicate LexicographicallyBefore(s: string, t: string)
  {
    || (|s| < |t| && s == t[..|s|])
    || (exists k :: 0 <= k < |s| && k < |t| && s[..k] == t[..k] && s[k] < t[k])
  }

  /** AutoMPG.__eq__: all four fields equal. */
  function Equal(a: AutoMpg, b: AutoMpg): (eq: bool)
    ensures eq <==> a == b
  {
    a.make == b.make && a.model == b.model && a.year == b.year && a.mpg == b.mpg
  }

  /** AutoMPG.__lt__: tuple comparison of (make, model, year, mpg). */
  predicate Less(a: AutoMpg, b: AutoMpg)
  {
    if a.make != b.make then StrLess(a.make, b.make)
    else if a.model != b.model then StrLess(a.model, b.model)
    else if a.year != b.year then a.year < b.year
    else a.mpg < b.mpg
  }

  lemma {:induction false} StrLessIsLexicographic(s: string, t: string)
    ensures StrLess(s, t) <==> LexicographicallyBefore(s, t)
    decreases |s|
  {
    if |s| == 0 {
      if |t| > 0 { assert s == t[..0]; }
    } else if |t| == 0 {
    } else if s[0] != t[0] {
      if s[0] < t[0] {
        assert s[..0] == t[..0];
      }
    } else {
      StrLessIsLexicographic(s[1..], t[1..]);
      if LexicographicallyBefore(s[1..], t[1..]) {
        if |s| - 1 < |t| - 1 && s[1..] == t[1..][..|s| - 1] {
          assert s == t[..|s|];
        } else {
          var k :| 0 <= k < |s| - 1 && k < |t| - 1 && s[1..][..k] == t[1..][..k] && s[1..][k] < t[1..][k];
          assert s[..k + 1] == [s[0]] + s[1..][..k];
          assert t[..k + 1] == [t[0]] + t[1..][..k];
        }
      }
      if LexicographicallyBefore(s, t) {
        if |s| < |t| && s == t[..|s|] {
          assert s[1..] == t[1..][..|s| - 1];
        } else {
          var k :| 0 <= k < |s| && k < |t| && s[..k] == t[..k] && s[k] < t[k];
          assert k > 0;
          assert s[1..][..k - 1] == s[..k][1..] == t[..k][1..] == t[1..][..k - 1];
          assert s[1..][k - 1] < t[1..][k - 1];
        }
      }
    }
  }

  lemma {:induction false} StrLessIrreflexive(s: string)
    ensures !StrLess(s, s)
    decreases |s|
  {
    if |s| > 0 {
      StrLessIrreflexive(s[1..]);
    }
  }

  lemma {:induction false} StrLessTransitive(s: string, t: string, u: string)
    requires StrLess(s, t) && StrLess(t, u)
    ensures StrLess(s, u)
    decreases |s|
  {
    if |s| > 0 && s[0] == t[0] && t[0] == u[0] {
      StrLessTransitive(s[1..], t[1..], u[1..]);
    }
  }

  /** Two different strings are ordered one way or the other. */
  lemma {:induction false} StrLessConnected(s: string, t: string)
    requires s != t
    ensures StrLess(s, t) || StrLess(t, s)
    decreases |s|
  {
    if |s| > 0 && |t| > 0 && s[0] == t[0] {
      assert s == [s[0]] + s[1..] && t == [t[0]] + t[1..];
      StrLessConnected(s[1..], t[1..]);
    }
  }

  lemma StrLessAsymmetric(s: string, t: string)
    requires StrLess(s, t)
    ensures !StrLess(t, s)
  {
    if StrLess(t, s) {
      StrLessTransitive(s, t, s);
      StrLessIrreflexive(s);
    }
  }

  /** A record is never below itself. */
  lemma LessIrreflexive(a: AutoMpg)
    ensures !Less(a, a)
  {
  }

  lemma LessTransitive(a: AutoMpg, b: AutoMpg, c: AutoMpg)
    requires Less(a, b) && Less(b, c)
    ensures Less(a, c)
  {
    if a.make != b.make && b.make != c.make {
      StrLessTransitive(a.make, b.make, c.make);
      if a.make == c.make { StrLessAsymmetric(a.make, b.make); }
    } else if a.make == b.make && b.make == c.make && a.model != b.model && b.model != c.model {
      StrLessTransitive(a.model, b.model, c.model);
      if a.model == c.model { StrLessAsymmetric(a.model, b.model); }
    }
  }

  /** For any two records exactly one of a < b, b < a, a == b holds. */
  lemma LessTrichotomy(a: AutoMpg, b: AutoMpg)
    ensures Less(a, b) || Less(b, a) || a == b
    ensures !(Less(a, b) && Less(b, a))
    ensures a == b ==> !Less(a, b)
  {
    if a.make != b.make {
      StrLessConnected(a.make, b.make);
      if StrLess(a.make, b.make) { StrLessAsymmetric(a.make, b.make); }
    } else if a.model != b.model {
      StrLessConnected(a.model, b.model);
      if StrLess(a.model, b.model) { StrLessAsymmetric(a.model, b.model); }
    }
  }
}
