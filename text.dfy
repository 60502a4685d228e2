/**
 * The string operations of Python that autompg.py relies on when it turns a
 * name field into a make and a model: str.isspace, str.split() with no
 * separator and ' '.join.
 */
module Text {

  /** Python's str.isspace on one character (Unicode whitespace, as CPython defines it). */
  predicate IsSpace(c: char)
  {
    var n := c as int;
    (9 <= n <= 13) || (28 <= n <= 32) || n == 0x85 || n == 0xA0 || n == 0x1680
    || (0x2000 <= n <= 0x200A) || n == 0x2028 || n == 0x2029 || n == 0x202F
    || n == 0x205F || n == 0x3000
  }

  predicate AllSpace(s: string)
  {
    forall i :: 0 <= i < |s| ==> IsSpace(s[i])
  }

  /** A token that str.split() can return: non-empty, no whitespace in it. */
  predicate IsWord(w: string)
  {
    |w| > 0 && forall i :: 0 <= i < |w| ==> !IsSpace(w[i])
  }

  predicate AllWords(ws: seq<string>)
  {
    forall i :: 0 <= i < |ws| ==> IsWord(ws[i])
  }

  /** Length of the leading run of non-whitespace characters of `s`. */
  function TokenLength(s: string): (n: nat)
    ensures n <= |s|
    ensures forall i :: 0 <= i < n ==> !IsSpace(s[i])
    ensures n < |s| ==> IsSpace(s[n])
  {
    if |s| == 0 || IsSpace(s[0]) then 0 else 1 + TokenLength(s[1..])
  }

  /** str.split() with no separator: maximal runs of non-whitespace, in order. */
  function Words(s: string): (ws: seq<string>)
    ensures AllWords(ws)
    decreases |s|
  {
    if |s| == 0 then []
    else if IsSpace(s[0]) then Words(s[1..])
    else
      var n := TokenLength(s);
      [s[..n]] + Words(s[n..])
  }

  /** ' '.join(ws). */
  function Join(ws: seq<string>): string
  {
    if |ws| == 0 then ""
    else if |ws| == 1 then ws[0]
    else ws[0] + " " + Join(ws[1..])
  }

  /** The characters of `s` that are not whitespace, in order. */
  function NonSpace(s: string): string
  {
    if |s| == 0 then ""
    else (if IsSpace(s[0]) then "" else [s[0]]) + NonSpace(s[1..])
  }

  function Concat(ws: seq<string>): string
  {
    if |ws| == 0 then "" else ws[0] + Concat(ws[1..])
  }

  /** Whitespace in `s` occurs only as single ' ' separators between non-blank characters. */
  predicate SingleSpaced(s: string)
  {
    && (forall i :: 0 <= i < |s| && IsSpace(s[i]) ==> s[i] == ' ')
    && (|s| > 0 ==> !IsSpace(s[0]) && !IsSpace(s[|s| - 1]))
    && (forall i :: 0 <= i < |s| - 1 && IsSpace(s[i]) ==> !IsSpace(s[i + 1]))
  }

  /** str.split() finds no token exactly when the string is all whitespace. */
  lemma {:induction false} WordsEmptyIffBlank(s: string)
    ensures Words(s) == [] <==> AllSpace(s)
    decreases |s|
  {
    if |s| > 0 && IsSpace(s[0]) {
      WordsEmptyIffBlank(s[1..]);
      assert AllSpace(s) <==> AllSpace(s[1..]);
    }
  }

  /** The tokens of str.split() hold exactly the non-whitespace characters of the string. */
  lemma {:induction false} WordsKeepNonSpace(s: string)
    ensures Concat(Words(s)) == NonSpace(s)
    decreases |s|
  {
    if |s| == 0 {
    } else if IsSpace(s[0]) {
      WordsKeepNonSpace(s[1..]);
      assert NonSpace(s) == NonSpace(s[1..]);
    } else {
      var n := TokenLength(s);
      var ws := Words(s[n..]);
      WordsKeepNonSpace(s[n..]);
      assert Words(s) == [s[..n]] + ws;
      assert ([s[..n]] + ws)[1..] == ws;
      assert Concat(Words(s)) == s[..n] + Concat(ws);
      NonSpaceOfWord(s[..n]);
      assert s[..n] + s[n..] == s;
      NonSpaceAppend(s[..n], s[n..]);
    }
  }

  lemma {:induction false} NonSpaceOfWord(w: string)
    requires forall i :: 0 <= i < |w| ==> !IsSpace(w[i])
    ensures NonSpace(w) == w
  {
    if |w| > 0 {
      NonSpaceOfWord(w[1..]);
    }
  }

  lemma {:induction false} NonSpaceAppend(a: string, b: string)
    ensures NonSpace(a + b) == NonSpace(a) + NonSpace(b)
  {
    if |a| == 0 {
      assert a + b == b;
    } else {
      assert (a + b)[1..] == a[1..] + b;
      NonSpaceAppend(a[1..], b);
    }
  }

  /** Splitting a word followed by whitespace-led text yields the word, then the rest's tokens. */
  lemma WordsOfWordThen(w: string, rest: string)
    requires IsWord(w)
    requires |rest| == 0 || IsSpace(rest[0])
    ensures Words(w + rest) == [w] + Words(rest)
  {
    var s := w + rest;
    TokenLengthOfWord(w, rest);
    assert s[..|w|] == w;
    assert s[|w|..] == rest;
  }

  lemma {:induction false} TokenLengthOfWord(w: string, rest: string)
    requires forall i :: 0 <= i < |w| ==> !IsSpace(w[i])
    requires |rest| == 0 || IsSpace(rest[0])
    ensures TokenLength(w + rest) == |w|
  {
    if |w| > 0 {
      assert (w + rest)[1..] == w[1..] + rest;
      TokenLengthOfWord(w[1..], rest);
    } else {
      assert w + rest == rest;
    }
  }

  /** Joining tokens with single spaces and splitting again gives the tokens back. */
  lemma {:induction false} WordsOfJoin(ws: seq<string>)
    requires AllWords(ws)
    ensures Words(Join(ws)) == ws
  {
    if |ws| == 0 {
    } else if |ws| == 1 {
      WordsOfWordThen(ws[0], "");
      assert ws[0] + "" == ws[0];
    } else {
      var tail := Join(ws[1..]);
      assert AllWords(ws[1..]);
      WordsOfJoin(ws[1..]);
      assert (" " + tail)[1..] == tail;
      assert Words(" " + tail) == Words(tail);
      WordsOfWordThen(ws[0], " " + tail);
      assert ws[0] + " " + tail == ws[0] + (" " + tail);
    }
  }

  /**
   * The text `pads[0] + ws[0] + pads[1] + ... + ws[n-1] + pads[n]`: words
   * with whitespace runs before, between and after them.
   */
  function Interleave(ws: seq<string>, pads: seq<string>): string
    requires |pads| == |ws| + 1
  {
    if |ws| == 0 then pads[0] else pads[0] + (ws[0] + Interleave(ws[1..], pads[1..]))
  }

  /**
   * str.split() of words separated by non-empty whitespace runs, with any
   * whitespace before and after, gives back exactly those words: each word
   * of the result is a maximal run of non-whitespace.
   */
  lemma {:induction false} WordsOfSpaced(ws: seq<string>, pads: seq<string>)
    requires |pads| == |ws| + 1 && AllWords(ws)
    requires forall i :: 0 <= i < |pads| ==> AllSpace(pads[i])
    requires forall i :: 0 < i < |ws| ==> |pads[i]| > 0
    ensures Words(Interleave(ws, pads)) == ws
  {
    if |ws| == 0 {
      WordsEmptyIffBlank(pads[0]);
    } else {
      var rest := Interleave(ws[1..], pads[1..]);
      assert AllWords(ws[1..]);
      WordsOfSpaced(ws[1..], pads[1..]);
      if |ws| > 1 {
        assert rest == pads[1] + (ws[1] + Interleave(ws[2..], pads[2..]));
        assert rest[0] == pads[1][0];
      } else {
        assert rest == pads[1];
      }
      WordsOfWordThen(ws[0], rest);
      WordsSkipSpace(pads[0], ws[0] + rest);
    }
  }

  /** Leading whitespace does not change the result of str.split(). */
  lemma {:induction false} WordsSkipSpace(p: string, s: string)
    requires AllSpace(p)
    ensures Words(p + s) == Words(s)
  {
    if |p| > 0 {
      assert (p + s)[1..] == p[1..] + s;
      WordsSkipSpace(p[1..], s);
    } else {
      assert p + s == s;
    }
  }

  /** ' '.join of tokens has no leading, trailing or doubled whitespace. */
  lemma {:induction false} JoinSingleSpaced(ws: seq<string>)
    requires AllWords(ws)
    ensures SingleSpaced(Join(ws))
    ensures Join(ws) == "" <==> ws == []
  {
    if |ws| >= 2 {
      assert AllWords(ws[1..]);
      JoinSingleSpaced(ws[1..]);
      var w, t := ws[0], Join(ws[1..]);
      var j := w + " " + t;
      assert Join(ws) == j;
      forall i | 0 <= i < |j| && IsSpace(j[i])
        ensures j[i] == ' '
      {
        if i > |w| { assert j[i] == t[i - |w| - 1]; }
      }
      forall i | 0 <= i < |j| - 1 && IsSpace(j[i])
        ensures !IsSpace(j[i + 1])
      {
        if i == |w| { assert j[i + 1] == t[0]; }
        else if i > |w| { assert j[i] == t[i - |w| - 1] && j[i + 1] == t[i - |w|]; }
      }
      assert j[|j| - 1] == t[|t| - 1];
    }
  }
}
