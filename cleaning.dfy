/**
 * The per-line transform of AutoMPGData._clean_data (autompg.py lines 72-76):
 * every line of the raw file goes through str.expandtabs(1) and is written,
 * in order, to the clean file.
 */
module Cleaning {

  function Spaces(n: nat): (s: string)
    ensures |s| == n && forall i :: 0 <= i < n ==> s[i] == ' '
  {
    if n == 0 then "" else " " + Spaces(n - 1)
  }

  /**
   * str.expandtabs(tabsize) continued from output column `column`: a tab
   * becomes the spaces up to the next multiple of `tabsize` (nothing when
   * tabsize <= 0), a newline or carriage return resets the column.
   */
  function ExpandTabsFrom(s: string, tabsize: int, column: nat): string
  {
    if |s| == 0 then ""
    else if s[0] == '\t' then
      if tabsize > 0 then
        var incr := tabsize - column % tabsize;
        Spaces(incr) + ExpandTabsFrom(s[1..], tabsize, column + incr)
      else ExpandTabsFrom(s[1..], tabsize, column)
    else if s[0] == '\n' || s[0] == '\r' then [s[0]] + ExpandTabsFrom(s[1..], tabsize, 0)
    else [s[0]] + ExpandTabsFrom(s[1..], tabsize, column + 1)
  }

  /** str.expandtabs(tabsize). */
  function ExpandTabs(s: string, tabsize: int): string
  {
    ExpandTabsFrom(s, tabsize, 0)
  }

  /** The character-wise reading of expandtabs(1): each tab becomes one space. */
  function TabToSpace(c: char): (d: char)
    ensures d != '\t'
  {
    if c == '\t' then ' ' else c
  }

  /** Whatever the tab size, no tab survives expandtabs. */
  lemma {:induction false} ExpandTabsRemovesTabs(s: string, tabsize: int, column: nat)
    ensures forall i :: 0 <= i < |ExpandTabsFrom(s, tabsize, column)| ==> ExpandTabsFrom(s, tabsize, column)[i] != '\t'
    decreases |s|
  {
    if |s| > 0 {
      if s[0] == '\t' {
        if tabsize > 0 {
          ExpandTabsRemovesTabs(s[1..], tabsize, column + tabsize - column % tabsize);
        } else {
          ExpandTabsRemovesTabs(s[1..], tabsize, column);
        }
      } else if s[0] == '\n' || s[0] == '\r' {
        ExpandTabsRemovesTabs(s[1..], tabsize, 0);
      } else {
        ExpandTabsRemovesTabs(s[1..], tabsize, column + 1);
      }
    }
  }

  /**
   * With tab size 1 expandtabs keeps the length, replaces each tab by one
   * space and leaves every other character in its place, whatever the column.
   */
  lemma {:induction false} ExpandTabsOne(s: string, column: nat)
    ensures |ExpandTabsFrom(s, 1, column)| == |s|
    ensures forall i :: 0 <= i < |s| ==> ExpandTabsFrom(s, 1, column)[i] == TabToSpace(s[i])
    decreases |s|
  {
    if |s| > 0 {
      var next := if s[0] == '\t' then column + 1 else if s[0] == '\n' || s[0] == '\r' then 0 else column + 1;
      ExpandTabsOne(s[1..], next);
      assert s[0] == '\t' ==> 1 - column % 1 == 1;
      var r := ExpandTabsFrom(s, 1, column);
      assert r == [TabToSpace(s[0])] + ExpandTabsFrom(s[1..], 1, next);
    }
  }

  /** The loop over the raw lines: one cleaned line per raw line, in order. */
  method CleanLines(lines: seq<string>) returns (cleaned: seq<string>)
    ensures |cleaned| == |lines|
    ensures forall k :: 0 <= k < |lines| ==> cleaned[k] == ExpandTabs(lines[k], 1)
    ensures forall k :: 0 <= k < |lines| ==> |cleaned[k]| == |lines[k]|
    ensures forall k, i :: 0 <= k < |lines| && 0 <= i < |lines[k]| ==> cleaned[k][i] == TabToSpace(lines[k][i])
  {
    cleaned := [];
    for n := 0 to |lines|
      invariant |cleaned| == n
      invariant forall k :: 0 <= k < n ==> cleaned[k] == ExpandTabs(lines[k], 1)
    {
      cleaned := cleaned + [ExpandTabs(lines[n], 1)];
    }
    forall k | 0 <= k < |lines| {
      ExpandTabsOne(lines[k], 0);
    }
  }
}
