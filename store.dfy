/**
 * AutoMPGData (autompg.py lines 51-138): the list of records and the two
 * average tables, updated in place by loading, sorting and averaging.
 */
module Store {
  import opened Records
  import opened Parsing
  import opened Sorting
  import opened Grouping

  class AutoMpgData {
    var data: seq<AutoMpg>
    var yearlyAverages: map<int, real>
    var averagesByMake: map<string, real>

    /** The empty store that __init__ creates before it calls _load_data. */
    constructor ()
      ensures data == [] && yearlyAverages == map[] && averagesByMake == map[]
    {
      data := [];
      yearlyAverages := map[];
      averagesByMake := map[];
    }

    /**
     * The loop of _load_data: one record appended per row, in row order;
     * the first row that raises stops the loop, leaving the records
     * appended before it in place.
     */
    method LoadData(rows: seq<seq<string>>) returns (outcome: LoadOutcome)
      modifies this`data
      ensures data == old(data) + ParseRows(rows).records
      ensures outcome == ParseRows(rows).outcome
      ensures yearlyAverages == old(yearlyAverages) && averagesByMake == old(averagesByMake)
    {
      var i := 0;
      while i < |rows|
        invariant 0 <= i <= |rows|
        invariant ParseAll(ParseRow, rows[..i]).outcome == Loaded
        invariant data == old(data) + ParseAll(ParseRow, rows[..i]).records
      {
        ParseAllStep(ParseRow, rows, i);
        var parsed := ParseRow(rows[i]);
        if parsed.Err? {
          FailureIsFinal(ParseRow, rows, i + 1);
          return Failed(i, parsed.error);
        }
        data := data + [parsed.value];
        i := i + 1;
      }
      assert rows[..|rows|] == rows;
      return Loaded;
    }

    /** sort_by_default: list.sort() with AutoMPG.__lt__. */
    method SortByDefault()
      modifies this`data
      ensures data == SortBy(Default, old(data))
      ensures multiset(data) == multiset(old(data))
      ensures forall i, j :: 0 <= i < j < |data| ==> !Less(data[j], data[i])
      ensures yearlyAverages == old(yearlyAverages) && averagesByMake == old(averagesByMake)
    {
      data := SortBy(Default, data);
    }

    /** sort_by_year: sorted() keyed on the year. */
    method SortByYear()
      modifies this`data
      ensures data == SortBy(ByYear, old(data))
      ensures multiset(data) == multiset(old(data))
      ensures forall i, j :: 0 <= i < j < |data| ==> data[i].year <= data[j].year
      ensures forall x :: Ties(ByYear, data, x) == Ties(ByYear, old(data), x)
      ensures yearlyAverages == old(yearlyAverages) && averagesByMake == old(averagesByMake)
    {
      data := SortBy(ByYear, data);
    }

    /** sort_by_mpg: sorted() keyed on the mpg. */
    method SortByMpg()
      modifies this`data
      ensures data == SortBy(ByMpg, old(data))
      ensures multiset(data) == multiset(old(data))
      ensures forall i, j :: 0 <= i < j < |data| ==> data[i].mpg <= data[j].mpg
      ensures forall x :: Ties(ByMpg, data, x) == Ties(ByMpg, old(data), x)
      ensures yearlyAverages == old(yearlyAverages) && averagesByMake == old(averagesByMake)
    {
      data := SortBy(ByMpg, data);
    }

    /** mpg_by_year: the table of average mpg per year replaces yearly_averages. */
    method MpgByYear()
      modifies this`yearlyAverages
      ensures IsAverageTable(yearlyAverages, data, YearOf)
      ensures data == old(data) && averagesByMake == old(averagesByMake)
    {
      var averages := GroupAverages(data, YearOf);
      yearlyAverages := averages;
    }

    /** mpg_by_make: the table of average mpg per make replaces averages_by_make. */
    method MpgByMake()
      modifies this`averagesByMake
      ensures IsAverageTable(averagesByMake, data, MakeOf)
      ensures data == old(data) && yearlyAverages == old(yearlyAverages)
    {
      var averages := GroupAverages(data, MakeOf);
      averagesByMake := averages;
    }
  }
}
