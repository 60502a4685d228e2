/**
 * Row-to-record conversion of AutoMPGData._load_data (autompg.py lines
 * 87-104): the name field is split into a make, corrected against a fixed
 * list of misspellings, and a model; the year is the two-digit year plus
 * 1900; the mpg is the first field.
 */
module Parsing {
  import opened Wrappers
  import opened Text
  import opened Numbers
  import opened Records

  /** The misspelled makes of the dataset and their corrections (autompg.py lines 91-100). */
  const MakeCorrections: map<string, string> := map[
    "chevy" := "chevrolet",
    "chevroelt" := "chevrolet",
    "maxda" := "mazda",
    "mercedes-benz" := "mercedes",
    "toyouta" := "toyata",
    "vokswagen" := "volkswagen",
    "vw" := "volkswagen"
  ]

  /** The chain of exact-match corrections applied to the first token of the name. */
  function NormalizeMake(ma: string): (r: string)
    ensures r == if ma in MakeCorrections then MakeCorrections[ma] else ma
  {
    if ma == "chevy" || ma == "chevroelt" then "chevrolet"
    else if ma == "maxda" then "mazda"
    else if ma == "mercedes-benz" then "mercedes"
    else if ma == "toyouta" then "toyata"
    else if ma == "vokswagen" || ma == "vw" then "volkswagen"
    else ma
  }

  /** No corrected make is itself a misspelling, so correcting twice changes nothing more. */
  lemma NormalizeMakeIdempotent(ma: string)
    ensures NormalizeMake(NormalizeMake(ma)) == NormalizeMake(ma)
    ensures NormalizeMake(ma) !in MakeCorrections
  {
  }

  /**
   * Why a row yields no record. Python raises IndexError for the first two
   * (row[8] and mmsplit[0]) and ValueError for the last two (int() and float()).
   */
  datatype ParseError = TooFewFields | EmptyName | BadYear | BadMpg

  /** One csv row (already split into fields) to one record, or the error Python raises. */
  function ParseRow(row: seq<string>): Result<AutoMpg, ParseError>
  {
    if |row| < 9 then Err(TooFewFields)
    else BuildRecord(Words(row[8]), ParseInt(row[6]), ParseDecimal(row[0]))
  }

  /** The record built from the name's tokens and the converted year and mpg fields. */
  function BuildRecord(tokens: seq<string>, offset: Option<int>, mpg: Option<real>): Result<AutoMpg, ParseError>
  {
    if |tokens| == 0 then Err(EmptyName)
    else if offset.None? then Err(BadYear)
    else if mpg.None? then Err(BadMpg)
    else Ok(AutoMpg(NormalizeMake(tokens[0]), Join(tokens[1..]), offset.value + 1900, mpg.value))
  }

  /** Which rows fail, and with which error, in the order Python evaluates the fields. */
  lemma ParseRowErrors(row: seq<string>)
    ensures ParseRow(row) == Err(TooFewFields) <==> |row| < 9
    ensures ParseRow(row) == Err(EmptyName) <==> |row| >= 9 && AllSpace(row[8])
    ensures ParseRow(row) == Err(BadYear) <==> |row| >= 9 && !AllSpace(row[8]) && ParseInt(row[6]).None?
    ensures ParseRow(row) == Err(BadMpg) <==>
              |row| >= 9 && !AllSpace(row[8]) && ParseInt(row[6]).Some? && ParseDecimal(row[0]).None?
    ensures ParseRow(row).Ok? <==>
              |row| >= 9 && !AllSpace(row[8]) && ParseInt(row[6]).Some? && ParseDecimal(row[0]).Some?
  {
    if |row| >= 9 {
      WordsEmptyIffBlank(row[8]);
    }
  }

  /**
   * A parsed record: the year is field 6 plus 1900, the mpg is field 0, the
   * make is the corrected first token of field 8 and the model re-splits into
   * the remaining tokens, single-spaced, empty exactly when there are none.
   */
  lemma ParseRowFields(row: seq<string>)
    requires ParseRow(row).Ok?
    ensures |row| >= 9 && |Words(row[8])| > 0
    ensures ParseRow(row).value.year == ParseInt(row[6]).value + 1900
    ensures ParseRow(row).value.mpg == ParseDecimal(row[0]).value
    ensures ParseRow(row).value.make == NormalizeMake(Words(row[8])[0])
    ensures ParseRow(row).value.make !in MakeCorrections
    ensures Words(ParseRow(row).value.model) == Words(row[8])[1..]
    ensures SingleSpaced(ParseRow(row).value.model)
    ensures ParseRow(row).value.model == "" <==> |Words(row[8])| == 1
  {
    var tokens := Words(row[8]);
    NormalizeMakeIdempotent(tokens[0]);
    assert AllWords(tokens[1..]);
    WordsOfJoin(tokens[1..]);
    JoinSingleSpaced(tokens[1..]);
  }

  /** How loading the rows ended: every row gave a record, or the first row that did not. */
  datatype LoadOutcome = Loaded | Failed(row: nat, error: ParseError)

  datatype Parsed = Parsed(records: seq<AutoMpg>, outcome: LoadOutcome)

  /**
   * The records _load_data appends for `rows`: one per row, in row order, up
   * to the first row that raises, and how the loading ended.
   */
  function ParseRows(rows: seq<seq<string>>): Parsed
  {
    ParseAll(ParseRow, rows)
  }

  /** Applies `parse` to each row in order, stopping at the first error. */
  function ParseAll(parse: seq<string> -> Result<AutoMpg, ParseError>, rows: seq<seq<string>>): Parsed
  {
    if |rows| == 0 then Parsed([], Loaded)
    else
      var last := |rows| - 1;
      var before := ParseAll(parse, rows[..last]);
      if before.outcome.Failed? then before
      else
        match parse(rows[last])
        case Ok(r) => Parsed(before.records + [r], Loaded)
        case Err(e) => Parsed(before.records, Failed(last, e))
  }

  /**
   * Loading succeeds exactly when every row parses; the records are the
   * parsed rows in order; a failure names the first row that does not parse.
   */
  lemma {:induction false} ParseAllSpec(parse: seq<string> -> Result<AutoMpg, ParseError>, rows: seq<seq<string>>)
    ensures ParseAll(parse, rows).outcome == Loaded <==> forall i :: 0 <= i < |rows| ==> parse(rows[i]).Ok?
    ensures ParseAll(parse, rows).outcome == Loaded ==> |ParseAll(parse, rows).records| == |rows|
    ensures ParseAll(parse, rows).outcome.Failed? ==>
              && ParseAll(parse, rows).outcome.row < |rows|
              && |ParseAll(parse, rows).records| == ParseAll(parse, rows).outcome.row
              && parse(rows[ParseAll(parse, rows).outcome.row]) == Err(ParseAll(parse, rows).outcome.error)
    ensures forall i :: 0 <= i < |ParseAll(parse, rows).records| ==>
              parse(rows[i]) == Ok(ParseAll(parse, rows).records[i])
  {
    if |rows| > 0 {
      var init := rows[..|rows| - 1];
      ParseAllSpec(parse, init);
      assert forall i :: 0 <= i < |init| ==> rows[i] == init[i];
    }
  }

  /** The same facts for the rows of the data file, parsed by ParseRow. */
  lemma ParseRowsSpec(rows: seq<seq<string>>)
    ensures ParseRows(rows).outcome == Loaded <==> forall i :: 0 <= i < |rows| ==> ParseRow(rows[i]).Ok?
    ensures ParseRows(rows).outcome == Loaded ==> |ParseRows(rows).records| == |rows|
    ensures ParseRows(rows).outcome.Failed? ==>
              && ParseRows(rows).outcome.row < |rows|
              && |ParseRows(rows).records| == ParseRows(rows).outcome.row
              && ParseRow(rows[ParseRows(rows).outcome.row]) == Err(ParseRows(rows).outcome.error)
    ensures forall i :: 0 <= i < |ParseRows(rows).records| ==> ParseRow(rows[i]) == Ok(ParseRows(rows).records[i])
  {
    ParseAllSpec(ParseRow, rows);
  }

  /** Taking one more row: a parsed row is appended, an error recorded, an earlier error kept. */
  lemma ParseAllStep(parse: seq<string> -> Result<AutoMpg, ParseError>, rows: seq<seq<string>>, j: nat)
    requires j < |rows|
    ensures ParseAll(parse, rows[..j]).outcome.Failed? ==> ParseAll(parse, rows[..j + 1]) == ParseAll(parse, rows[..j])
    ensures ParseAll(parse, rows[..j]).outcome == Loaded && parse(rows[j]).Ok? ==>
              ParseAll(parse, rows[..j + 1]) == Parsed(ParseAll(parse, rows[..j]).records + [parse(rows[j]).value], Loaded)
    ensures ParseAll(parse, rows[..j]).outcome == Loaded && parse(rows[j]).Err? ==>
              ParseAll(parse, rows[..j + 1]) == Parsed(ParseAll(parse, rows[..j]).records, Failed(j, parse(rows[j]).error))
  {
    assert rows[..j + 1][..j] == rows[..j];
    assert rows[..j + 1][j] == rows[j];
  }

  /** Once a prefix of the rows holds an error, the rows after it do not matter. */
  lemma {:induction false} FailureIsFinal(parse: seq<string> -> Result<AutoMpg, ParseError>, rows: seq<seq<string>>, j: nat)
    requires j <= |rows|
    requires ParseAll(parse, rows[..j]).outcome.Failed?
    ensures ParseAll(parse, rows) == ParseAll(parse, rows[..j])
    decreases |rows| - j
  {
    if j == |rows| {
      assert rows[..j] == rows;
    } else {
      ParseAllStep(parse, rows, j);
      FailureIsFinal(parse, rows, j + 1);
    }
  }

  /**
   * A row whose name field is tokens joined by spaces and whose year field is
   * the text of an integer parses to the record built from those parts.
   */
  lemma ParseRowOfFields(row: seq<string>, tokens: seq<string>, offset: int)
    requires |row| >= 9 && |tokens| > 0 && AllWords(tokens)
    requires row[8] == Join(tokens) && row[6] == ShowInt(offset)
    requires ParseDecimal(row[0]).Some?
    ensures ParseRow(row) ==
              Ok(AutoMpg(NormalizeMake(tokens[0]), Join(tokens[1..]), offset + 1900, ParseDecimal(row[0]).value))
  {
    WordsOfJoin(tokens);
    ParseIntShowInt(offset);
    assert ParseRow(row) == BuildRecord(tokens, Some(offset), ParseDecimal(row[0]));
  }

  lemma LowercaseWord(w: string)
    requires |w| > 0 && forall i :: 0 <= i < |w| ==> 'a' <= w[i] <= 'z'
    ensures IsWord(w)
  {
    forall i | 0 <= i < |w|
      ensures !IsSpace(w[i])
    {
      assert 'a' as int <= w[i] as int <= 'z' as int;
    }
  }

  /** A row in the data set's format whose name is `chevy malibu`. */
  lemma ChevyMalibuRow()
    ensures ParseRow(["18.0", "8", "307.0", "130.0", "3504.", "12.0", "70", "1", "chevy malibu"])
            == Ok(AutoMpg("chevrolet", "malibu", 1970, 18.0))
  {
    var row := ["18.0", "8", "307.0", "130.0", "3504.", "12.0", "70", "1", "chevy malibu"];
    ChevyMalibuTokens();
    MpgText();
    YearText();
    ParseRowOfFields(row, ["chevy", "malibu"], 70);
  }

  lemma ChevyMalibuTokens()
    ensures AllWords(["chevy", "malibu"]) && Join(["chevy", "malibu"]) == "chevy malibu"
  {
    LowercaseWord("chevy");
    LowercaseWord("malibu");
  }

  lemma YearText()
    ensures ShowInt(70) == "70"
  {
    assert DigitChar(7) == '7' && DigitChar(0) == '0';
    assert ShowNat(7) == "7";
  }

  lemma MpgText()
    ensures ParseDecimal("18.0") == Some(18.0)
  {
    assert Strip("18.0") == "18.0";
    assert FirstIndex("18.0", '.') == 2;
    assert NumeralValue("18") == 18;
    assert NumeralValue("0") == 0;
  }
}
