/**
 * `is_it_a_nationality`: the first row of the countries-and-demonyms table
 * whose male or female demonym contains the query, ignoring letter case.
 * finalMapping.py reads the rows unchecked; v3.1/finalMapping_v2.py first
 * checks the header and turns every failure into an error string.
 */
module Demonyms {
  import opened Text
  import opened Outcomes

  /** A table row with its three columns read. */
  datatype DemonymRow = DemonymRow(country: string, male: string, female: string)

  /** `query.lower() in male.lower() or query.lower() in female.lower()` */
  predicate RowMatches(row: DemonymRow, query: string) {
    Contains(Lower(row.male), Lower(query)) || Contains(Lower(row.female), Lower(query))
  }

  /**
   * finalMapping.py: the Country of the first matching row, or `None`
   * where the script returns `False`.
   */
  function IsItANationality(rows: seq<DemonymRow>, query: string): (r: Option<string>)
    ensures r.None? <==> forall i :: 0 <= i < |rows| ==> !RowMatches(rows[i], query)
    ensures r.Some? ==> exists i :: 0 <= i < |rows| && RowMatches(rows[i], query)
                                   && r.value == rows[i].country
                                   && forall j :: 0 <= j < i ==> !RowMatches(rows[j], query)
  {
    if rows == [] then None
    else if RowMatches(rows[0], query) then Some(rows[0].country)
    else
      var r := IsItANationality(rows[1..], query);
      assert forall i :: 1 <= i < |rows| ==> rows[i] == rows[1..][i - 1];
      r
  }

  /** The search answers with the first matching row. */
  lemma {:induction false} FirstMatchDecides(rows: seq<DemonymRow>, query: string, i: nat)
    requires i < |rows| && RowMatches(rows[i], query)
    requires forall j :: 0 <= j < i ==> !RowMatches(rows[j], query)
    ensures IsItANationality(rows, query) == Some(rows[i].country)
  {
    if i > 0 {
      assert !RowMatches(rows[0], query);
      assert forall j :: 0 <= j < i - 1 ==> rows[1..][j] == rows[j + 1];
      FirstMatchDecides(rows[1..], query, i - 1);
    }
  }

  lemma {:induction false} LowerIdempotent(s: string)
    ensures Lower(Lower(s)) == Lower(s)
  {
    if s != [] {
      LowerIdempotent(s[1..]);
      assert Lower(s)[1..] == Lower(s[1..]);
    }
  }

  /** Queries that differ only in letter case give the same answer. */
  lemma CaseInsensitive(rows: seq<DemonymRow>, q1: string, q2: string)
    requires Lower(q1) == Lower(q2)
    ensures IsItANationality(rows, q1) == IsItANationality(rows, q2)
  {
    assert forall row :: RowMatches(row, q1) == RowMatches(row, q2);
  }

  /** Lower-casing the query changes nothing. */
  lemma LoweredQuery(rows: seq<DemonymRow>, query: string)
    ensures IsItANationality(rows, Lower(query)) == IsItANationality(rows, query)
  {
    LowerIdempotent(query);
    CaseInsensitive(rows, Lower(query), query);
  }

  /** The empty query is contained in every demonym, so the first row answers. */
  lemma EmptyQueryMatchesFirst(rows: seq<DemonymRow>)
    requires rows != []
    ensures IsItANationality(rows, "") == Some(rows[0].country)
  {
    assert "" <= Lower(rows[0].male)[0..];
  }

  lemma ExampleFrench()
    ensures IsItANationality([DemonymRow("France", "French", "French")], "french") == Some("France")
  {
    var row := DemonymRow("France", "French", "French");
    assert Lower("French") == "french";
    assert "french" <= Lower(row.male)[0..];
    assert RowMatches(row, "french");
  }

  /** A substring of a demonym finds its country too: "fren" finds France. */
  lemma ExamplePartialQuery()
    ensures IsItANationality([DemonymRow("France", "French", "French")], "fren") == Some("France")
  {
    var row := DemonymRow("France", "French", "French");
    assert Lower("French") == "french" && Lower("fren") == "fren";
    assert "fren" <= Lower(row.male)[0..];
    assert RowMatches(row, "fren");
  }

  // ------------------------------------------- v3.1/finalMapping_v2.py

  const MaleColumn := "Demonym (Male)"
  const FemaleColumn := "Demonym (Female)"
  const CountryColumn := "Country"

  /** What `csv.DictReader` gives for the file: no file, or its header
      (`None` for an empty file) and rows; a short row holds `None`
      for its missing columns. */
  datatype CsvFile =
    | FileNotFound
    | CsvFile(fieldnames: Option<seq<string>>, rows: seq<map<string, Option<string>>>)

  /** The message of every caught exception, `f"Error: {str(e)}"`. */
  function ErrorText(message: string): string {
    "Error: " + message
  }

  const NotIterable := "argument of type 'NoneType' is not iterable"
  const NoLower := "'NoneType' object has no attribute 'lower'"

  /** A cell read, or the text of the exception reading it raised. */
  datatype CellRead = Read(value: string) | Raises(message: string)

  /** `row[key].lower()`: a missing key raises `KeyError`, a `None` value `AttributeError`. */
  function LowerCell(row: map<string, Option<string>>, key: string): CellRead {
    if key !in row then Raises("'" + key + "'")
    else if row[key].None? then Raises(NoLower)
    else Read(Lower(row[key].value))
  }

  /** The rows from `i` on: the Country of the first match, an error text,
      or `None` when the loop falls through. */
  function SearchRows(rows: seq<map<string, Option<string>>>, q: string, i: nat): (r: Option<string>)
    requires i <= |rows|
    decreases |rows| - i
  {
    if i == |rows| then None
    else
      var row := rows[i];
      match LowerCell(row, MaleColumn)
      case Raises(m) => Some(ErrorText(m))
      case Read(male) =>
        if Contains(male, q) then Reply(row)
        else
          match LowerCell(row, FemaleColumn)
          case Raises(m) => Some(ErrorText(m))
          case Read(female) =>
            if Contains(female, q) then Reply(row) else SearchRows(rows, q, i + 1)
  }

  /** `return row['Country']`, which may be `None` for a short row. */
  function Reply(row: map<string, Option<string>>): Option<string> {
    if CountryColumn !in row then Some(ErrorText("'" + CountryColumn + "'")) else row[CountryColumn]
  }

  /** v3.1/finalMapping_v2.py: `Some(s)` is a returned string, error texts included. */
  function CheckedNationality(filename: string, file: CsvFile, query: string): (r: Option<string>)
    ensures file.FileNotFound? ==> r == Some(ErrorText("The file '" + filename + "' was not found."))
    ensures file.CsvFile? && file.fieldnames.None? ==> r == Some(ErrorText(NotIterable))
    ensures file.CsvFile? && file.fieldnames.Some? &&
            (MaleColumn !in file.fieldnames.value || FemaleColumn !in file.fieldnames.value) ==>
              r == Some("Error: Missing required columns in CSV file.")
  {
    match file
    case FileNotFound => Some(ErrorText("The file '" + filename + "' was not found."))
    case CsvFile(fieldnames, rows) =>
      if fieldnames.None? then Some(ErrorText(NotIterable))
      else if MaleColumn !in fieldnames.value || FemaleColumn !in fieldnames.value then
        Some("Error: Missing required columns in CSV file.")
      else SearchRows(rows, Lower(query), 0)
  }

  /** The table row as a mapping from its three column names. */
  function AsRecord(row: DemonymRow): map<string, Option<string>> {
    map[CountryColumn := Some(row.country), MaleColumn := Some(row.male), FemaleColumn := Some(row.female)]
  }

  function AsRecords(rows: seq<DemonymRow>): (r: seq<map<string, Option<string>>>)
    ensures |r| == |rows| && forall i :: 0 <= i < |rows| ==> r[i] == AsRecord(rows[i])
  {
    seq(|rows|, i requires 0 <= i < |rows| => AsRecord(rows[i]))
  }

  /** On a complete table the checked search from row `i` agrees with the plain one. */
  lemma {:induction false} SearchRowsAgrees(rows: seq<DemonymRow>, query: string, i: nat)
    requires i <= |rows|
    ensures SearchRows(AsRecords(rows), Lower(query), i) == IsItANationality(rows[i..], query)
    decreases |rows| - i
  {
    if i < |rows| {
      var rec := AsRecord(rows[i]);
      assert rec[MaleColumn] == Some(rows[i].male) && rec[FemaleColumn] == Some(rows[i].female);
      assert rec[CountryColumn] == Some(rows[i].country);
      assert rows[i..][0] == rows[i] && rows[i..][1..] == rows[i + 1..];
      SearchRowsAgrees(rows, query, i + 1);
    }
  }

  /**
   * With the three columns present and every cell filled, the checked
   * version answers as finalMapping.py does; only the no-match answer
   * differs in Python (`False` there, `None` in finalMapping_v2.py), and
   * the model writes both as `None`.
   */
  lemma CheckedAgrees(filename: string, header: seq<string>, rows: seq<DemonymRow>, query: string)
    requires MaleColumn in header && FemaleColumn in header
    ensures CheckedNationality(filename, CsvFile(Some(header), AsRecords(rows)), query)
            == IsItANationality(rows, query)
  {
    SearchRowsAgrees(rows, query, 0);
    assert rows[0..] == rows;
  }

  /** A short first row whose male cell is empty raises `AttributeError`, reported as text. */
  lemma ExampleShortRow(filename: string, query: string)
    ensures CheckedNationality(filename, CsvFile(Some([CountryColumn, MaleColumn, FemaleColumn]),
                                                 [map[CountryColumn := Some("France"), MaleColumn := None, FemaleColumn := None]]),
                               query)
            == Some(ErrorText(NoLower))
  {
    var row := map[CountryColumn := Some("France"), MaleColumn := None, FemaleColumn := None];
    assert |MaleColumn| != |FemaleColumn| && |MaleColumn| != |CountryColumn|;
    assert MaleColumn in row && row[MaleColumn] == None;
    assert LowerCell(row, MaleColumn) == Raises(NoLower);
    assert SearchRows([row], Lower(query), 0) == Some(ErrorText(NoLower));
  }

  /** Without a Country column a match raises `KeyError('Country')`, reported as text. */
  lemma ExampleNoCountryColumn(filename: string)
    ensures CheckedNationality(filename, CsvFile(Some([MaleColumn, FemaleColumn]),
                                                 [map[MaleColumn := Some("French"), FemaleColumn := Some("French")]]),
                               "French")
            == Some(ErrorText("'" + CountryColumn + "'"))
  {
    var row := map[MaleColumn := Some("French"), FemaleColumn := Some("French")];
    assert |MaleColumn| != |FemaleColumn| && |MaleColumn| != |CountryColumn| && |FemaleColumn| != |CountryColumn|;
    assert Lower("French") == "french";
    assert LowerCell(row, MaleColumn) == Read("french");
    assert Contains("french", "french") by {
      assert "french" <= "french"[0..];
    }
    assert CountryColumn !in row;
    assert SearchRows([row], Lower("French"), 0) == Reply(row);
  }
}
