/** `reverse_csv` (src/backend/ReverseCsv.py): the collective CSV is
    rewritten with its data rows in the opposite order, header first. */
module ReverseCsv {
  import opened Seqs

  /** One CSV record as `csv.reader` yields it. */
  type Row = seq<string>

  /** The rows written back, given every row read. An empty file has no
      header; an empty header row (Python-falsy) is not written. */
  function ReverseCsv(all: seq<Row>): (out: seq<Row>)
    ensures |all| == 0 ==> out == []
    ensures |all| > 0 && all[0] != [] ==> |out| == |all| && out[0] == all[0]
    ensures |all| > 0 && all[0] == [] ==> |out| == |all| - 1
  {
    var header := if |all| == 0 then [] else all[0];
    var rows := if |all| == 0 then [] else all[1..];
    (if header != [] then [header] else []) + Reverse(rows)
  }

  /** The part of the output after the header, if one was written. */
  function DataRows(all: seq<Row>): seq<Row> {
    var out := ReverseCsv(all);
    if |all| > 0 && all[0] != [] then out[1..] else out
  }

  /** The data rows come out last-first after the kept header, and nothing
      else is written. */
  lemma RowsReversed(all: seq<Row>)
    requires |all| > 0
    ensures |DataRows(all)| == |all| - 1
    ensures forall j :: 0 <= j < |all| - 1 ==> DataRows(all)[j] == all[|all| - 1 - j]
    ensures all[0] != [] ==> ReverseCsv(all) == [all[0]] + DataRows(all)
    ensures all[0] == [] ==> ReverseCsv(all) == DataRows(all)
  {
    var rows := all[1..];
    assert DataRows(all) == Reverse(rows);
    assert forall j :: 0 <= j < |rows| ==> rows[j] == all[j + 1];
  }

  /** Running the tool twice on a file whose header is not empty restores
      the file. */
  lemma ReverseTwice(all: seq<Row>)
    requires |all| > 0 && all[0] != []
    ensures ReverseCsv(ReverseCsv(all)) == all
  {
    var once := ReverseCsv(all);
    assert once == [all[0]] + Reverse(all[1..]);
    assert once[1..] == Reverse(all[1..]);
    ReverseReverse(all[1..]);
    assert ReverseCsv(once) == [all[0]] + all[1..];
  }
}
