/** The entries of all assignments in file-then-line order, each with its
    owning file's digest and publication time: the order in which the
    Parquet and CSV sinks visit them (two nested `for` loops). */
module Flatten {
  import opened Parser

  datatype Row = Row(fileSha: string, published: int, entry: LineEntry)

  /** The rows of one assignment, in line order. */
  function RowsOf(a: Assignment): (rs: seq<Row>)
    ensures |rs| == |a.lines|
    ensures forall j :: 0 <= j < |rs| ==> rs[j] == Row(a.fileSha, a.published, a.lines[j])
  {
    seq(|a.lines|, j requires 0 <= j < |a.lines| => Row(a.fileSha, a.published, a.lines[j]))
  }

  function Rows(data: seq<Assignment>): seq<Row> {
    if data == [] then [] else Rows(data[..|data| - 1]) + RowsOf(data[|data| - 1])
  }

  /** `data.iter().map(|a| a.lines.len()).sum()`. */
  function TotalEntries(data: seq<Assignment>): nat {
    if data == [] then 0 else TotalEntries(data[..|data| - 1]) + |data[|data| - 1].lines|
  }

  /** One row per entry. */
  lemma {:induction false} RowsCount(data: seq<Assignment>)
    ensures |Rows(data)| == TotalEntries(data)
  {
    if data != [] {
      RowsCount(data[..|data| - 1]);
    }
  }

  lemma RowsStep(data: seq<Assignment>, i: nat)
    requires i < |data|
    ensures Rows(data[..i + 1]) == Rows(data[..i]) + RowsOf(data[i])
  {
    assert data[..i + 1][..i] == data[..i];
  }

  /** The rows so far, then one more line of assignment `a`. */
  lemma RowsOfStep(before: seq<Row>, a: Assignment, j: nat)
    requires j < |a.lines|
    ensures before + RowsOf(a)[..j + 1] == (before + RowsOf(a)[..j]) + [Row(a.fileSha, a.published, a.lines[j])]
  {
    assert RowsOf(a)[..j + 1] == RowsOf(a)[..j] + [RowsOf(a)[j]];
  }

  /** Line `j` of file `i` is row `TotalEntries(data[..i]) + j`: the rows
      run through the files in order and through each file's lines in
      order, and every row carries its file's digest and time. */
  lemma {:induction false} RowsLocate(data: seq<Assignment>, i: nat, j: nat)
    requires i < |data| && j < |data[i].lines|
    ensures TotalEntries(data[..i]) + j < |Rows(data)|
    ensures Rows(data)[TotalEntries(data[..i]) + j] == Row(data[i].fileSha, data[i].published, data[i].lines[j])
  {
    var n := |data| - 1;
    RowsCount(data[..i]);
    RowsCount(data);
    if i == n {
      assert data[..n] == data[..i];
    } else {
      assert data[..n][..i] == data[..i];
      RowsLocate(data[..n], i, j);
      assert data[..n][i] == data[i];
    }
  }

  /** And every row is such a line. */
  lemma {:induction false} RowsComeFromLines(data: seq<Assignment>, k: nat)
    requires k < |Rows(data)|
    ensures exists i, j ::
              && 0 <= i < |data| && 0 <= j < |data[i].lines|
              && Rows(data)[k] == Row(data[i].fileSha, data[i].published, data[i].lines[j])
  {
    var n := |data| - 1;
    var prefix := Rows(data[..n]);
    if k < |prefix| {
      RowsComeFromLines(data[..n], k);
      var i, j :|
        && 0 <= i < |data[..n]| && 0 <= j < |data[..n][i].lines|
        && prefix[k] == Row(data[..n][i].fileSha, data[..n][i].published, data[..n][i].lines[j]);
      assert data[..n][i] == data[i];
    } else {
      var j := k - |prefix|;
      assert Rows(data)[k] == RowsOf(data[n])[j];
    }
  }
}
