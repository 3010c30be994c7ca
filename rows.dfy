/** Reading CSV rows one at a time, in file order, where each row either
    converts or raises and the first raise ends the read. */
module Rows {
  import opened Common
  import opened Text

  /** Every row converted, or the error of the first row that fails. */
  function ReadAll<R, F, E>(rows: seq<R>, conv: R -> Result<F, E>): (r: Result<seq<F>, E>)
    ensures r.Ok? ==> |r.value| == |rows|
  {
    if rows == [] then Ok([])
    else
      var init :- ReadAll(rows[..|rows| - 1], conv);
      var f :- conv(rows[|rows| - 1]);
      Ok(init + [f])
  }

  /** The rows read without error exactly when each row does, giving one
      value per row, in row order; otherwise the error is the one of the
      first row that fails. */
  lemma {:induction false} ReadAllRowByRow<R, F, E>(rows: seq<R>, conv: R -> Result<F, E>)
    ensures ReadAll(rows, conv).Ok? <==> forall j :: 0 <= j < |rows| ==> conv(rows[j]).Ok?
    ensures ReadAll(rows, conv).Ok? ==>
              forall j :: 0 <= j < |rows| ==> conv(rows[j]) == Ok(ReadAll(rows, conv).value[j])
    ensures ReadAll(rows, conv).Err? ==>
              exists k :: 0 <= k < |rows| && conv(rows[k]) == Err(ReadAll(rows, conv).error)
                && forall j :: 0 <= j < k ==> conv(rows[j]).Ok?
  {
    if rows != [] {
      var init := rows[..|rows| - 1];
      ReadAllRowByRow(init, conv);
      assert forall j :: 0 <= j < |init| ==> init[j] == rows[j];
      if ReadAll(init, conv).Ok? && conv(rows[|rows| - 1]).Ok? {
        var vs := ReadAll(init, conv).value;
        var f := conv(rows[|rows| - 1]).value;
        assert ReadAll(rows, conv) == Ok(vs + [f]);
      } else if ReadAll(init, conv).Ok? {
        var k := |rows| - 1;
        assert conv(rows[k]) == Err(ReadAll(rows, conv).error);
      } else {
        var k :| 0 <= k < |init| && conv(init[k]) == Err(ReadAll(init, conv).error)
                 && forall j :: 0 <= j < k ==> conv(init[j]).Ok?;
        assert conv(rows[k]) == Err(ReadAll(rows, conv).error);
      }
    }
  }

  /** Reading one more row after a prefix that read without error. */
  lemma ReadAllStep<R, F, E>(rows: seq<R>, conv: R -> Result<F, E>, i: nat)
    requires i < |rows| && ReadAll(rows[..i], conv).Ok?
    ensures conv(rows[i]).Err? ==> ReadAll(rows[..i + 1], conv) == Err(conv(rows[i]).error)
    ensures conv(rows[i]).Ok? ==>
              ReadAll(rows[..i + 1], conv) == Ok(ReadAll(rows[..i], conv).value + [conv(rows[i]).value])
  {
    assert rows[..i + 1][..i] == rows[..i];
  }

  /** Once a prefix of the rows fails, the whole read fails the same way. */
  lemma {:induction false} ReadAllFailsFrom<R, F, E>(rows: seq<R>, conv: R -> Result<F, E>, k: nat)
    requires k <= |rows| && ReadAll(rows[..k], conv).Err?
    ensures ReadAll(rows, conv) == ReadAll(rows[..k], conv)
    decreases |rows| - k
  {
    if k < |rows| {
      var init := rows[..|rows| - 1];
      assert init[..k] == rows[..k];
      ReadAllFailsFrom(init, conv, k);
    } else {
      assert rows[..k] == rows;
    }
  }

  /** The exception reading one cell raises: a `KeyError` for a missing
      column, or the `ValueError` of `int()` on a cell that is not an
      integer. */
  datatype CellError<C> = MissingColumn(column: C) | NotAnInteger(column: C, text: string)

  /** `row[name]`. */
  function Cell<C>(row: map<C, string>, name: C): (r: Result<string, CellError<C>>)
    ensures r.Ok? <==> name in row
    ensures r.Ok? ==> r.value == row[name]
  {
    if name in row then Ok(row[name]) else Err(MissingColumn(name))
  }

  /** `int(row[name])`. */
  function IntCell<C>(row: map<C, string>, name: C): (r: Result<int, CellError<C>>)
    ensures r.Ok? <==> name in row && ParseInt(row[name]).Some?
    ensures r.Ok? ==> ParseInt(row[name]) == Some(r.value)
  {
    var text :- Cell(row, name);
    match ParseInt(text)
    case None => Err(NotAnInteger(name, text))
    case Some(n) => Ok(n)
  }
}
