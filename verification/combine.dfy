/**
 * `combine_data_frame`: the religion and educational-attainment tables of a
 * county are joined into one. The join is pandas' `DataFrame.join`, which
 * matches rows by their index, not by the key column; both tables carry the
 * positional index 0, 1, 2, ... that the aggregations build, so row i of the
 * first table meets row i of the second. The right-hand copy of the key
 * column is then deleted.
 */
module Combine {
  import opened Wrappers
  import opened Series

  /** The suffix given to right-hand columns whose name the left table already uses. */
  const RightSuffix := "_RIGHT"

  /**
   * A data frame with a positional index: named columns and, per row, one
   * cell per column; `None` is a missing value (NaN).
   */
  datatype Frame<V> = Frame(columns: seq<string>, rows: seq<seq<Option<V>>>)

  /** Column names are distinct and every row has one cell per column. */
  predicate WellFormed<V>(f: Frame<V>) {
    && NoDuplicates(f.columns)
    && forall i :: 0 <= i < |f.rows| ==> |f.rows[i]| == |f.columns|
  }

  /** `f[c][i]`: the cell of row `i` in column `c`. */
  function Cell<V>(f: Frame<V>, i: int, c: string): Option<V>
    requires WellFormed(f)
    requires 0 <= i < |f.rows| && c in f.columns
  {
    f.rows[i][FirstIndex(f.columns, c)]
  }

  /** The cell in column position `p` is the cell named by that position's column. */
  lemma CellAt<V>(f: Frame<V>, i: int, p: int)
    requires WellFormed(f)
    requires 0 <= i < |f.rows| && 0 <= p < |f.columns|
    ensures Cell(f, i, f.columns[p]) == f.rows[i][p]
  {
    FirstIndexOfDistinct(f.columns, p);
  }

  /** The name a right-hand column gets in the joined table. */
  function RightName(left: seq<string>, c: string): string {
    if c in left then c + RightSuffix else c
  }

  /** The joined table's columns: the left columns, then the renamed right columns. */
  function JoinedColumns<V>(f1: Frame<V>, f2: Frame<V>): (cols: seq<string>)
    ensures |cols| == |f1.columns| + |f2.columns|
    ensures forall p :: 0 <= p < |f1.columns| ==> cols[p] == f1.columns[p]
    ensures forall j :: 0 <= j < |f2.columns| ==> cols[|f1.columns| + j] == RightName(f1.columns, f2.columns[j])
  {
    f1.columns + seq(|f2.columns|, j requires 0 <= j < |f2.columns| => RightName(f1.columns, f2.columns[j]))
  }

  /** The right-hand cells joined to left row `i`: right row `i`, or all missing past its end. */
  function RightCells<V>(f2: Frame<V>, i: int): (cells: seq<Option<V>>)
    requires WellFormed(f2)
    requires 0 <= i
    ensures |cells| == |f2.columns|
    ensures i >= |f2.rows| ==> forall j :: 0 <= j < |cells| ==> cells[j].None?
  {
    if i < |f2.rows| then f2.rows[i] else seq(|f2.columns|, j => None)
  }

  /** `df_1.join(df_2, rsuffix='_RIGHT')`: a left join on the positional index. */
  function Join<V>(f1: Frame<V>, f2: Frame<V>): (joined: Frame<V>)
    requires WellFormed(f1) && WellFormed(f2)
    ensures NoDuplicates(JoinedColumns(f1, f2)) ==> WellFormed(joined)
    ensures |joined.rows| == |f1.rows|
    ensures joined.columns == JoinedColumns(f1, f2)
    ensures forall i :: 0 <= i < |f1.rows| ==> joined.rows[i] == f1.rows[i] + RightCells(f2, i)
  {
    Frame(JoinedColumns(f1, f2), seq(|f1.rows|, i requires 0 <= i < |f1.rows| => f1.rows[i] + RightCells(f2, i)))
  }

  /** The error `del` raises for a column the table does not have. */
  datatype CombineError = MissingColumn(name: string)

  /** `del f[c]`: the table without column `c`; fails when there is no such column. */
  function DeleteColumn<V>(f: Frame<V>, c: string): (r: Result<Frame<V>, CombineError>)
    requires WellFormed(f)
    ensures r.Failure? <==> c !in f.columns
    ensures r.Failure? ==> r.error == MissingColumn(c)
    ensures r.Success? ==>
              && WellFormed(r.value)
              && |r.value.rows| == |f.rows|
              && (forall x :: x in r.value.columns <==> x in f.columns && x != c)
  {
    if c !in f.columns then Failure(MissingColumn(c))
    else
      var k := FirstIndex(f.columns, c);
      RemoveAtDistinct(f.columns, k);
      Success(Frame(RemoveAt(f.columns, k), seq(|f.rows|, i requires 0 <= i < |f.rows| => RemoveAt(f.rows[i], k))))
  }

  /** Deleting a column leaves every other column's cells as they were. */
  lemma DeleteColumnKeepsOthers<V>(f: Frame<V>, c: string, i: int, x: string)
    requires WellFormed(f)
    requires DeleteColumn(f, c).Success?
    requires 0 <= i < |f.rows| && x in f.columns && x != c
    ensures x in DeleteColumn(f, c).value.columns
    ensures Cell(DeleteColumn(f, c).value, i, x) == Cell(f, i, x)
  {
    var g := DeleteColumn(f, c).value;
    var k := FirstIndex(f.columns, c);
    var p := FirstIndex(f.columns, x);
    assert g.rows[i] == RemoveAt(f.rows[i], k);
    var q := if p < k then p else p - 1;
    assert g.columns[q] == x && g.rows[i][q] == f.rows[i][p];
    CellAt(g, i, q);
  }

  /**
   * `combine_data_frame(df_1, df_2, on)`. The two lines meant to reject a
   * missing key evaluate a tuple and discard it, so the flag is `True`
   * whenever the function returns; the only failure is the `del` of the
   * right-hand key copy.
   */
  function CombineFrames<V>(f1: Frame<V>, f2: Frame<V>, on: string): (r: Result<(bool, Frame<V>), CombineError>)
    requires WellFormed(f1) && WellFormed(f2)
    requires NoDuplicates(JoinedColumns(f1, f2))
    ensures r.Success? ==> r.value.0
    ensures r.Failure? <==> on + RightSuffix !in JoinedColumns(f1, f2)
    ensures on in f1.columns && on in f2.columns ==> r.Success?
    ensures on + RightSuffix !in f1.columns && on + RightSuffix !in f2.columns ==>
              (r.Success? <==> on in f1.columns && on in f2.columns)
    ensures r.Success? ==>
              && WellFormed(r.value.1)
              && |r.value.1.rows| == |f1.rows|
              && on + RightSuffix !in r.value.1.columns
              && (on in f1.columns ==> on in r.value.1.columns)
  {
    var joined := Join(f1, f2);
    var key := on + RightSuffix;
    KeyCopyPresence(f1, f2, on);
    match DeleteColumn(joined, key)
    case Failure(e) => Failure(e)
    case Success(f) => Success((true, f))
  }

  /**
   * When does the joined table hold the right-hand key copy: whenever both
   * tables have the key, and only then when neither already has a column
   * named like the copy.
   */
  lemma KeyCopyPresence<V>(f1: Frame<V>, f2: Frame<V>, on: string)
    ensures on != on + RightSuffix
    ensures on in f1.columns && on in f2.columns ==> on + RightSuffix in JoinedColumns(f1, f2)
    ensures on + RightSuffix !in f1.columns && on + RightSuffix !in f2.columns && on + RightSuffix in JoinedColumns(f1, f2) ==>
              on in f1.columns && on in f2.columns
  {
    var key := on + RightSuffix;
    assert |key| == |on| + 6;
    if on in f1.columns && on in f2.columns {
      KeyCopyOfSharedKey(f1, f2, on);
    }
    if key !in f1.columns && key !in f2.columns && key in JoinedColumns(f1, f2) {
      KeyCopyOnlyFromSharedKey(f1, f2, on);
    }
  }

  /** A key both tables have is renamed on the right. */
  lemma KeyCopyOfSharedKey<V>(f1: Frame<V>, f2: Frame<V>, on: string)
    requires on in f1.columns && on in f2.columns
    ensures on + RightSuffix in JoinedColumns(f1, f2)
  {
    var cols := JoinedColumns(f1, f2);
    var j := FirstIndex(f2.columns, on);
    assert RightName(f1.columns, f2.columns[j]) == on + RightSuffix;
    assert cols[|f1.columns| + j] == on + RightSuffix;
  }

  /** A suffixed key name that neither table has can only come from renaming the key. */
  lemma KeyCopyOnlyFromSharedKey<V>(f1: Frame<V>, f2: Frame<V>, on: string)
    requires on + RightSuffix !in f1.columns && on + RightSuffix !in f2.columns
    requires on + RightSuffix in JoinedColumns(f1, f2)
    ensures on in f1.columns && on in f2.columns
  {
    var key := on + RightSuffix;
    var cols := JoinedColumns(f1, f2);
    var p := FirstIndex(cols, key);
    if p < |f1.columns| {
      assert false;
    }
    var c := f2.columns[p - |f1.columns|];
    assert cols[p] == RightName(f1.columns, c);
    if c !in f1.columns {
      assert false;
    }
    SuffixCancels(c, on);
  }

  /** Every left-hand cell survives the combination unchanged, except in a deleted column. */
  lemma LeftCellsKept<V>(f1: Frame<V>, f2: Frame<V>, on: string, i: int, c: string)
    requires WellFormed(f1) && WellFormed(f2) && NoDuplicates(JoinedColumns(f1, f2))
    requires on + RightSuffix in JoinedColumns(f1, f2)
    requires 0 <= i < |f1.rows| && c in f1.columns && c != on + RightSuffix
    ensures c in CombineFrames(f1, f2, on).value.1.columns
    ensures Cell(CombineFrames(f1, f2, on).value.1, i, c) == Cell(f1, i, c)
  {
    var joined := Join(f1, f2);
    var p := FirstIndex(f1.columns, c);
    assert joined.columns[p] == c;
    assert joined.rows[i][p] == f1.rows[i][p];
    CellAt(joined, i, p);
    CellAt(f1, i, p);
    DeleteColumnKeepsOthers(joined, on + RightSuffix, i, c);
  }

  /**
   * Right-hand cells are matched by position, not by key: row `i` of the
   * result carries right row `i` under the (possibly suffixed) name, and a
   * missing value where the right table has no row `i`.
   */
  lemma RightCellsAligned<V>(f1: Frame<V>, f2: Frame<V>, on: string, i: int, c: string)
    requires WellFormed(f1) && WellFormed(f2) && NoDuplicates(JoinedColumns(f1, f2))
    requires on + RightSuffix in JoinedColumns(f1, f2)
    requires 0 <= i < |f1.rows| && c in f2.columns && RightName(f1.columns, c) != on + RightSuffix
    ensures RightName(f1.columns, c) in CombineFrames(f1, f2, on).value.1.columns
    ensures Cell(CombineFrames(f1, f2, on).value.1, i, RightName(f1.columns, c))
            == if i < |f2.rows| then Cell(f2, i, c) else None
  {
    var joined := Join(f1, f2);
    JoinedRightCell(f1, f2, i, c);
    DeleteColumnKeepsOthers(joined, on + RightSuffix, i, RightName(f1.columns, c));
  }

  /** The join itself places right row `i` beside left row `i`. */
  lemma JoinedRightCell<V>(f1: Frame<V>, f2: Frame<V>, i: int, c: string)
    requires WellFormed(f1) && WellFormed(f2) && NoDuplicates(JoinedColumns(f1, f2))
    requires 0 <= i < |f1.rows| && c in f2.columns
    ensures RightName(f1.columns, c) in Join(f1, f2).columns
    ensures Cell(Join(f1, f2), i, RightName(f1.columns, c)) == if i < |f2.rows| then Cell(f2, i, c) else None
  {
    var joined := Join(f1, f2);
    var j := FirstIndex(f2.columns, c);
    var p := |f1.columns| + j;
    assert joined.columns[p] == RightName(f1.columns, c);
    assert joined.rows[i] == f1.rows[i] + RightCells(f2, i);
    assert joined.rows[i][p] == RightCells(f2, i)[j];
    CellAt(joined, i, p);
    if i < |f2.rows| {
      CellAt(f2, i, j);
    }
  }

  /** Appending the suffix is injective. */
  lemma SuffixCancels(a: string, b: string)
    requires a + RightSuffix == b + RightSuffix
    ensures a == b
  {
    assert a == (a + RightSuffix)[..|a|];
    assert b == (b + RightSuffix)[..|b|];
  }
}
