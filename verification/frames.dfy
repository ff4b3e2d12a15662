/**
 * Parsed long-format census rows and the row selections both aggregations
 * make on them: the rows of one district in one census year, and the value
 * of the first row carrying a given category.
 */
module Frames {
  import opened Series

  /** The two census years the tables report. */
  const Census2011 := 2011
  const Census2022 := 2022

  /**
   * One parsed row of a census table: the district code (`TERUL_GEO5`),
   * the category (`TEL_SZ_ADAT`, a string or the level derived from it),
   * the observed value (`OBS_VALUE`) and the census year (`TIME_PERIOD`).
   */
  datatype Observation<G> = Observation(id: string, group: G, value: real, year: int)

  /** The district column. */
  function Ids<G>(rows: seq<Observation<G>>): (ids: seq<string>)
    ensures |ids| == |rows|
    ensures forall k :: 0 <= k < |rows| ==> ids[k] == rows[k].id
  {
    seq(|rows|, k requires 0 <= k < |rows| => rows[k].id)
  }

  /** The category column. */
  function Groups<G>(rows: seq<Observation<G>>): (groups: seq<G>)
    ensures |groups| == |rows|
    ensures forall k :: 0 <= k < |rows| ==> groups[k] == rows[k].group
  {
    seq(|rows|, k requires 0 <= k < |rows| => rows[k].group)
  }

  /** The value column. */
  function Values<G>(rows: seq<Observation<G>>): (values: seq<real>)
    ensures |values| == |rows|
    ensures forall k :: 0 <= k < |rows| ==> values[k] == rows[k].value
  {
    seq(|rows|, k requires 0 <= k < |rows| => rows[k].value)
  }

  /**
   * The rows of district `id` in census year `year`, in table order
   * (`df[df['id'] == id]`, then `records[records['year'] == year]`).
   */
  function Slice<G(==)>(rows: seq<Observation<G>>, id: string, year: int): (r: seq<Observation<G>>)
    ensures forall k :: 0 <= k < |r| ==> r[k].id == id && r[k].year == year && r[k] in rows
    ensures forall k :: 0 <= k < |rows| && rows[k].id == id && rows[k].year == year ==> rows[k] in r
    ensures |r| <= |rows|
    decreases |rows|
  {
    if |rows| == 0 then []
    else
      var rest := Slice(rows[1..], id, year);
      assert forall k :: 1 <= k < |rows| ==> rows[k] == rows[1..][k - 1];
      if rows[0].id == id && rows[0].year == year then [rows[0]] + rest
      else rest
  }

  /** A slice of a table with non-negative values has non-negative values. */
  lemma SliceKeepsNonNegative<G>(rows: seq<Observation<G>>, id: string, year: int)
    requires forall k :: 0 <= k < |rows| ==> rows[k].value >= 0.0
    ensures forall k :: 0 <= k < |Slice(rows, id, year)| ==> Slice(rows, id, year)[k].value >= 0.0
  {
    var r := Slice(rows, id, year);
    forall k | 0 <= k < |r|
      ensures r[k].value >= 0.0
    {
      var j :| 0 <= j < |rows| && rows[j] == r[k];
    }
  }

  /** Slicing distributes over concatenation of tables. */
  lemma {:induction false} SliceConcat<G>(a: seq<Observation<G>>, b: seq<Observation<G>>, id: string, year: int)
    ensures Slice(a + b, id, year) == Slice(a, id, year) + Slice(b, id, year)
    decreases |a|
  {
    if |a| == 0 {
      assert a + b == b;
    } else {
      assert (a + b)[1..] == a[1..] + b;
      SliceConcat(a[1..], b, id, year);
      if a[0].id == id && a[0].year == year {
        assert Slice(a + b, id, year) == [a[0]] + (Slice(a[1..], id, year) + Slice(b, id, year));
      }
    }
  }

  /** A table whose rows all belong to `id` and `year` is its own slice. */
  lemma {:induction false} SliceOfOneDistrictYear<G>(rows: seq<Observation<G>>, id: string, year: int)
    requires forall k :: 0 <= k < |rows| ==> rows[k].id == id && rows[k].year == year
    ensures Slice(rows, id, year) == rows
    decreases |rows|
  {
    if |rows| > 0 {
      SliceOfOneDistrictYear(rows[1..], id, year);
    }
  }

  /** A table with no row of `year` has an empty slice for that year. */
  lemma {:induction false} SliceOfOtherYear<G>(rows: seq<Observation<G>>, id: string, year: int)
    requires forall k :: 0 <= k < |rows| ==> rows[k].year != year
    ensures Slice(rows, id, year) == []
    decreases |rows|
  {
    if |rows| > 0 {
      SliceOfOtherYear(rows[1..], id, year);
    }
  }

  /** The rows whose year is one of `years`, in table order. */
  function InYears<G>(rows: seq<Observation<G>>, years: set<int>): (r: seq<Observation<G>>)
    ensures forall k :: 0 <= k < |r| ==> r[k].year in years
    decreases |rows|
  {
    if |rows| == 0 then []
    else if rows[0].year in years then [rows[0]] + InYears(rows[1..], years)
    else InYears(rows[1..], years)
  }

  /**
   * Removing the rows of other years leaves every slice of a kept year
   * unchanged: rows of a year feed only that year's slices.
   */
  lemma {:induction false} SliceIgnoresOtherYears<G>(rows: seq<Observation<G>>, years: set<int>, id: string, year: int)
    requires year in years
    ensures Slice(InYears(rows, years), id, year) == Slice(rows, id, year)
    decreases |rows|
  {
    if |rows| > 0 {
      SliceIgnoresOtherYears(rows[1..], years, id, year);
      if rows[0].year in years {
        assert InYears(rows, years)[1..] == InYears(rows[1..], years);
      }
    }
  }

  /**
   * `r` is the value of the first row of `rows` carrying `group` when that
   * value is non-negative, and zero otherwise.
   */
  predicate IsClampedFirstValue<G(==)>(rows: seq<Observation<G>>, group: G, r: real) {
    exists k ::
      && 0 <= k < |rows| && rows[k].group == group
      && (forall j :: 0 <= j < k ==> rows[j].group != group)
      && (rows[k].value >= 0.0 ==> r == rows[k].value)
      && (rows[k].value < 0.0 ==> r == 0.0)
  }

  /**
   * `max(df[df['group'] == group]['value'].values[0], 0)`: the value of the
   * first row carrying `group`, clamped at zero. Without such a row the
   * source fails on `values[0]`, hence the precondition.
   */
  function ValueFor<G(==)>(rows: seq<Observation<G>>, group: G): (r: real)
    requires group in Groups(rows)
    ensures r >= 0.0
    ensures IsClampedFirstValue(rows, group, r)
  {
    var k := FirstIndex(Groups(rows), group);
    assert rows[k].group == group;
    Max0(rows[k].value)
  }
}
