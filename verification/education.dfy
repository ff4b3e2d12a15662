/**
 * The educational-attainment aggregation: long-format rows of one county's
 * attainment table become one wide record per district, holding the five
 * per-level counts and a normalised attainment score for 2011 and 2022, and
 * the difference of the two scores. Arithmetic is exact; the source's
 * `round(·, 4)` is not modelled.
 */
module Education {
  import opened Series
  import opened Frames
  import opened Ratios

  /** The characters a category code may end with, each at the position of its value. */
  const Digits := "0123456789"

  /** `code[-1]`, the last character of a code; a space for the empty code. */
  function Last(code: string): char {
    if |code| == 0 then ' ' else code[|code| - 1]
  }

  /** The last character of the code is a decimal digit, so `int(code[-1])` succeeds. */
  predicate EndsInDigit(code: string) {
    '0' <= Last(code) <= '9'
  }

  /** `int(code[-1])`: the level a category code encodes in its last character. */
  function LevelOf(code: string): (level: int)
    requires EndsInDigit(code)
    ensures 0 <= level <= 9
    ensures Digits[level] == Last(code)
  {
    Last(code) as int - '0' as int
  }

  /** The `group` column mapped to levels, every other column kept. */
  function ToLevels(raw: seq<Observation<string>>): (rows: seq<Observation<int>>)
    requires forall k :: 0 <= k < |raw| ==> EndsInDigit(raw[k].group)
    ensures |rows| == |raw|
    ensures forall k :: 0 <= k < |raw| ==>
              && rows[k].id == raw[k].id
              && rows[k].value == raw[k].value
              && rows[k].year == raw[k].year
    ensures forall k :: 0 <= k < |raw| ==>
              && 0 <= rows[k].group <= 9
              && Digits[rows[k].group] == Last(raw[k].group)
  {
    seq(|raw|, k requires 0 <= k < |raw| =>
      Observation(raw[k].id, LevelOf(raw[k].group), raw[k].value, raw[k].year))
  }

  /** The sum of value times level over the rows (the `weighted_total` of the score). */
  function WeightedTotal(rows: seq<Observation<int>>): real {
    if |rows| == 0 then 0.0
    else rows[0].value * rows[0].group as real + WeightedTotal(rows[1..])
  }

  /** The weighted total adds up over concatenated tables. */
  lemma {:induction false} WeightedTotalConcat(a: seq<Observation<int>>, b: seq<Observation<int>>)
    ensures WeightedTotal(a + b) == WeightedTotal(a) + WeightedTotal(b)
  {
    if |a| == 0 {
      assert a + b == b;
    } else {
      assert (a + b)[0] == a[0];
      assert (a + b)[1..] == a[1..] + b;
      WeightedTotalConcat(a[1..], b);
    }
  }

  /** A single row contributes its value times its level. */
  lemma WeightedTotalOfOneRow(r: Observation<int>)
    ensures WeightedTotal([r]) == r.value * r.group as real
  {
    assert [r][1..] == [];
  }

  /**
   * `score` maps the weighted mean level `weighted / total` from the level
   * range [1, 5] onto [0, 1]: mean level = 4 * score + 1.
   */
  predicate IsScoreOf(score: real, weighted: real, total: real) {
    (4.0 * score + 1.0) * total == weighted
  }

  /** `calculate_normalized_value` without its rounding. */
  function NormalizedScore(rows: seq<Observation<int>>): (score: real)
    requires Sum(Values(rows)) != 0.0
    ensures IsScoreOf(score, WeightedTotal(rows), Sum(Values(rows)))
  {
    var weighted := WeightedTotal(rows);
    var total := Sum(Values(rows));
    MeanFacts(weighted, total);
    ((weighted / total) - 1.0) / 4.0
  }

  /** Facts about the score computed from a weighted total and a non-zero total. */
  lemma MeanFacts(weighted: real, total: real)
    requires total != 0.0
    ensures IsScoreOf(((weighted / total) - 1.0) / 4.0, weighted, total)
    ensures total > 0.0 && total <= weighted <= 5.0 * total ==>
              0.0 <= ((weighted / total) - 1.0) / 4.0 <= 1.0
  {
    var mean := weighted / total;
    assert mean * total == weighted;
    if total > 0.0 && total <= weighted <= 5.0 * total {
      DivAtLeast(weighted, total, 1.0);
      DivAtMost(weighted, total, 5.0);
    }
  }

  /** With levels in 1..5 and non-negative values, the weighted total lies between 1 and 5 times the total. */
  lemma {:induction false} WeightedTotalBounds(rows: seq<Observation<int>>)
    requires forall k :: 0 <= k < |rows| ==> 1 <= rows[k].group <= 5 && rows[k].value >= 0.0
    ensures Sum(Values(rows)) <= WeightedTotal(rows) <= 5.0 * Sum(Values(rows))
  {
    if |rows| > 0 {
      WeightedTotalBounds(rows[1..]);
      assert Values(rows)[1..] == Values(rows[1..]);
      var v := rows[0].value;
      var l := rows[0].group as real;
      assert v <= v * l <= 5.0 * v;
      assert Sum(Values(rows)) == v + Sum(Values(rows[1..]));
      assert WeightedTotal(rows) == v * l + WeightedTotal(rows[1..]);
    }
  }

  /** When every row has the same level, the weighted total is that level times the total. */
  lemma {:induction false} WeightedTotalOfOneLevel(rows: seq<Observation<int>>, level: int)
    requires forall k :: 0 <= k < |rows| ==> rows[k].group == level
    ensures WeightedTotal(rows) == level as real * Sum(Values(rows))
  {
    if |rows| > 0 {
      WeightedTotalOfOneLevel(rows[1..], level);
      assert Values(rows)[1..] == Values(rows[1..]);
    }
  }

  /** With levels in 1..5, non-negative values and a positive total, the score lies in [0, 1]. */
  lemma ScoreIsFraction(rows: seq<Observation<int>>)
    requires forall k :: 0 <= k < |rows| ==> 1 <= rows[k].group <= 5 && rows[k].value >= 0.0
    requires Sum(Values(rows)) > 0.0
    ensures 0.0 <= NormalizedScore(rows) <= 1.0
  {
    WeightedTotalBounds(rows);
    MeanFacts(WeightedTotal(rows), Sum(Values(rows)));
  }

  /**
   * When all people of a year sit at one level, the score is that level
   * mapped onto [0, 1]: level 1 gives 0 and level 5 gives 1.
   */
  lemma ScoreOfOneLevel(rows: seq<Observation<int>>, level: int)
    requires forall k :: 0 <= k < |rows| ==> rows[k].group == level
    requires Sum(Values(rows)) != 0.0
    ensures NormalizedScore(rows) == (level as real - 1.0) / 4.0
  {
    var total := Sum(Values(rows));
    WeightedTotalOfOneLevel(rows, level);
    var score := NormalizedScore(rows);
    var weighted := WeightedTotal(rows);
    assert IsScoreOf(score, weighted, total);
    assert (4.0 * score + 1.0) * total == weighted == level as real * total;
    assert (4.0 * score + 1.0 - level as real) * total == 0.0;
    ZeroProduct(4.0 * score + 1.0 - level as real, total);
  }

  /**
   * Ten, twenty, thirty, thirty and ten people at levels 1 to 5: the
   * weighted total is 310 over 100 people, a mean level of 3.1 and a score
   * of 0.525.
   */
  lemma ScoreExample()
    ensures var rows := [
              Observation("1", 1, 10.0, Census2011), Observation("1", 2, 20.0, Census2011),
              Observation("1", 3, 30.0, Census2011), Observation("1", 4, 30.0, Census2011),
              Observation("1", 5, 10.0, Census2011)];
            && WeightedTotal(rows) == 310.0
            && Sum(Values(rows)) == 100.0
            && NormalizedScore(rows) == 0.525
  {
    var rows := [
      Observation("1", 1, 10.0, Census2011), Observation("1", 2, 20.0, Census2011),
      Observation("1", 3, 30.0, Census2011), Observation("1", 4, 30.0, Census2011),
      Observation("1", 5, 10.0, Census2011)];
    assert Values(rows) == [10.0, 20.0, 30.0, 30.0, 10.0];
    assert Sum([10.0]) == 10.0;
    assert Sum([30.0, 10.0]) == 40.0;
    assert Sum([30.0, 30.0, 10.0]) == 70.0;
    assert Sum([20.0, 30.0, 30.0, 10.0]) == 90.0;
    assert Sum([10.0, 20.0, 30.0, 30.0, 10.0]) == 100.0;
    assert WeightedTotal(rows[4..]) == 50.0;
    assert WeightedTotal(rows[3..]) == 170.0;
    assert WeightedTotal(rows[2..]) == 260.0;
    assert WeightedTotal(rows[1..]) == 300.0;
    assert WeightedTotal(rows) == 310.0;
  }

  /** The five per-level columns of one census year. */
  datatype LevelCounts = LevelCounts(
    belowEighthGrade: real, primarySchool: real, secondarySchool: real,
    highSchool: real, higherEducation: real)

  /** The column of `c` that holds level `level` (1 to 5). */
  function CountAt(c: LevelCounts, level: int): real
    requires 1 <= level <= 5
  {
    if level == 1 then c.belowEighthGrade
    else if level == 2 then c.primarySchool
    else if level == 3 then c.secondarySchool
    else if level == 4 then c.highSchool
    else c.higherEducation
  }

  /**
   * The five per-level counts of a year: levels 1 to 4 read from `lower`,
   * level 5 from `higher` (the source reads both from the same slice for
   * 2022 but takes the 2011 level-5 count from the 2022 slice).
   */
  function CountsFor(lower: seq<Observation<int>>, higher: seq<Observation<int>>): (c: LevelCounts)
    requires HasLevels(lower, 1, 4)
    requires 5 in Groups(higher)
    ensures forall level :: 1 <= level <= 4 ==> CountAt(c, level) == ValueFor(lower, level)
    ensures CountAt(c, 5) == ValueFor(higher, 5)
  {
    assert 1 in Groups(lower) && 2 in Groups(lower) && 3 in Groups(lower) && 4 in Groups(lower);
    var c := LevelCounts(ValueFor(lower, 1), ValueFor(lower, 2), ValueFor(lower, 3), ValueFor(lower, 4), ValueFor(higher, 5));
    assert forall level :: 1 <= level <= 4 ==> CountAt(c, level) == ValueFor(lower, level) by {
      assert CountAt(c, 1) == ValueFor(lower, 1);
      assert CountAt(c, 2) == ValueFor(lower, 2);
      assert CountAt(c, 3) == ValueFor(lower, 3);
      assert CountAt(c, 4) == ValueFor(lower, 4);
    }
    c
  }

  /** The wide record emitted for one district. */
  datatype Record = Record(
    id: string,
    level2011: real, level2022: real,
    counts2011: LevelCounts, counts2022: LevelCounts,
    change: real)

  /** Levels `from` to `to` all occur in the slice, so that `values[0]` exists for each. */
  predicate HasLevels(slice: seq<Observation<int>>, from: int, to: int) {
    forall level :: from <= level <= to ==> level in Groups(slice)
  }

  /**
   * What the source needs of a district to build its record without
   * failing: a non-zero total and levels 1 to 5 in each year's slice.
   */
  predicate Summarizable(rows: seq<Observation<int>>, id: string) {
    var s11 := Slice(rows, id, Census2011);
    var s22 := Slice(rows, id, Census2022);
    && Sum(Values(s11)) != 0.0
    && Sum(Values(s22)) != 0.0
    && HasLevels(s11, 1, 5)
    && HasLevels(s22, 1, 5)
  }

  /**
   * The body of the per-district loop: one record from the district's two
   * year slices, every count read from the slice of its own year.
   */
  function Summarize(rows: seq<Observation<int>>, id: string): (rec: Record)
    requires Summarizable(rows, id)
    ensures rec.id == id
  {
    var s11 := Slice(rows, id, Census2011);
    var s22 := Slice(rows, id, Census2022);
    var level2011 := NormalizedScore(s11);
    var level2022 := NormalizedScore(s22);
    Record(
      id,
      level2011, level2022,
      CountsFor(s11, s11),
      CountsFor(s22, s22),
      level2022 - level2011)
  }

  /**
   * What the loop body as written needs: as `Summarizable`, except that
   * level 5 is looked up only in the 2022 slice.
   */
  predicate SummarizableAsWritten(rows: seq<Observation<int>>, id: string) {
    var s11 := Slice(rows, id, Census2011);
    var s22 := Slice(rows, id, Census2022);
    && Sum(Values(s11)) != 0.0
    && Sum(Values(s22)) != 0.0
    && HasLevels(s11, 1, 4)
    && HasLevels(s22, 1, 5)
  }

  /** The loop body as written: the 2011 higher-education count is read from the 2022 slice. */
  function SummarizeAsWritten(rows: seq<Observation<int>>, id: string): (rec: Record)
    requires SummarizableAsWritten(rows, id)
    ensures rec.id == id
  {
    var s11 := Slice(rows, id, Census2011);
    var s22 := Slice(rows, id, Census2022);
    var level2011 := NormalizedScore(s11);
    var level2022 := NormalizedScore(s22);
    Record(
      id,
      level2011, level2022,
      CountsFor(s11, s22),
      CountsFor(s22, s22),
      level2022 - level2011)
  }

  /**
   * `transform_educational_attainment_data` after parsing, as written: one
   * record per district, in order of first appearance.
   */
  function Transform(raw: seq<Observation<string>>): (out: seq<Record>)
    requires forall k :: 0 <= k < |raw| ==> EndsInDigit(raw[k].group)
    requires forall k :: 0 <= k < |raw| ==> SummarizableAsWritten(ToLevels(raw), raw[k].id)
    ensures |out| == |Unique(Ids(ToLevels(raw)))|
    ensures forall i :: 0 <= i < |out| ==> out[i] == SummarizeAsWritten(ToLevels(raw), Unique(Ids(ToLevels(raw)))[i])
  {
    var rows := ToLevels(raw);
    var ids := Unique(Ids(rows));
    EveryDistrictSummarizableAsWritten(raw);
    seq(|ids|, i requires 0 <= i < |ids| => SummarizeAsWritten(rows, ids[i]))
  }

  /** The transformation with line 84 corrected: every 2011 count is read from the 2011 slice. */
  function IntendedTransform(raw: seq<Observation<string>>): (out: seq<Record>)
    requires forall k :: 0 <= k < |raw| ==> EndsInDigit(raw[k].group)
    requires forall k :: 0 <= k < |raw| ==> Summarizable(ToLevels(raw), raw[k].id)
    ensures |out| == |Unique(Ids(ToLevels(raw)))|
    ensures forall i :: 0 <= i < |out| ==> out[i] == Summarize(ToLevels(raw), Unique(Ids(ToLevels(raw)))[i])
  {
    var rows := ToLevels(raw);
    var ids := Unique(Ids(rows));
    EveryDistrictSummarizable(raw);
    seq(|ids|, i requires 0 <= i < |ids| => Summarize(rows, ids[i]))
  }

  /** Every district of the output has a row in the input, so the precondition covers it. */
  lemma EveryDistrictSummarizableAsWritten(raw: seq<Observation<string>>)
    requires forall k :: 0 <= k < |raw| ==> EndsInDigit(raw[k].group)
    requires forall k :: 0 <= k < |raw| ==> SummarizableAsWritten(ToLevels(raw), raw[k].id)
    ensures forall i :: 0 <= i < |Unique(Ids(ToLevels(raw)))| ==>
              SummarizableAsWritten(ToLevels(raw), Unique(Ids(ToLevels(raw)))[i])
  {
    var rows := ToLevels(raw);
    var ids := Unique(Ids(rows));
    forall i | 0 <= i < |ids|
      ensures SummarizableAsWritten(rows, ids[i])
    {
      var k := FirstIndex(Ids(rows), ids[i]);
      assert raw[k].id == ids[i];
    }
  }

  /** The same for the corrected precondition. */
  lemma EveryDistrictSummarizable(raw: seq<Observation<string>>)
    requires forall k :: 0 <= k < |raw| ==> EndsInDigit(raw[k].group)
    requires forall k :: 0 <= k < |raw| ==> Summarizable(ToLevels(raw), raw[k].id)
    ensures forall i :: 0 <= i < |Unique(Ids(ToLevels(raw)))| ==>
              Summarizable(ToLevels(raw), Unique(Ids(ToLevels(raw)))[i])
  {
    var rows := ToLevels(raw);
    var ids := Unique(Ids(rows));
    forall i | 0 <= i < |ids|
      ensures Summarizable(rows, ids[i])
    {
      var k := FirstIndex(Ids(rows), ids[i]);
      assert raw[k].id == ids[i];
    }
  }

  /**
   * The output's districts are `pd.unique` of the input's district column:
   * one record per district, none twice, in order of first appearance.
   */
  lemma OneRecordPerDistrict(raw: seq<Observation<string>>)
    requires forall k :: 0 <= k < |raw| ==> EndsInDigit(raw[k].group)
    requires forall k :: 0 <= k < |raw| ==> SummarizableAsWritten(ToLevels(raw), raw[k].id)
    ensures var out := Transform(raw);
      && (forall i :: 0 <= i < |out| ==> out[i].id == Unique(Ids(ToLevels(raw)))[i])
      && (forall i, j :: 0 <= i < j < |out| ==> out[i].id != out[j].id)
  {
    var rows := ToLevels(raw);
    var out := Transform(raw);
    var u := Unique(Ids(rows));
    forall i | 0 <= i < |out|
      ensures out[i].id == u[i]
    {
      assert out[i] == SummarizeAsWritten(rows, u[i]);
    }
  }

  /**
   * What a record means: each score is the normalised weighted mean level
   * of its year, the change is the plain difference of the two scores, and
   * every count is the clamped value of its level in its own year's slice.
   */
  lemma RecordMeaning(rows: seq<Observation<int>>, id: string)
    requires Summarizable(rows, id)
    ensures var rec := Summarize(rows, id);
      var s11 := Slice(rows, id, Census2011);
      var s22 := Slice(rows, id, Census2022);
      && IsScoreOf(rec.level2011, WeightedTotal(s11), Sum(Values(s11)))
      && IsScoreOf(rec.level2022, WeightedTotal(s22), Sum(Values(s22)))
      && rec.change == rec.level2022 - rec.level2011
      && (forall level :: 1 <= level <= 5 ==> CountAt(rec.counts2011, level) == ValueFor(s11, level))
      && (forall level :: 1 <= level <= 5 ==> CountAt(rec.counts2022, level) == ValueFor(s22, level))
  {
    var s11 := Slice(rows, id, Census2011);
    var s22 := Slice(rows, id, Census2022);
    var rec := Summarize(rows, id);
    assert rec.level2011 == NormalizedScore(s11);
    assert rec.level2022 == NormalizedScore(s22);
    assert rec.counts2011 == CountsFor(s11, s11);
    assert rec.counts2022 == CountsFor(s22, s22);
    CountsOfOwnYear(s11);
    CountsOfOwnYear(s22);
  }

  /** Reading all five levels from one slice gives that slice's value at every level. */
  lemma CountsOfOwnYear(slice: seq<Observation<int>>)
    requires HasLevels(slice, 1, 5)
    ensures forall level :: 1 <= level <= 5 ==> CountAt(CountsFor(slice, slice), level) == ValueFor(slice, level)
  {
    var c := CountsFor(slice, slice);
    assert CountAt(c, 5) == ValueFor(slice, 5);
  }

  /**
   * What a record means as written: the scores and the change as in
   * `RecordMeaning`, the 2022 counts and the 2011 counts of levels 1 to 4
   * from their own year, but the 2011 higher-education count from the 2022
   * slice, so that it always equals the 2022 one. Where the corrected
   * precondition also holds, only the 2011 counts differ from `Summarize`.
   */
  lemma HigherEducation2011IsRead2022(rows: seq<Observation<int>>, id: string)
    requires SummarizableAsWritten(rows, id)
    ensures var rec := SummarizeAsWritten(rows, id);
      var s11 := Slice(rows, id, Census2011);
      var s22 := Slice(rows, id, Census2022);
      && IsScoreOf(rec.level2011, WeightedTotal(s11), Sum(Values(s11)))
      && IsScoreOf(rec.level2022, WeightedTotal(s22), Sum(Values(s22)))
      && rec.change == rec.level2022 - rec.level2011
      && (forall level :: 1 <= level <= 4 ==> CountAt(rec.counts2011, level) == ValueFor(s11, level))
      && rec.counts2011.higherEducation == ValueFor(s22, 5)
      && rec.counts2011.higherEducation == rec.counts2022.higherEducation
      && (forall level :: 1 <= level <= 5 ==> CountAt(rec.counts2022, level) == ValueFor(s22, level))
      && (Summarizable(rows, id) ==> rec == Summarize(rows, id).(counts2011 := rec.counts2011))
  {
    var s11 := Slice(rows, id, Census2011);
    var s22 := Slice(rows, id, Census2022);
    var rec := SummarizeAsWritten(rows, id);
    assert rec.level2011 == NormalizedScore(s11);
    assert rec.level2022 == NormalizedScore(s22);
    assert rec.counts2011 == CountsFor(s11, s22);
    assert rec.counts2022 == CountsFor(s22, s22);
    CountsOfOwnYear(s22);
  }

  /**
   * A district with 7 people of higher education in 2011 and 3 in 2022
   * (one person at each other level): as written, its 2011 record reports 3.
   */
  lemma HigherEducation2011Counterexample()
    ensures var rows := TwoCensusRows(7.0, 3.0);
      && SummarizableAsWritten(rows, "d")
      && Summarizable(rows, "d")
      && SummarizeAsWritten(rows, "d").counts2011.higherEducation == 3.0
      && Summarize(rows, "d").counts2011.higherEducation == 7.0
  {
    var rows := TwoCensusRows(7.0, 3.0);
    TwoCensusSlices(7.0, 3.0);
    var s11 := Slice(rows, "d", Census2011);
    var s22 := Slice(rows, "d", Census2022);
    assert SummarizeAsWritten(rows, "d").counts2011 == CountsFor(s11, s22);
    assert Summarize(rows, "d").counts2011 == CountsFor(s11, s11);
  }

  /** `TwoCensusRows` meets both preconditions, and each year reads its own level-5 count. */
  lemma TwoCensusSlices(higher2011: real, higher2022: real)
    requires higher2011 >= 0.0 && higher2022 >= 0.0
    ensures var rows := TwoCensusRows(higher2011, higher2022);
      var s11 := Slice(rows, "d", Census2011);
      var s22 := Slice(rows, "d", Census2022);
      && Summarizable(rows, "d")
      && SummarizableAsWritten(rows, "d")
      && ValueFor(s11, 5) == higher2011
      && ValueFor(s22, 5) == higher2022
  {
    var rows := TwoCensusRows(higher2011, higher2022);
    TwoCensusSliceShapes(higher2011, higher2022);
    var s11 := Slice(rows, "d", Census2011);
    var s22 := Slice(rows, "d", Census2022);
    OneAtEachLowerLevel(s11, higher2011);
    OneAtEachLowerLevel(s22, higher2022);
  }

  /** Each year's slice of `TwoCensusRows` is that year's half of the table. */
  lemma TwoCensusSliceShapes(higher2011: real, higher2022: real)
    ensures Slice(TwoCensusRows(higher2011, higher2022), "d", Census2011) == YearRows(Census2011, higher2011)
    ensures Slice(TwoCensusRows(higher2011, higher2022), "d", Census2022) == YearRows(Census2022, higher2022)
  {
    var r11 := YearRows(Census2011, higher2011);
    var r22 := YearRows(Census2022, higher2022);
    SliceConcat(r11, r22, "d", Census2011);
    SliceConcat(r11, r22, "d", Census2022);
    SliceOfOneDistrictYear(r11, "d", Census2011);
    SliceOfOneDistrictYear(r22, "d", Census2022);
    SliceOfOtherYear(r11, "d", Census2022);
    SliceOfOtherYear(r22, "d", Census2011);
  }

  /** A slice holding one person at each of levels 1 to 4 and `higher` at level 5. */
  lemma OneAtEachLowerLevel(slice: seq<Observation<int>>, higher: real)
    requires |slice| == 5 && higher >= 0.0
    requires forall k :: 0 <= k < 4 ==> slice[k].group == k + 1 && slice[k].value == 1.0
    requires slice[4].group == 5 && slice[4].value == higher
    ensures HasLevels(slice, 1, 5)
    ensures Sum(Values(slice)) == 4.0 + higher
    ensures ValueFor(slice, 5) == higher
  {
    assert Groups(slice) == [1, 2, 3, 4, 5];
    var v := Values(slice);
    assert v == [1.0, 1.0, 1.0, 1.0, higher];
    assert Sum(v[4..]) == higher;
    assert Sum(v[3..]) == 1.0 + higher;
    assert Sum(v[2..]) == 2.0 + higher;
    assert Sum(v[1..]) == 3.0 + higher;
    FirstIndexOfDistinct(Groups(slice), 4);
  }

  /** One district "d", one person at each of levels 1 to 4 in both years, and the given level-5 counts. */
  function TwoCensusRows(higher2011: real, higher2022: real): (rows: seq<Observation<int>>)
    ensures |rows| == 10
  {
    YearRows(Census2011, higher2011) + YearRows(Census2022, higher2022)
  }

  /** District "d" in one year: one person at each of levels 1 to 4, `higher` at level 5. */
  function YearRows(year: int, higher: real): (rows: seq<Observation<int>>)
    ensures |rows| == 5
    ensures forall k :: 0 <= k < 5 ==> rows[k].id == "d" && rows[k].year == year
    ensures forall k :: 0 <= k < 4 ==> rows[k].group == k + 1 && rows[k].value == 1.0
    ensures rows[4].group == 5 && rows[4].value == higher
  {
    [ Observation("d", 1, 1.0, year), Observation("d", 2, 1.0, year),
      Observation("d", 3, 1.0, year), Observation("d", 4, 1.0, year),
      Observation("d", 5, higher, year) ]
  }

  /**
   * With levels in 1..5 and non-negative values, both scores lie in [0, 1]
   * and so the change lies in [-1, 1].
   */
  lemma ScoresAreFractions(rows: seq<Observation<int>>, id: string)
    requires SummarizableAsWritten(rows, id)
    requires forall k :: 0 <= k < |rows| ==> 1 <= rows[k].group <= 5 && rows[k].value >= 0.0
    ensures var rec := SummarizeAsWritten(rows, id);
      && 0.0 <= rec.level2011 <= 1.0
      && 0.0 <= rec.level2022 <= 1.0
      && -1.0 <= rec.change <= 1.0
  {
    var s11 := Slice(rows, id, Census2011);
    var s22 := Slice(rows, id, Census2022);
    SumNonNegative(Values(s11));
    SumNonNegative(Values(s22));
    ScoreIsFraction(s11);
    ScoreIsFraction(s22);
    var rec := SummarizeAsWritten(rows, id);
    assert rec.level2011 == NormalizedScore(s11);
    assert rec.level2022 == NormalizedScore(s22);
  }
}
