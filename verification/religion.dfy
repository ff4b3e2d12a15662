/**
 * The religion aggregation: long-format rows of one county's religion table
 * become one wide record per district, holding the nine per-denomination
 * counts and the share of religious people for 2011 and 2022, and the
 * relative change of the religious population between the two censuses.
 * Arithmetic is exact; the source's `round(·, 4)` is not modelled.
 */
module Religion {
  import opened Wrappers
  import opened Series
  import opened Frames

  /** The category code of people who belong to no religion. */
  const NoReligion := "RE_NOT"

  /** The nine categories that get a column of their own in the wide record. */
  datatype Denomination =
    | RomanCatholic | GreekCatholic | Calvinist | Lutheran | OrthodoxChristian
    | OtherChristian | Jewish | Atheist | Other

  /** The category code under which the table reports a denomination. */
  function Code(d: Denomination): string {
    match d
    case RomanCatholic => "RE_RC"
    case GreekCatholic => "RE_GC"
    case Calvinist => "RE_CA"
    case Lutheran => "RE_LU"
    case OrthodoxChristian => "RE_OC"
    case OtherChristian => "RE_CD"
    case Jewish => "RE_J"
    case Atheist => NoReligion
    case Other => "RE_OCD"
  }

  /** A row as read from the file: `None` where the file holds `null`. */
  datatype RawRow = RawRow(id: string, group: string, value: Option<real>, year: int)

  /** The `flag` column: a row counts as religious unless its category is `RE_NOT`. */
  predicate IsReligious(group: string) {
    group != NoReligion
  }

  /** `fillna(0)`: every null value becomes zero, everything else is kept. */
  function FillNulls(raw: seq<RawRow>): (rows: seq<Observation<string>>)
    ensures |rows| == |raw|
    ensures forall k :: 0 <= k < |raw| ==>
              && rows[k].id == raw[k].id
              && rows[k].group == raw[k].group
              && rows[k].year == raw[k].year
              && (raw[k].value.None? ==> rows[k].value == 0.0)
              && (raw[k].value.Some? ==> rows[k].value == raw[k].value.value)
  {
    seq(|raw|, k requires 0 <= k < |raw| =>
      Observation(raw[k].id, raw[k].group, raw[k].value.GetOr(0.0), raw[k].year))
  }

  /** The non-null values of the raw rows, in table order. */
  function PresentValues(raw: seq<RawRow>): seq<real> {
    if |raw| == 0 then []
    else if raw[0].value.Some? then [raw[0].value.value] + PresentValues(raw[1..])
    else PresentValues(raw[1..])
  }

  /** Filling nulls with zero adds nothing to a sum: the total is that of the present values. */
  lemma {:induction false} NullsAddNothing(raw: seq<RawRow>)
    ensures Sum(Values(FillNulls(raw))) == Sum(PresentValues(raw))
  {
    if |raw| > 0 {
      NullsAddNothing(raw[1..]);
      assert Values(FillNulls(raw))[1..] == Values(FillNulls(raw[1..]));
    }
  }

  /** `record[record['flag'] == religious]['value'].values`. */
  function FlaggedValues(rows: seq<Observation<string>>, religious: bool): seq<real> {
    if |rows| == 0 then []
    else if IsReligious(rows[0].group) == religious then [rows[0].value] + FlaggedValues(rows[1..], religious)
    else FlaggedValues(rows[1..], religious)
  }

  /** The number of people in any religion: the values of the rows flagged religious. */
  function ReligiousSum(rows: seq<Observation<string>>): (s: real)
    ensures (forall k :: 0 <= k < |rows| ==> rows[k].value >= 0.0) ==> s >= 0.0
    ensures (forall k :: 0 <= k < |rows| ==> rows[k].group == NoReligion) ==> s == 0.0
  {
    FlaggedSumNonNegative(rows, true);
    NoneFlagged(rows, true);
    Sum(FlaggedValues(rows, true))
  }

  /** The number of people in no religion: the values of the `RE_NOT` rows. */
  function NonReligiousSum(rows: seq<Observation<string>>): (s: real)
    ensures (forall k :: 0 <= k < |rows| ==> rows[k].value >= 0.0) ==> s >= 0.0
    ensures (forall k :: 0 <= k < |rows| ==> rows[k].group != NoReligion) ==> s == 0.0
  {
    FlaggedSumNonNegative(rows, false);
    NoneFlagged(rows, false);
    Sum(FlaggedValues(rows, false))
  }

  /** When no row carries the flag, nothing is selected. */
  lemma {:induction false} NoneFlagged(rows: seq<Observation<string>>, religious: bool)
    ensures (forall k :: 0 <= k < |rows| ==> IsReligious(rows[k].group) != religious) ==> FlaggedValues(rows, religious) == []
  {
    if |rows| > 0 {
      NoneFlagged(rows[1..], religious);
      if forall k :: 0 <= k < |rows| ==> IsReligious(rows[k].group) != religious {
        assert forall k :: 0 <= k < |rows[1..]| ==> IsReligious(rows[1..][k].group) != religious by {
          forall k | 0 <= k < |rows[1..]|
            ensures IsReligious(rows[1..][k].group) != religious
          {
            assert rows[1..][k] == rows[k + 1];
          }
        }
      }
    }
  }

  /** Selecting by flag distributes over concatenation. */
  lemma {:induction false} FlaggedValuesConcat(a: seq<Observation<string>>, b: seq<Observation<string>>, religious: bool)
    ensures FlaggedValues(a + b, religious) == FlaggedValues(a, religious) + FlaggedValues(b, religious)
  {
    if |a| == 0 {
      assert a + b == b;
    } else {
      var ab := a + b;
      assert ab[0] == a[0];
      assert ab[1..] == a[1..] + b;
      FlaggedValuesConcat(a[1..], b, religious);
      if IsReligious(a[0].group) == religious {
        calc {
          FlaggedValues(ab, religious);
          [a[0].value] + FlaggedValues(a[1..] + b, religious);
          [a[0].value] + (FlaggedValues(a[1..], religious) + FlaggedValues(b, religious));
          ([a[0].value] + FlaggedValues(a[1..], religious)) + FlaggedValues(b, religious);
        }
      } else {
        assert FlaggedValues(ab, religious) == FlaggedValues(a[1..] + b, religious);
      }
    }
  }

  /**
   * The two sums split a table row by row: each adds up over concatenation,
   * so they are determined by what they give for a single row.
   */
  lemma SumsAreAdditive(a: seq<Observation<string>>, b: seq<Observation<string>>)
    ensures ReligiousSum(a + b) == ReligiousSum(a) + ReligiousSum(b)
    ensures NonReligiousSum(a + b) == NonReligiousSum(a) + NonReligiousSum(b)
  {
    FlaggedValuesConcat(a, b, true);
    SumConcat(FlaggedValues(a, true), FlaggedValues(b, true));
    FlaggedValuesConcat(a, b, false);
    SumConcat(FlaggedValues(a, false), FlaggedValues(b, false));
  }

  /** A single row adds its value to the religious sum unless it is `RE_NOT`, and to the other sum otherwise. */
  lemma SumsOfOneRow(r: Observation<string>)
    ensures ReligiousSum([r]) == if r.group != NoReligion then r.value else 0.0
    ensures NonReligiousSum([r]) == if r.group == NoReligion then r.value else 0.0
  {
    assert [r][1..] == [];
    assert FlaggedValues([r], true) == if r.group != NoReligion then [r.value] else [];
    assert FlaggedValues([r], false) == if r.group == NoReligion then [r.value] else [];
    assert Sum([r.value]) == r.value + Sum([r.value][1..]);
  }

  /** Every row is either religious or not: the two sums add up to the total. */
  lemma {:induction false} SplitSumsTotal(rows: seq<Observation<string>>)
    ensures ReligiousSum(rows) + NonReligiousSum(rows) == Sum(Values(rows))
  {
    if |rows| > 0 {
      SplitSumsTotal(rows[1..]);
      assert Values(rows)[1..] == Values(rows[1..]);
    }
  }

  /** Non-negative values give non-negative religious and non-religious sums. */
  lemma {:induction false} FlaggedSumNonNegative(rows: seq<Observation<string>>, religious: bool)
    ensures (forall k :: 0 <= k < |rows| ==> rows[k].value >= 0.0) ==> Sum(FlaggedValues(rows, religious)) >= 0.0
  {
    if |rows| > 0 {
      FlaggedSumNonNegative(rows[1..], religious);
      if forall k :: 0 <= k < |rows| ==> rows[k].value >= 0.0 {
        assert forall k :: 0 <= k < |rows[1..]| ==> rows[1..][k].value >= 0.0 by {
          forall k | 0 <= k < |rows[1..]|
            ensures rows[1..][k].value >= 0.0
          {
            assert rows[1..][k] == rows[k + 1];
          }
        }
      }
    }
  }

  /** `p` is the share that `part` makes of `whole`. */
  predicate IsShareOf(p: real, part: real, whole: real) {
    p * whole == part
  }

  /** `c` is the change from `before` to `after`, relative to `before`. */
  predicate IsRelativeChange(c: real, before: real, after: real) {
    c * before == after - before
  }

  /** The share of religious people among all people counted in a year. */
  function Percentage(religious: real, nonReligious: real): (p: real)
    requires nonReligious + religious != 0.0
    ensures IsShareOf(p, religious, nonReligious + religious)
    ensures religious >= 0.0 && nonReligious >= 0.0 ==> 0.0 <= p <= 1.0
    ensures nonReligious == 0.0 ==> p == 1.0
  {
    var whole := nonReligious + religious;
    ShareFacts(religious, whole);
    religious / whole
  }

  /** Facts about the quotient of `part` by a non-zero `whole`. */
  lemma ShareFacts(part: real, whole: real)
    requires whole != 0.0
    ensures IsShareOf(part / whole, part, whole)
    ensures 0.0 <= part <= whole ==> 0.0 <= part / whole <= 1.0
    ensures part == whole ==> part / whole == 1.0
  {
    if part == whole {
      var q := part / whole;
      assert q * whole == whole;
      assert (q - 1.0) * whole == 0.0;
    }
    if 0.0 <= part <= whole {
      var q := part / whole;
      assert q * whole == part;
      if q > 1.0 {
        assert q * whole > whole;
      }
    }
  }

  /** The relative change of the religious population from `before` (2011) to `after` (2022). */
  function Change(before: real, after: real): (c: real)
    requires before != 0.0
    ensures IsRelativeChange(c, before, after)
    ensures before > 0.0 ==>
              && (c > 0.0 <==> after > before)
              && (c == 0.0 <==> after == before)
              && (c < 0.0 <==> after < before)
  {
    (after - before) / before
  }

  /** The nine per-denomination columns of one census year. */
  datatype Counts = Counts(
    romanCatholic: real, greekCatholic: real, calvinist: real, lutheran: real,
    orthodoxChristian: real, otherChristian: real, jewish: real, atheist: real, other: real)

  /** The column of `c` that holds denomination `d`. */
  function CountOf(c: Counts, d: Denomination): real {
    match d
    case RomanCatholic => c.romanCatholic
    case GreekCatholic => c.greekCatholic
    case Calvinist => c.calvinist
    case Lutheran => c.lutheran
    case OrthodoxChristian => c.orthodoxChristian
    case OtherChristian => c.otherChristian
    case Jewish => c.jewish
    case Atheist => c.atheist
    case Other => c.other
  }

  /** The wide record emitted for one district. */
  datatype Record = Record(
    id: string,
    counts2011: Counts, percentage2011: real,
    counts2022: Counts, percentage2022: real,
    change: real)

  /** Every one of the nine codes occurs in the slice, so that `values[0]` exists for each. */
  predicate HasAllCodes(slice: seq<Observation<string>>) {
    forall d: Denomination :: Code(d) in Groups(slice)
  }

  /** The nine clamped counts of one year slice. */
  function CountsOf(slice: seq<Observation<string>>): (c: Counts)
    requires HasAllCodes(slice)
  {
    Counts(
      ValueFor(slice, Code(RomanCatholic)), ValueFor(slice, Code(GreekCatholic)),
      ValueFor(slice, Code(Calvinist)), ValueFor(slice, Code(Lutheran)),
      ValueFor(slice, Code(OrthodoxChristian)), ValueFor(slice, Code(OtherChristian)),
      ValueFor(slice, Code(Jewish)), ValueFor(slice, Code(Atheist)),
      ValueFor(slice, Code(Other)))
  }

  /** Each column of `CountsOf` holds the clamped first value of its denomination's code. */
  lemma CountsOfMeaning(slice: seq<Observation<string>>)
    requires HasAllCodes(slice)
    ensures forall d :: CountOf(CountsOf(slice), d) == ValueFor(slice, Code(d))
  {
    forall d
      ensures CountOf(CountsOf(slice), d) == ValueFor(slice, Code(d))
    {
      match d
      case RomanCatholic =>
      case GreekCatholic =>
      case Calvinist =>
      case Lutheran =>
      case OrthodoxChristian =>
      case OtherChristian =>
      case Jewish =>
      case Atheist =>
      case Other =>
    }
  }

  /**
   * What the source needs of a district to build its record without
   * failing: each of the nine codes in both year slices, a non-zero total in
   * each year and a non-zero religious population in 2011.
   */
  predicate Summarizable(rows: seq<Observation<string>>, id: string) {
    var s11 := Slice(rows, id, Census2011);
    var s22 := Slice(rows, id, Census2022);
    && HasAllCodes(s11)
    && HasAllCodes(s22)
    && NonReligiousSum(s11) + ReligiousSum(s11) != 0.0
    && NonReligiousSum(s22) + ReligiousSum(s22) != 0.0
    && ReligiousSum(s11) != 0.0
  }

  /** The body of the per-district loop: one record from the district's two year slices. */
  function Summarize(rows: seq<Observation<string>>, id: string): (rec: Record)
    requires Summarizable(rows, id)
    ensures rec.id == id
  {
    var s11 := Slice(rows, id, Census2011);
    var s22 := Slice(rows, id, Census2022);
    Record(
      id,
      CountsOf(s11), Percentage(ReligiousSum(s11), NonReligiousSum(s11)),
      CountsOf(s22), Percentage(ReligiousSum(s22), NonReligiousSum(s22)),
      Change(ReligiousSum(s11), ReligiousSum(s22)))
  }

  /** `transform_religion_data` after parsing: one record per district, in order of first appearance. */
  function Transform(raw: seq<RawRow>): (out: seq<Record>)
    requires forall k :: 0 <= k < |raw| ==> Summarizable(FillNulls(raw), raw[k].id)
    ensures |out| == |Unique(Ids(FillNulls(raw)))|
    ensures forall i :: 0 <= i < |out| ==> out[i] == Summarize(FillNulls(raw), Unique(Ids(FillNulls(raw)))[i])
  {
    var rows := FillNulls(raw);
    var ids := Unique(Ids(rows));
    EveryDistrictSummarizable(raw);
    seq(|ids|, i requires 0 <= i < |ids| => Summarize(rows, ids[i]))
  }

  /** Every district of the output has a row in the input, so the precondition covers it. */
  lemma EveryDistrictSummarizable(raw: seq<RawRow>)
    requires forall k :: 0 <= k < |raw| ==> Summarizable(FillNulls(raw), raw[k].id)
    ensures forall i :: 0 <= i < |Unique(Ids(FillNulls(raw)))| ==>
              Summarizable(FillNulls(raw), Unique(Ids(FillNulls(raw)))[i])
  {
    var rows := FillNulls(raw);
    var ids := Unique(Ids(rows));
    forall i | 0 <= i < |ids|
      ensures Summarizable(rows, ids[i])
    {
      var k := FirstIndex(Ids(rows), ids[i]);
      assert raw[k].id == ids[i];
    }
  }

  /**
   * The output's districts are `pd.unique` of the input's district column:
   * one record per district, none twice, in order of first appearance.
   */
  lemma OneRecordPerDistrict(raw: seq<RawRow>)
    requires forall k :: 0 <= k < |raw| ==> Summarizable(FillNulls(raw), raw[k].id)
    ensures var out := Transform(raw);
      && (forall i :: 0 <= i < |out| ==> out[i].id == Unique(Ids(FillNulls(raw)))[i])
      && (forall i, j :: 0 <= i < j < |out| ==> out[i].id != out[j].id)
  {
    var rows := FillNulls(raw);
    var out := Transform(raw);
    var u := Unique(Ids(rows));
    forall i | 0 <= i < |out|
      ensures out[i].id == u[i]
    {
      assert out[i] == Summarize(rows, u[i]);
    }
  }

  /**
   * What a record means: each count is the clamped value of the first row
   * with that denomination's code in that year's slice, each percentage is
   * the religious share of that year's total, and the change is relative to
   * the 2011 religious population.
   */
  lemma RecordMeaning(rows: seq<Observation<string>>, id: string)
    requires Summarizable(rows, id)
    ensures var rec := Summarize(rows, id);
      var s11 := Slice(rows, id, Census2011);
      var s22 := Slice(rows, id, Census2022);
      && (forall d :: CountOf(rec.counts2011, d) == ValueFor(s11, Code(d)) >= 0.0)
      && (forall d :: CountOf(rec.counts2022, d) == ValueFor(s22, Code(d)) >= 0.0)
      && IsShareOf(rec.percentage2011, ReligiousSum(s11), Sum(Values(s11)))
      && IsShareOf(rec.percentage2022, ReligiousSum(s22), Sum(Values(s22)))
      && IsRelativeChange(rec.change, ReligiousSum(s11), ReligiousSum(s22))
  {
    var s11 := Slice(rows, id, Census2011);
    var s22 := Slice(rows, id, Census2022);
    var rec := Summarize(rows, id);
    assert rec.counts2011 == CountsOf(s11) && rec.counts2022 == CountsOf(s22);
    assert rec.percentage2011 == Percentage(ReligiousSum(s11), NonReligiousSum(s11));
    assert rec.percentage2022 == Percentage(ReligiousSum(s22), NonReligiousSum(s22));
    assert rec.change == Change(ReligiousSum(s11), ReligiousSum(s22));
    CountsOfMeaning(s11);
    CountsOfMeaning(s22);
    SplitSumsTotal(s11);
    SplitSumsTotal(s22);
  }

  /**
   * With non-negative values, both percentages lie in [0, 1], and a year
   * whose `RE_NOT` rows sum to zero has percentage 1.
   */
  lemma PercentagesAreFractions(rows: seq<Observation<string>>, id: string)
    requires Summarizable(rows, id)
    requires forall k :: 0 <= k < |rows| ==> rows[k].value >= 0.0
    ensures var rec := Summarize(rows, id);
      var s11 := Slice(rows, id, Census2011);
      var s22 := Slice(rows, id, Census2022);
      && 0.0 <= rec.percentage2011 <= 1.0
      && 0.0 <= rec.percentage2022 <= 1.0
      && (NonReligiousSum(s11) == 0.0 ==> rec.percentage2011 == 1.0)
      && (NonReligiousSum(s22) == 0.0 ==> rec.percentage2022 == 1.0)
  {
    var s11 := Slice(rows, id, Census2011);
    var s22 := Slice(rows, id, Census2022);
    SliceKeepsNonNegative(rows, id, Census2011);
    SliceKeepsNonNegative(rows, id, Census2022);
    var rec := Summarize(rows, id);
    assert rec.percentage2011 == Percentage(ReligiousSum(s11), NonReligiousSum(s11));
    assert rec.percentage2022 == Percentage(ReligiousSum(s22), NonReligiousSum(s22));
  }

  /** Rows of years other than 2011 and 2022 affect no field of any record. */
  lemma OtherYearsIgnored(rows: seq<Observation<string>>, id: string)
    requires Summarizable(rows, id)
    ensures Summarizable(InYears(rows, {Census2011, Census2022}), id)
    ensures Summarize(InYears(rows, {Census2011, Census2022}), id) == Summarize(rows, id)
  {
    SliceIgnoresOtherYears(rows, {Census2011, Census2022}, id, Census2011);
    SliceIgnoresOtherYears(rows, {Census2011, Census2022}, id, Census2022);
  }
}
