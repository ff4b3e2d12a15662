/**
 * The county catalogue: every religion input file is one county, numbered
 * from 1 in directory-listing order, named through the fixed table of the
 * twenty Hungarian counties (Budapest included) and carrying the distinct
 * district ids of its `TERUL_GEO5` column. Listing the directory, reading
 * the files and writing the JSON are left to the caller: the file names and
 * each file's id column are parameters.
 */
module Counties {
  import opened Wrappers
  import opened Series

  /** The word that ends every county name. */
  const CountySuffix := " megye"

  /**
   * The counties of `COUNTY_NAMES`, in the order the dictionary lists them:
   * each file-name stem with the place name that, followed by " megye",
   * is the county's name.
   */
  const CountyPlaces: seq<(string, string)> := [
    ("bacs_kiskun", "Bács-Kiskun"),
    ("baranya", "Baranya"),
    ("bekes", "Békés"),
    ("borsod_abauj_zemplen", "Borsod-Abaúj-Zemplén"),
    ("budapest", "Budapest"),
    ("csongrad_csanad", "Csongrád-Csanád"),
    ("fejer", "Fejér"),
    ("gyor_moson_sopron", "Győr-Moson-Sopron"),
    ("hajdu_bihar", "Hajdú-Bihar"),
    ("heves", "Heves"),
    ("jasz_nagykun_szolnok", "Jász-Nagykun-Szolnok"),
    ("komarom_esztergom", "Komárom-Esztergom"),
    ("nograd", "Nógrád"),
    ("pest", "Pest"),
    ("somogy", "Somogy"),
    ("szabolcs_szatmar_bereg", "Szabolcs-Szatmár-Bereg"),
    ("tolna", "Tolna"),
    ("vas", "Vas"),
    ("veszprem", "Veszprém"),
    ("zala", "Zala")
  ]

  /**
   * `COUNTY_NAMES` as (stem, name) pairs: the name of each county is its
   * place name followed by " megye", exactly as the dictionary spells it.
   */
  const CountyTable: seq<(string, string)> := WithSuffix(CountyPlaces)

  /** Each (stem, place) pair becomes (stem, place + " megye"). */
  function WithSuffix(places: seq<(string, string)>): (table: seq<(string, string)>)
    ensures |table| == |places|
    ensures forall i :: 0 <= i < |places| ==> table[i] == (places[i].0, places[i].1 + CountySuffix)
  {
    seq(|places|, i requires 0 <= i < |places| => (places[i].0, places[i].1 + CountySuffix))
  }

  /** Dictionary lookup in a table of pairs: the name paired with `key`, if any. */
  function Lookup(table: seq<(string, string)>, key: string): (r: Option<string>)
    ensures r.None? <==> forall i :: 0 <= i < |table| ==> table[i].0 != key
    ensures r.Some? ==> exists i :: 0 <= i < |table| && table[i] == (key, r.value)
  {
    if |table| == 0 then None
    else if table[0].0 == key then
      assert table[0] == (key, table[0].1);
      Some(table[0].1)
    else
      var r := Lookup(table[1..], key);
      if r.Some? then
        var i :| 0 <= i < |table[1..]| && table[1..][i] == (key, r.value);
        assert table[i + 1] == (key, r.value);
        r
      else
        r
  }

  /** `name` ends in " megye". */
  predicate EndsInMegye(name: string) {
    |name| >= |CountySuffix| && name[|name| - |CountySuffix|..] == CountySuffix
  }

  /** Every name in the table ends in " megye". */
  lemma NamesEndInMegye()
    ensures forall i :: 0 <= i < |CountyTable| ==> EndsInMegye(CountyTable[i].1)
  {
    forall i | 0 <= i < |CountyTable|
      ensures EndsInMegye(CountyTable[i].1)
    {
      var place := CountyPlaces[i].1;
      assert CountyTable[i].1 == place + CountySuffix;
      assert (place + CountySuffix)[|place|..] == CountySuffix;
    }
  }

  /**
   * `COUNTY_NAMES[stem]`, with `None` where the dictionary raises `KeyError`:
   * known stems get a county name ending in " megye".
   */
  function CountyName(stem: string): (r: Option<string>)
    ensures r.None? <==> forall i :: 0 <= i < |CountyTable| ==> CountyTable[i].0 != stem
    ensures r.Some? ==> EndsInMegye(r.value)
  {
    NamesEndInMegye();
    Lookup(CountyTable, stem)
  }

  /** The table holds twenty distinct stems and twenty distinct names. */
  lemma TableIsOneToOne()
    ensures |CountyTable| == 20
    ensures forall i, j :: 0 <= i < j < |CountyTable| ==>
              CountyTable[i].0 != CountyTable[j].0 && CountyTable[i].1 != CountyTable[j].1
  {
    PlacesAreDistinct();
    forall i, j | 0 <= i < j < |CountyTable|
      ensures CountyTable[i].0 != CountyTable[j].0 && CountyTable[i].1 != CountyTable[j].1
    {
      var p := CountyPlaces[i].1;
      var q := CountyPlaces[j].1;
      assert p == (p + CountySuffix)[..|p|];
      assert q == (q + CountySuffix)[..|q|];
    }
  }

  /** The dictionary's twenty stems are distinct, and so are its twenty place names. */
  lemma PlacesAreDistinct()
    ensures |CountyPlaces| == 20
    ensures forall i, j :: 0 <= i < j < |CountyPlaces| ==>
              CountyPlaces[i].0 != CountyPlaces[j].0 && CountyPlaces[i].1 != CountyPlaces[j].1
  {
  }

  /** Different counties get different names. */
  lemma NamesDistinct()
    ensures forall a, b :: a != b && CountyName(a).Some? && CountyName(b).Some? ==>
              CountyName(a).value != CountyName(b).value
  {
    TableIsOneToOne();
    forall a, b | a != b && CountyName(a).Some? && CountyName(b).Some?
      ensures CountyName(a).value != CountyName(b).value
    {
      var i :| 0 <= i < |CountyTable| && CountyTable[i] == (a, CountyName(a).value);
      var j :| 0 <= j < |CountyTable| && CountyTable[j] == (b, CountyName(b).value);
      assert i != j;
    }
  }

  const CsvExtension := ".csv"

  /** `s.replace('.csv', '')`: every non-overlapping occurrence, scanning left to right, is removed. */
  function StripCsv(s: string): (r: string)
    ensures |r| <= |s|
    ensures '.' !in s ==> r == s
    decreases |s|
  {
    if |s| < 4 then s
    else if s[..4] == CsvExtension then
      assert s[0] == CsvExtension[0];
      StripCsv(s[4..])
    else [s[0]] + StripCsv(s[1..])
  }

  /** A stem without a dot survives the round trip through its file name. */
  lemma {:induction false} StripCsvOfFilename(stem: string)
    requires '.' !in stem
    ensures StripCsv(stem + CsvExtension) == stem
    decreases |stem|
  {
    var s := stem + CsvExtension;
    if |stem| == 0 {
      assert s == CsvExtension;
      assert s[4..] == [];
    } else {
      assert s[0] == stem[0];
      assert s[0] != '.';
      assert s[..4] != CsvExtension;
      assert s[1..] == stem[1..] + CsvExtension;
      StripCsvOfFilename(stem[1..]);
      assert stem == [stem[0]] + stem[1..];
    }
  }

  /** One catalogue entry: `{'id': ..., 'name': ..., 'ids': [...]}`. */
  datatype County = County(id: int, name: string, ids: seq<string>)

  /** The `KeyError` the name lookup raises for a stem outside the table. */
  datatype CatalogueError = UnknownCounty(stem: string)

  /** The catalogue entry built for the file at position `index`. */
  predicate IsEntryFor(c: County, index: int, filename: string, districtIds: seq<string>) {
    && CountyName(StripCsv(filename)).Some?
    && c.id == index + 1
    && c.name == CountyName(StripCsv(filename)).value
    && c.ids == Unique(districtIds)
  }

  /**
   * The loop of `collect_counties`: `filenames` is the directory listing
   * and `districtColumns[k]` the `TERUL_GEO5` column of file `k`. The first
   * file whose stem is not a known county stops the loop.
   */
  method CollectCounties(filenames: seq<string>, districtColumns: seq<seq<string>>)
    returns (r: Result<seq<County>, CatalogueError>)
    requires |filenames| == |districtColumns|
    ensures r.Success? <==> forall k :: 0 <= k < |filenames| ==> CountyName(StripCsv(filenames[k])).Some?
    ensures r.Failure? ==>
              exists k :: 0 <= k < |filenames|
                && r.error == UnknownCounty(StripCsv(filenames[k]))
                && CountyName(StripCsv(filenames[k])).None?
                && forall j :: 0 <= j < k ==> CountyName(StripCsv(filenames[j])).Some?
    ensures r.Success? ==>
              && |r.value| == |filenames|
              && forall k :: 0 <= k < |filenames| ==> IsEntryFor(r.value[k], k, filenames[k], districtColumns[k])
  {
    var counties: seq<County> := [];
    var index := 0;
    while index < |filenames|
      invariant 0 <= index <= |filenames|
      invariant |counties| == index
      invariant forall k :: 0 <= k < index ==> IsEntryFor(counties[k], k, filenames[k], districtColumns[k])
    {
      var stem := StripCsv(filenames[index]);
      var name := CountyName(stem);
      if name.None? {
        return Failure(UnknownCounty(stem));
      }
      var county := County(index + 1, name.value, Unique(districtColumns[index]));
      counties := counties + [county];
      index := index + 1;
    }
    return Success(counties);
  }

  /**
   * In a catalogue, ids are 1, 2, ... in listing order, no county lists a
   * district twice, and files with different stems get different names.
   */
  lemma CatalogueIsOneToOne(counties: seq<County>, filenames: seq<string>, districtColumns: seq<seq<string>>)
    requires |counties| == |filenames| == |districtColumns|
    requires forall k :: 0 <= k < |filenames| ==> IsEntryFor(counties[k], k, filenames[k], districtColumns[k])
    ensures forall i, j :: 0 <= i < j < |counties| ==> counties[i].id < counties[j].id
    ensures forall k :: 0 <= k < |counties| ==> NoDuplicates(counties[k].ids)
    ensures forall i, j :: 0 <= i < j < |counties| && StripCsv(filenames[i]) != StripCsv(filenames[j]) ==>
              counties[i].name != counties[j].name
  {
    NamesDistinct();
  }

  /** The input file of every county in the table, `<stem>.csv`, resolves to that county's name. */
  lemma TableFilesResolve(i: int)
    requires 0 <= i < |CountyTable|
    ensures CountyName(StripCsv(CountyTable[i].0 + CsvExtension)) == Some(CountyTable[i].1)
  {
    var stem := CountyTable[i].0;
    assert '.' !in stem;
    StripCsvOfFilename(stem);
    TableIsOneToOne();
    var r := CountyName(stem);
    assert r.Some?;
    var j :| 0 <= j < |CountyTable| && CountyTable[j] == (stem, r.value);
    assert i == j;
  }
}
