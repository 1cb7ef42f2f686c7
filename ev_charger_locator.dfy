/** The KEPCO open-API screen: turning the API's `<item>` elements into
    station records, gating on the response header, dropping records at
    (0, 0), and the plain radius search around the user's position. */
module EvChargerLocator {
  import opened Wrappers
  import opened Proximity

  /** One `<item>` element, by the text of each child tag it has (the empty
      string for a tag present without text). */
  type Item = map<string, string>

  /** Python's `float()` on text: the number it denotes, or `None` where the
      conversion raises. Float syntax is not modelled. */
  type FloatParser = string -> Option<real>

  /** ElementTree's `findtext(tag, default)`: the text of a present tag, even
      when empty; the default only when the tag is absent. */
  function FindText(item: Item, tag: string, default: string): string {
    if tag in item then item[tag] else default
  }

  /** The placeholder for a missing descriptive tag. */
  const Unknown := "정보없음"

  /** One row of the station table built from the API. */
  datatype Record = Record(
    name: string, address: string, lat: real, lon: real,
    availability: string, operator: string, connector: string, status: string)

  // ------------------------------------------------------------------
  // Converting one item
  // ------------------------------------------------------------------

  /** `float(findtext(tag) or 0)`: an absent tag and an empty one both read
      as 0; other text goes through the parser. */
  function Coordinate(item: Item, tag: string, parse: FloatParser): Option<real> {
    if tag in item && item[tag] != "" then parse(item[tag]) else Some(0.0)
  }

  /** The record built from one item, or `None` where building it raises. */
  function ConvertItem(item: Item, parse: FloatParser): Option<Record> {
    var lat := Coordinate(item, "lat", parse);
    var lon := Coordinate(item, "longi", parse);
    if lat.None? || lon.None? then None
    else
      Some(Record(
        FindText(item, "csNm", ""), FindText(item, "addr", ""), lat.value, lon.value,
        FindText(item, "useTime", Unknown), FindText(item, "busiNm", Unknown),
        FindText(item, "cpTp", Unknown), FindText(item, "cpStat", Unknown)))
  }

  /** What conversion makes of an item's tags: only a coordinate conversion
      can raise; an absent or empty coordinate tag reads as 0; name and
      address default to the empty string, the other four fields to
      "정보없음". */
  lemma ConvertItemFields(item: Item, parse: FloatParser)
    ensures var r := ConvertItem(item, parse);
      r.None? <==>
        || ("lat" in item && item["lat"] != "" && parse(item["lat"]).None?)
        || ("longi" in item && item["longi"] != "" && parse(item["longi"]).None?)
    ensures var r := ConvertItem(item, parse);
      r.Some? ==>
        && r.value.lat == (if "lat" in item && item["lat"] != "" then parse(item["lat"]).value else 0.0)
        && r.value.lon == (if "longi" in item && item["longi"] != "" then parse(item["longi"]).value else 0.0)
    ensures var r := ConvertItem(item, parse);
      r.Some? ==>
        && r.value.name == (if "csNm" in item then item["csNm"] else "")
        && r.value.address == (if "addr" in item then item["addr"] else "")
        && r.value.availability == (if "useTime" in item then item["useTime"] else Unknown)
        && r.value.operator == (if "busiNm" in item then item["busiNm"] else Unknown)
        && r.value.connector == (if "cpTp" in item then item["cpTp"] else Unknown)
        && r.value.status == (if "cpStat" in item then item["cpStat"] else Unknown)
  {
  }

  // ------------------------------------------------------------------
  // The ingestion loop
  // ------------------------------------------------------------------

  /** The records the ingestion loop collects: every item that converts, in
      item order; an item that fails is skipped. */
  function Normalised(items: seq<Item>, parse: FloatParser): (r: seq<Record>)
    ensures |r| <= |items|
  {
    if items == [] then []
    else
      var init := Normalised(items[..|items| - 1], parse);
      match ConvertItem(items[|items| - 1], parse)
      case None => init
      case Some(record) => init + [record]
  }

  /** Collecting two runs of items one after the other collects the two runs'
      records one after the other: a failing item drops out without
      disturbing the others or their order. */
  lemma {:induction false} NormalisedAppend(a: seq<Item>, b: seq<Item>, parse: FloatParser)
    ensures Normalised(a + b, parse) == Normalised(a, parse) + Normalised(b, parse)
    decreases |b|
  {
    if b == [] {
      assert a + b == a;
    } else {
      var b' := b[..|b| - 1];
      assert (a + b)[..|a + b| - 1] == a + b';
      assert (a + b)[|a + b| - 1] == b[|b| - 1];
      NormalisedAppend(a, b', parse);
    }
  }

  /** The records collected from a run of items with one more item appended. */
  lemma NormalisedLast(items: seq<Item>, parse: FloatParser)
    requires items != []
    ensures Normalised(items, parse) ==
              Normalised(items[..|items| - 1], parse)
              + (var last := ConvertItem(items[|items| - 1], parse);
                 if last.Some? then [last.value] else [])
  {
  }

  /** Every item that converts has its record collected. */
  lemma {:induction false} NormalisedKeepsConverted(items: seq<Item>, parse: FloatParser)
    ensures forall i :: 0 <= i < |items| && ConvertItem(items[i], parse).Some? ==>
              ConvertItem(items[i], parse).value in Normalised(items, parse)
    decreases |items|
  {
    if items != [] {
      var init := items[..|items| - 1];
      NormalisedLast(items, parse);
      NormalisedKeepsConverted(init, parse);
      forall i | 0 <= i < |items| && ConvertItem(items[i], parse).Some?
        ensures ConvertItem(items[i], parse).value in Normalised(items, parse)
      {
        if i < |init| {
          assert items[i] == init[i];
          assert ConvertItem(init[i], parse).value in Normalised(init, parse);
        }
      }
    }
  }

  /** Every collected record comes from some item that converts to it. */
  lemma {:induction false} NormalisedFromItems(items: seq<Item>, parse: FloatParser)
    ensures forall x :: x in Normalised(items, parse) ==>
              exists i :: 0 <= i < |items| && ConvertItem(items[i], parse) == Some(x)
    decreases |items|
  {
    if items != [] {
      var init := items[..|items| - 1];
      NormalisedLast(items, parse);
      NormalisedFromItems(init, parse);
      forall x | x in Normalised(items, parse)
        ensures exists i :: 0 <= i < |items| && ConvertItem(items[i], parse) == Some(x)
      {
        if x in Normalised(init, parse) {
          var i :| 0 <= i < |init| && ConvertItem(init[i], parse) == Some(x);
          assert items[i] == init[i];
        } else {
          assert ConvertItem(items[|items| - 1], parse) == Some(x);
        }
      }
    }
  }

  /** The `for item in items` loop: convert each item and append its record;
      an item whose conversion raises is skipped and the loop goes on. */
  method NormaliseItems(items: seq<Item>, parse: FloatParser) returns (data: seq<Record>)
    ensures data == Normalised(items, parse)
  {
    data := [];
    for i := 0 to |items|
      invariant data == Normalised(items[..i], parse)
    {
      assert items[..i + 1][..i] == items[..i];
      var converted := ConvertItem(items[i], parse);
      if converted.None? {
        continue;
      }
      data := data + [converted.value];
    }
    assert items[..|items|] == items;
  }

  // ------------------------------------------------------------------
  // The fetch
  // ------------------------------------------------------------------

  /** A record is a real location unless both coordinates are 0. */
  predicate Located(record: Record) {
    record.lat != 0.0 || record.lon != 0.0
  }

  /** The `(위도 != 0) | (경도 != 0)` mask over the table. */
  function DropZeroZero(records: seq<Record>): (r: seq<Record>)
    ensures multiset(r) <= multiset(records)
    ensures forall x :: x in r <==> x in records && Located(x)
    ensures forall x :: Located(x) ==> multiset(r)[x] == multiset(records)[x]
  {
    if records == [] then []
    else
      assert records == [records[0]] + records[1..];
      (if Located(records[0]) then [records[0]] else []) + DropZeroZero(records[1..])
  }

  /** An illustration of the mask on one record: a record at (0, 0) is
      dropped; one with a single zero coordinate is kept. */
  lemma DropZeroZeroKeepsSingleZero(record: Record)
    ensures DropZeroZero([record]) == (if record.lat == 0.0 && record.lon == 0.0 then [] else [record])
  {
    assert [record][1..] == [];
  }

  /** What the API call produced: a network or HTTP failure, text that is not
      XML, or a document with an optional `header` and optional `body/items`. */
  datatype Response =
    | RequestFailed
    | MalformedXml
    | Document(header: Option<Item>, items: Option<seq<Item>>)

  /** The response passes every gate: it is XML, it has a header whose
      `resultCode` (read as "N/A" when absent) is "00", and it has
      `body/items`. A missing header fails when its `resultCode` is read. */
  predicate Accepted(response: Response) {
    && response.Document?
    && response.header.Some?
    && FindText(response.header.value, "resultCode", "N/A") == "00"
    && response.items.Some?
  }

  /** The table the fetch returns. */
  function Fetched(response: Response, parse: FloatParser): (r: seq<Record>)
    ensures !Accepted(response) ==> r == []
    ensures forall x :: x in r ==> Located(x)
    ensures Accepted(response) ==> forall x :: x in r <==>
              x in Normalised(response.items.value, parse) && Located(x)
  {
    if Accepted(response) then DropZeroZero(Normalised(response.items.value, parse)) else []
  }

  /** Every located record of a converting item reaches the fetched table,
      and every fetched record comes from such an item. */
  lemma FetchedRecords(items: seq<Item>, header: Item, parse: FloatParser, x: Record)
    requires FindText(header, "resultCode", "N/A") == "00"
    ensures x in Fetched(Document(Some(header), Some(items)), parse) <==>
              Located(x) && exists i :: 0 <= i < |items| && ConvertItem(items[i], parse) == Some(x)
  {
    NormalisedKeepsConverted(items, parse);
    NormalisedFromItems(items, parse);
  }

  /** `fetch_ev_data_from_api` once the response is in hand: the gates, the
      ingestion loop and the zero-zero drop. */
  method FetchEvData(response: Response, parse: FloatParser) returns (table: seq<Record>)
    ensures table == Fetched(response, parse)
  {
    if !response.Document? || response.header.None? {
      return [];
    }
    var resultCode := FindText(response.header.value, "resultCode", "N/A");
    if resultCode != "00" {
      return [];
    }
    if response.items.None? {
      return [];
    }
    var data := NormaliseItems(response.items.value, parse);
    table := DropZeroZero(data);
  }

  // ------------------------------------------------------------------
  // The radius search
  // ------------------------------------------------------------------

  /** The `거리_km` of a record: its distance to the user (`lat`, `lon`).
      Each app has its own record type with its own coordinate fields, so each
      names its own distance column. */
  function DistanceTo(hav: Distance, lat: real, lon: real): Record -> real {
    (s: Record) => hav(s.lon, s.lat, lon, lat)
  }


  /** The `거리_km <= radius` mask. */
  function WithinRadius(hits: seq<Hit<Record>>, radius: real): (r: seq<Hit<Record>>)
    ensures multiset(r) <= multiset(hits)
    ensures forall h :: h in r ==> h in hits && h.km <= radius
    ensures forall h :: h in hits && h.km <= radius ==> multiset(r)[h] == multiset(hits)[h]
  {
    if hits == [] then []
    else
      assert hits == [hits[0]] + hits[1..];
      (if hits[0].km <= radius then [hits[0]] else []) + WithinRadius(hits[1..], radius)
  }

  /** The search button: distances on a copy of the table, the records within
      the radius, sorted by distance. */
  function NearbySearch(records: seq<Record>, lat: real, lon: real, radius: real,
                        hav: Distance): (r: seq<Hit<Record>>)
    ensures SortedByKm(r)
    ensures forall h :: h in r ==>
              h.km <= radius && h.km == hav(h.station.lon, h.station.lat, lon, lat)
    ensures forall s :: s in records && hav(s.lon, s.lat, lon, lat) <= radius
              ==> Hit(s, hav(s.lon, s.lat, lon, lat)) in r
    ensures multiset(r) == multiset(WithinRadius(Annotate(records, DistanceTo(hav, lat, lon)), radius))
  {
    var kept := WithinRadius(Annotate(records, DistanceTo(hav, lat, lon)), radius);
    var r := SortByKm(kept);
    PermutationMembers(r, kept);
    r
  }

  /** The search neither adds nor duplicates a record of the table. */
  lemma NearbySearchKeepsRecords(records: seq<Record>, lat: real, lon: real, radius: real,
                                 hav: Distance)
    ensures multiset(Stations(NearbySearch(records, lat, lon, radius, hav))) <= multiset(records)
  {
    var annotated := Annotate(records, DistanceTo(hav, lat, lon));
    var kept := WithinRadius(annotated, radius);
    StationsOfPermutation(NearbySearch(records, lat, lon, radius, hav), kept);
    StationsOfSubMultiset(kept, annotated);
  }

  /** A larger radius around the same centre never yields fewer rows. */
  lemma NearbySearchMonotoneInRadius(records: seq<Record>, lat: real, lon: real,
                                     small: real, large: real, hav: Distance)
    requires small <= large
    ensures multiset(NearbySearch(records, lat, lon, small, hav))
            <= multiset(NearbySearch(records, lat, lon, large, hav))
    ensures |NearbySearch(records, lat, lon, small, hav)| <= |NearbySearch(records, lat, lon, large, hav)|
  {
    var annotated := Annotate(records, DistanceTo(hav, lat, lon));
    var narrow, wide := WithinRadius(annotated, small), WithinRadius(annotated, large);
    assert forall h: Hit<Record> :: multiset(narrow)[h] <= multiset(wide)[h] by {
      forall h: Hit<Record> ensures multiset(narrow)[h] <= multiset(wide)[h] {
        if h.km <= small {
          assert h.km <= large;
        }
      }
    }
    assert multiset(narrow) <= multiset(wide);
    assert |multiset(narrow)| <= |multiset(wide)| by {
      SubMultisetSize(multiset(narrow), multiset(wide));
    }
  }

  lemma SubMultisetSize<T>(a: multiset<T>, b: multiset<T>)
    requires a <= b
    ensures |a| <= |b|
  {
    assert b == a + (b - a);
  }
}
