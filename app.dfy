/** The spreadsheet search screen: loading the station workbook, the "select
    all" expansion of the sidebar filters, the filtered radius search and the
    marker colour rule. */
module App {
  import opened Wrappers
  import opened Proximity

  /** A workbook cell: empty (pandas' NaN), text, or a number. */
  datatype Cell = Missing | Text(text: string) | Number(value: real)

  /** The workbook frame the loader projects (after any `위도경도` column has
      been split into `위도` and `경도`): its column names and its rows keyed
      by column name. */
  datatype Sheet = Sheet(columns: set<string>, rows: seq<map<string, Cell>>)

  // Workbook columns that the loader keeps.
  const NameColumn := "충전소명"
  const AddressColumn := "주소"
  const LatColumn := "위도"
  const LonColumn := "경도"
  const ConnectorColumn := "충전기타입"
  const OperatorColumn := "운영기관(대)"
  const AccessColumn := "이용자제한"
  const PlaceColumn := "시설구분(소)"
  const SpeedColumn := "충전속도"

  /** The projection of the loader, in its order. */
  const KeptColumns: seq<string> :=
    [NameColumn, AddressColumn, LatColumn, LonColumn, ConnectorColumn,
     OperatorColumn, AccessColumn, PlaceColumn, SpeedColumn]

  /** The renaming of the loader. */
  const Renames: map<string, string> :=
    map[OperatorColumn := "운영기관", AccessColumn := "이용가능여부", PlaceColumn := "장소유형"]

  /** The column names of the loaded frame. */
  const LoadedColumns: seq<string> :=
    [NameColumn, AddressColumn, LatColumn, LonColumn, ConnectorColumn,
     "운영기관", "이용가능여부", "장소유형", SpeedColumn]

  function Renamed(column: string): string {
    if column in Renames then Renames[column] else column
  }

  /** A workbook row after projection and renaming, before rows with a blank
      coordinate are dropped. */
  datatype Projected = Projected(
    name: Cell, address: Cell, lat: Cell, lon: Cell, connector: Cell,
    operator: Cell, access: Cell, placeType: Cell, speed: Cell)
  {
    /** The cell under a column name of the projected frame; None for a name
        the frame does not have. */
    function Column(column: string): Option<Cell> {
      if column == NameColumn then Some(name)
      else if column == AddressColumn then Some(address)
      else if column == LatColumn then Some(lat)
      else if column == LonColumn then Some(lon)
      else if column == ConnectorColumn then Some(connector)
      else if column == "운영기관" then Some(operator)
      else if column == "이용가능여부" then Some(access)
      else if column == "장소유형" then Some(placeType)
      else if column == SpeedColumn then Some(speed)
      else None
    }

    /** The row survives `dropna` on the two coordinate columns. */
    predicate HasCoordinates() {
      lat != Missing && lon != Missing
    }
  }

  /** One station of the loaded frame: the nine kept columns, both coordinates
      present. */
  datatype Station = Station(
    name: Cell, address: Cell, lat: real, lon: real, connector: Cell,
    operator: Cell, access: Cell, placeType: Cell, speed: Cell)
  {
    function Get(field: Field): Cell {
      match field
      case Connector => connector
      case Operator => operator
      case PlaceType => placeType
      case Access => access
      case Speed => speed
    }
  }

  // ------------------------------------------------------------------
  // Loading the workbook
  // ------------------------------------------------------------------

  /** Every row holds exactly the sheet's columns, as in any data frame. */
  predicate Rectangular(sheet: Sheet) {
    forall row :: row in sheet.rows ==> row.Keys == sheet.columns
  }

  /** The coordinate columns hold numbers or blanks, never text. */
  predicate NumericCoordinates(sheet: Sheet) {
    forall row: map<string, Cell> :: row in sheet.rows ==>
      (LatColumn in row ==> !row[LatColumn].Text?) &&
      (LonColumn in row ==> !row[LonColumn].Text?)
  }

  predicate HasKeptColumns(row: map<string, Cell>) {
    && NameColumn in row && AddressColumn in row && LatColumn in row && LonColumn in row
    && ConnectorColumn in row && OperatorColumn in row && AccessColumn in row
    && PlaceColumn in row && SpeedColumn in row
  }

  /** One row projected onto the kept columns and renamed. */
  function Project(row: map<string, Cell>): Projected
    requires HasKeptColumns(row)
  {
    Projected(row[NameColumn], row[AddressColumn], row[LatColumn], row[LonColumn],
              row[ConnectorColumn], row[OperatorColumn], row[AccessColumn],
              row[PlaceColumn], row[SpeedColumn])
  }

  /** The renaming maps the kept columns, position by position, onto the
      loaded frame's columns: `운영기관(대)` becomes `운영기관`, `이용자제한`
      becomes `이용가능여부`, `시설구분(소)` becomes `장소유형`, the other six
      keep their names. */
  lemma RenamingMatchesLoadedColumns()
    ensures |KeptColumns| == |LoadedColumns|
    ensures forall i :: 0 <= i < |KeptColumns| ==> Renamed(KeptColumns[i]) == LoadedColumns[i]
  {
    forall i | 0 <= i < |KeptColumns| ensures Renamed(KeptColumns[i]) == LoadedColumns[i] {
      if i == 5 {
        assert KeptColumns[i] == OperatorColumn;
      } else if i == 6 {
        assert KeptColumns[i] == AccessColumn;
      } else if i == 7 {
        assert KeptColumns[i] == PlaceColumn;
      } else {
        assert KeptColumns[i] !in Renames;
      }
    }
  }

  /** Projection carries every kept column over under its new name, and no
      other column. */
  lemma ProjectRenames(row: map<string, Cell>)
    requires HasKeptColumns(row)
    ensures forall i :: 0 <= i < |KeptColumns| ==>
              Project(row).Column(Renamed(KeptColumns[i])) == Some(row[KeptColumns[i]])
    ensures forall c :: c !in LoadedColumns ==> Project(row).Column(c) == None
  {
    RenamingMatchesLoadedColumns();
  }

  function ProjectAll(rows: seq<map<string, Cell>>): (r: seq<Projected>)
    requires forall row :: row in rows ==> HasKeptColumns(row)
    ensures |r| == |rows|
    ensures forall i :: 0 <= i < |rows| ==> r[i] == Project(rows[i])
  {
    if rows == [] then [] else [Project(rows[0])] + ProjectAll(rows[1..])
  }

  /** A projected row with both coordinates, as a station. */
  function Locate(p: Projected): Station
    requires NoTextCoordinates(p) && p.HasCoordinates()
  {
    Station(p.name, p.address, p.lat.value, p.lon.value, p.connector,
            p.operator, p.access, p.placeType, p.speed)
  }

  predicate NoTextCoordinates(p: Projected) {
    !p.lat.Text? && !p.lon.Text?
  }

  /** `dropna` on the coordinate columns: the rows with both coordinates, in
      frame order. */
  function DropMissingCoordinates(rows: seq<Projected>): (r: seq<Station>)
    requires forall p :: p in rows ==> NoTextCoordinates(p)
    ensures |r| <= |rows|
  {
    if rows == [] then []
    else
      (if rows[0].HasCoordinates() then [Locate(rows[0])] else [])
      + DropMissingCoordinates(rows[1..])
  }

  /** Every row with both coordinates yields its station, and every station
      comes from such a row. */
  lemma {:induction false} DropMissingCoordinatesMembers(rows: seq<Projected>)
    requires forall p :: p in rows ==> NoTextCoordinates(p)
    ensures forall p :: p in rows && p.HasCoordinates() ==> Locate(p) in DropMissingCoordinates(rows)
    ensures forall s :: s in DropMissingCoordinates(rows) ==>
              exists p :: p in rows && p.HasCoordinates() && Locate(p) == s
  {
    if rows != [] {
      var rest := rows[1..];
      var head := if rows[0].HasCoordinates() then [Locate(rows[0])] else [];
      assert DropMissingCoordinates(rows) == head + DropMissingCoordinates(rest);
      DropMissingCoordinatesMembers(rest);
      forall p | p in rows && p.HasCoordinates() ensures Locate(p) in DropMissingCoordinates(rows) {
        if p != rows[0] {
          assert p in rest;
        }
      }
      forall s | s in DropMissingCoordinates(rows)
        ensures exists p :: p in rows && p.HasCoordinates() && Locate(p) == s
      {
        if s in head {
          assert rows[0] in rows;
        } else {
          var p :| p in rest && p.HasCoordinates() && Locate(p) == s;
          assert p in rows;
        }
      }
    }
  }

  /** A row is dropped exactly when a coordinate is blank; the others keep
      their order. */
  lemma {:induction false} DropMissingCoordinatesAppend(rows: seq<Projected>, p: Projected)
    requires forall x :: x in rows ==> NoTextCoordinates(x)
    requires NoTextCoordinates(p)
    ensures DropMissingCoordinates(rows + [p]) ==
            DropMissingCoordinates(rows) + (if p.HasCoordinates() then [Locate(p)] else [])
  {
    var last := if p.HasCoordinates() then [Locate(p)] else [];
    if rows == [] {
      assert rows + [p] == [p];
      assert DropMissingCoordinates([p]) == last + DropMissingCoordinates([]);
    } else {
      var first := if rows[0].HasCoordinates() then [Locate(rows[0])] else [];
      var rest := rows[1..];
      assert (rows + [p])[0] == rows[0];
      assert (rows + [p])[1..] == rest + [p];
      DropMissingCoordinatesAppend(rest, p);
      calc {
        DropMissingCoordinates(rows + [p]);
        first + DropMissingCoordinates(rest + [p]);
        first + (DropMissingCoordinates(rest) + last);
        (first + DropMissingCoordinates(rest)) + last;
        DropMissingCoordinates(rows) + last;
      }
    }
  }

  /** The wanted columns the sheet lacks, in the wanted order. */
  function AbsentColumns(columns: set<string>, wanted: seq<string>): (r: seq<string>)
    ensures forall c :: c in r <==> c in wanted && c !in columns
  {
    if wanted == [] then []
    else (if wanted[0] in columns then [] else [wanted[0]]) + AbsentColumns(columns, wanted[1..])
  }

  /** `load_data`: project the nine columns (a KeyError naming the absent ones
      when the sheet lacks any), rename three of them, and drop the rows with
      a blank coordinate. */
  function LoadData(sheet: Sheet): (r: Result<seq<Station>, seq<string>>)
    requires Rectangular(sheet) && NumericCoordinates(sheet)
    ensures r.Failure? <==> exists c :: c in KeptColumns && c !in sheet.columns
    ensures r.Failure? ==> forall c :: c in r.error <==> c in KeptColumns && c !in sheet.columns
    ensures r.Success? ==> r.value == DropMissingCoordinates(ProjectAll(sheet.rows))
  {
    var absent := AbsentColumns(sheet.columns, KeptColumns);
    if absent != [] then
      assert absent[0] in absent;
      Failure(absent)
    else
      assert forall row :: row in sheet.rows ==> HasKeptColumns(row);
      var projected := ProjectAll(sheet.rows);
      assert forall p :: p in projected ==> NoTextCoordinates(p);
      Success(DropMissingCoordinates(projected))
  }

  // ------------------------------------------------------------------
  // Sidebar filters and the "select all" option
  // ------------------------------------------------------------------

  /** The five categorical columns the sidebar filters on. */
  datatype Field = Connector | Operator | PlaceType | Access | Speed

  /** The "select all" option offered first in every sidebar multiselect. */
  const SelectAll := Text("전체")

  /** The values of one categorical column, in frame order. */
  function Values(stations: seq<Station>, field: Field): (r: seq<Cell>)
    ensures |r| == |stations|
    ensures forall i :: 0 <= i < |stations| ==> r[i] == stations[i].Get(field)
  {
    if stations == [] then [] else [stations[0].Get(field)] + Values(stations[1..], field)
  }

  /** `dropna().unique()`: the non-blank values of a column, each once, in
      order of first appearance. */
  function Distinct(cells: seq<Cell>): (r: seq<Cell>)
    ensures forall c :: c in r <==> c in cells && c != Missing
    ensures forall i, j :: 0 <= i < j < |r| ==> r[i] != r[j]
  {
    if cells == [] then []
    else
      var rest := Distinct(cells[..|cells| - 1]);
      var last := cells[|cells| - 1];
      assert cells == cells[..|cells| - 1] + [last];
      if last == Missing || last in rest then rest else rest + [last]
  }

  /** A multiselect choice after expansion: choosing "select all" replaces the
      whole choice with the column's distinct non-blank values. */
  function Expand(chosen: seq<Cell>, column: seq<Cell>): (r: seq<Cell>)
    ensures SelectAll in chosen ==> forall c :: c in r <==> c in column && c != Missing
    ensures SelectAll !in chosen ==> r == chosen
  {
    if SelectAll in chosen then Distinct(column) else chosen
  }

  /** The accepted values per categorical column. */
  datatype Filters = Filters(
    connectors: seq<Cell>, operators: seq<Cell>, places: seq<Cell>,
    access: seq<Cell>, speeds: seq<Cell>)
  {
    function Accepted(field: Field): seq<Cell> {
      match field
      case Connector => connectors
      case Operator => operators
      case PlaceType => places
      case Access => access
      case Speed => speeds
    }
  }

  /** The sidebar: each of the five choices expanded against its column of the
      loaded frame. */
  function SidebarFilters(chosen: Filters, stations: seq<Station>): Filters {
    Filters(
      Expand(chosen.connectors, Values(stations, Connector)),
      Expand(chosen.operators, Values(stations, Operator)),
      Expand(chosen.places, Values(stations, PlaceType)),
      Expand(chosen.access, Values(stations, Access)),
      Expand(chosen.speeds, Values(stations, Speed)))
  }

  /** The five `isin` tests of the search mask, conjoined. */
  predicate Admits(filters: Filters, s: Station) {
    && s.operator in filters.operators
    && s.placeType in filters.places
    && s.access in filters.access
    && s.connector in filters.connectors
    && s.speed in filters.speeds
  }

  /** With "select all" chosen for a column, a loaded station passes that
      column's test exactly when its value there is not blank. */
  lemma SelectAllAdmitsExactlyPresentValues(
    stations: seq<Station>, chosen: Filters, field: Field, s: Station)
    requires s in stations
    requires SelectAll in chosen.Accepted(field)
    ensures s.Get(field) in SidebarFilters(chosen, stations).Accepted(field)
            <==> s.Get(field) != Missing
  {
    var i :| 0 <= i < |stations| && stations[i] == s;
    assert Values(stations, field)[i] == s.Get(field);
  }

  /** The initial sidebar, every multiselect left at "select all". */
  const AllSelected := Filters([SelectAll], [SelectAll], [SelectAll], [SelectAll], [SelectAll])

  /** With every multiselect at "select all", a loaded station passes the
      categorical tests exactly when none of its five categorical values is
      blank. */
  lemma DefaultFiltersAdmitCompleteRecords(stations: seq<Station>, s: Station)
    requires s in stations
    ensures Admits(SidebarFilters(AllSelected, stations), s)
            <==> forall field :: s.Get(field) != Missing
  {
    SelectAllAdmitsExactlyPresentValues(stations, AllSelected, Connector, s);
    SelectAllAdmitsExactlyPresentValues(stations, AllSelected, Operator, s);
    SelectAllAdmitsExactlyPresentValues(stations, AllSelected, PlaceType, s);
    SelectAllAdmitsExactlyPresentValues(stations, AllSelected, Access, s);
    SelectAllAdmitsExactlyPresentValues(stations, AllSelected, Speed, s);
    assert (forall field :: s.Get(field) != Missing) <==>
      (s.connector != Missing && s.operator != Missing && s.placeType != Missing &&
       s.access != Missing && s.speed != Missing);
  }

  // ------------------------------------------------------------------
  // The search
  // ------------------------------------------------------------------

  /** The `거리_km` of a station: its distance to the centre (`lat`, `lon`).
      Each app has its own record type with its own coordinate fields, so each
      names its own distance column. */
  function DistanceTo(hav: Distance, lat: real, lon: real): Station -> real {
    (s: Station) => hav(s.lon, s.lat, lon, lat)
  }


  /** The search mask: every categorical test and the inclusive radius bound. */
  predicate Keep(filters: Filters, radius: real, h: Hit<Station>) {
    Admits(filters, h.station) && h.km <= radius
  }

  /** Boolean masking: keeps each row the mask admits as often as it occurs,
      and no other row. */
  function Mask(hits: seq<Hit<Station>>, filters: Filters, radius: real): (r: seq<Hit<Station>>)
    ensures multiset(r) <= multiset(hits)
    ensures forall h :: h in r ==> h in hits && Keep(filters, radius, h)
    ensures forall h :: h in hits && Keep(filters, radius, h) ==> multiset(r)[h] == multiset(hits)[h]
  {
    if hits == [] then []
    else
      assert hits == [hits[0]] + hits[1..];
      (if Keep(filters, radius, hits[0]) then [hits[0]] else []) + Mask(hits[1..], filters, radius)
  }

  /** The search button: attach distances to a copy of the loaded frame, keep
      the rows that pass all five filters and lie within the radius, and sort
      them by distance. */
  function Search(stations: seq<Station>, filters: Filters, lat: real, lon: real,
                  radius: real, hav: Distance): (r: seq<Hit<Station>>)
    ensures SortedByKm(r)
    ensures forall h :: h in r ==>
              && h.km <= radius
              && Admits(filters, h.station)
              && h.km == hav(h.station.lon, h.station.lat, lon, lat)
    ensures forall s :: s in stations && Admits(filters, s) && hav(s.lon, s.lat, lon, lat) <= radius
              ==> Hit(s, hav(s.lon, s.lat, lon, lat)) in r
    ensures multiset(r) == multiset(Mask(Annotate(stations, DistanceTo(hav, lat, lon)), filters, radius))
  {
    var kept := Mask(Annotate(stations, DistanceTo(hav, lat, lon)), filters, radius);
    var r := SortByKm(kept);
    PermutationMembers(r, kept);
    MaskKeepsMatches(stations, filters, lat, lon, radius, hav);
    MaskFindsMatches(stations, filters, lat, lon, radius, hav);
    r
  }

  /** Soundness of the mask over the annotated copy. */
  lemma MaskKeepsMatches(stations: seq<Station>, filters: Filters, lat: real, lon: real,
                         radius: real, hav: Distance)
    ensures forall h :: h in Mask(Annotate(stations, DistanceTo(hav, lat, lon)), filters, radius) ==>
              && h.km <= radius
              && Admits(filters, h.station)
              && h.km == hav(h.station.lon, h.station.lat, lon, lat)
  {
  }

  /** Completeness of the mask over the annotated copy. */
  lemma MaskFindsMatches(stations: seq<Station>, filters: Filters, lat: real, lon: real,
                         radius: real, hav: Distance)
    ensures forall s :: s in stations && Admits(filters, s) && hav(s.lon, s.lat, lon, lat) <= radius
              ==> Hit(s, hav(s.lon, s.lat, lon, lat)) in Mask(Annotate(stations, DistanceTo(hav, lat, lon)), filters, radius)
  {
    var annotated := Annotate(stations, DistanceTo(hav, lat, lon));
    var kept := Mask(annotated, filters, radius);
    forall s | s in stations && Admits(filters, s) && hav(s.lon, s.lat, lon, lat) <= radius
      ensures Hit(s, hav(s.lon, s.lat, lon, lat)) in kept
    {
      var h := Hit(s, DistanceTo(hav, lat, lon)(s));
      assert h.km == hav(s.lon, s.lat, lon, lat);
      assert h in annotated;
      assert Keep(filters, radius, h);
      assert h in multiset(annotated);
      assert multiset(kept)[h] == multiset(annotated)[h];
    }
  }

  /** The result is a sub-multiset of the loaded frame: the search never adds
      or duplicates a station. */
  lemma SearchKeepsRecords(stations: seq<Station>, filters: Filters, lat: real, lon: real,
                           radius: real, hav: Distance)
    ensures multiset(Stations(Search(stations, filters, lat, lon, radius, hav))) <= multiset(stations)
  {
    var annotated := Annotate(stations, DistanceTo(hav, lat, lon));
    var kept := Mask(annotated, filters, radius);
    StationsOfPermutation(Search(stations, filters, lat, lon, radius, hav), kept);
    StationsOfSubMultiset(kept, annotated);
  }

  /** A larger radius, with the same filters and centre, never drops a row. */
  lemma SearchMonotoneInRadius(stations: seq<Station>, filters: Filters, lat: real, lon: real,
                               small: real, large: real, hav: Distance)
    requires small <= large
    ensures multiset(Search(stations, filters, lat, lon, small, hav))
            <= multiset(Search(stations, filters, lat, lon, large, hav))
  {
    var annotated := Annotate(stations, DistanceTo(hav, lat, lon));
    var narrow, wide := Mask(annotated, filters, small), Mask(annotated, filters, large);
    assert forall h :: multiset(narrow)[h] <= multiset(wide)[h] by {
      forall h ensures multiset(narrow)[h] <= multiset(wide)[h] {
        if Keep(filters, small, h) {
          assert Keep(filters, large, h);
        }
      }
    }
  }

  /** Two searches with the same inputs give rows at the same distances in the
      same order, whatever order the sort picks among equal distances. */
  lemma SearchDistancesDetermined(stations: seq<Station>, filters: Filters, lat: real, lon: real,
                                  radius: real, hav: Distance, other: seq<Hit<Station>>)
    requires SortedByKm(other)
    requires multiset(other) == multiset(Mask(Annotate(stations, DistanceTo(hav, lat, lon)), filters, radius))
    ensures |other| == |Search(stations, filters, lat, lon, radius, hav)|
    ensures forall i :: 0 <= i < |other| ==> other[i].km == Search(stations, filters, lat, lon, radius, hav)[i].km
  {
    SortedPermutationsShareDistances(other, Search(stations, filters, lat, lon, radius, hav));
  }

  // ------------------------------------------------------------------
  // Map markers
  // ------------------------------------------------------------------

  datatype Colour = Green | Orange | Red

  /** The marker colour of a result row, from its availability value. */
  function MarkerColour(access: Cell): (c: Colour)
    ensures c == Green <==> access == Text("이용가능")
    ensures c == Orange <==> access == Text("이용자제한")
    ensures c == Red <==> access != Text("이용가능") && access != Text("이용자제한")
  {
    if access == Text("이용가능") then Green
    else if access == Text("이용자제한") then Orange
    else Red
  }
}
