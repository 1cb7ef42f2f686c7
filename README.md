# EV charger locator: a verified model of the station search

The repository holds two small Streamlit apps. Both find electric-vehicle charging stations
around a position.

- `app.py` loads a workbook of stations and offers five categorical sidebar filters. Each filter
  has a "select all" option (`전체`). The search keeps the stations that pass every filter and lie
  within a radius, then sorts them by distance. Each result's map marker is coloured by its
  access value.
- `ev_charger_locator.py` fetches the stations from the KEPCO open API. It gates on the
  response header, turns each `<item>` into a record with per-field defaults, drops records at
  (0, 0), and runs a plain radius search.

The model has four modules.

- `Wrappers` (`wrappers.dfy`): `Option` and `Result`.
- `Proximity` (`proximity.dfy`): the shared vocabulary of both searches.
  - A distance-annotated row `Hit`.
  - The distance function as an abstract parameter `Distance`.
  - Sorting by distance: an insertion sort whose result is proved sorted and a permutation.
  - Lemmas that carry permutations and sub-multisets from rows to their records.
  - A lemma that any two sorted permutations of the same rows have the same distance column,
    so the non-stable sort's tie order does not change the sequence of distances.
- `App` (`app.dfy`): everything in `app.py` listed above.
  - Workbook loading is modelled on a sheet of cells (`Missing`, `Text`, `Number`).
  - A sheet that lacks a kept column fails with the absent column names.
  - The "select all" expansion.
  - The filtered radius search.
  - The marker colour rule.
- `EvChargerLocator` (`ev_charger_locator.dfy`): the API path.
  - Item conversion. `float()` is an abstract partial parser.
  - The ingestion loop, as a method proved equal to a reference function.
  - The result-code and `body/items` gates, and the zero-zero drop.
  - The radius search on a copy of the table.

Points about the code worth knowing:

- The haversine has no clamp on its intermediate value.
- `sort_values` is pandas' default non-stable sort, so only sortedness and permutation are stated.
- A negative radius is not rejected; the bound is applied as given.
- Stations are not de-duplicated.

## Model

| member | source | states |
|---|---|---|
| Proximity.Insert | app.py:117 | inserting a row into a distance-sorted frame keeps it sorted and adds exactly that row |
| Proximity.SortByKm | app.py:117 | `sort_values("거리_km")` yields rows in non-decreasing distance that are a permutation of its input |
| Proximity.SortedPermutationsShareDistances | ev_charger_locator.py:219 | any two distance-sorted orderings of the same rows have equal length and the same distance at every position, whatever the tie order |
| Proximity.StationsOfSubMultiset | app.py:110-117 | rows drawn from a frame without repetition carry records drawn from the frame's records without repetition |
| App.RenamingMatchesLoadedColumns | app.py:25-29 | the renaming maps the nine kept columns position by position onto the loaded frame's names: 운영기관(대)→운영기관, 이용자제한→이용가능여부, 시설구분(소)→장소유형, the rest unchanged |
| App.ProjectAll | app.py:20-29 | every row of the sheet is projected in place, keeping the frame's length and order; what a projected row holds is stated by App.ProjectRenames |
| App.ProjectRenames | app.py:20-29 | a projected row holds every kept column's value under its renamed name and no other column |
| App.AbsentColumns | app.py:21-24 | the kept columns the sheet lacks are exactly those listed |
| App.DropMissingCoordinates | app.py:30 | `dropna` never lengthens the frame; which rows survive is stated by App.DropMissingCoordinatesMembers and App.DropMissingCoordinatesAppend |
| App.DropMissingCoordinatesMembers | app.py:30 | a row is kept exactly when both coordinates are present; every kept station comes from such a row |
| App.DropMissingCoordinatesAppend | app.py:30 | the drop goes row by row in frame order: an appended row adds its station exactly when both coordinates are present |
| App.LoadData | app.py:16-32 | loading fails exactly when a kept column is absent, naming exactly the absent ones; otherwise it gives the projected, renamed rows with both coordinates |
| App.Distinct | app.py:61 | `dropna().unique()` holds each non-blank value of the column once and nothing else |
| App.Expand | app.py:59-61 | a choice containing "전체" becomes the column's non-blank values; any other choice is kept as is |
| App.SidebarFilters | app.py:59-77 | each of the five choices expanded against its own column of the loaded frame (no contract of its own); its meaning is stated by App.SelectAllAdmitsExactlyPresentValues and App.DefaultFiltersAdmitCompleteRecords |
| App.Admits | app.py:110-115 | the five `isin` tests conjoined (no contract of its own); its use in the mask is stated by App.Mask, App.MaskKeepsMatches and App.MaskFindsMatches |
| App.SelectAllAdmitsExactlyPresentValues | app.py:59-77 | after the "전체" expansion a loaded station passes that column's `isin` test exactly when its value there is not blank |
| App.DefaultFiltersAdmitCompleteRecords | app.py:110-115 | with every filter left at "전체", a station passes the categorical tests exactly when none of its five categorical values is blank |
| Proximity.Annotate | app.py:108-109 | the copy holds the frame's records unchanged and in order, each next to its own distance (`df_raw.copy()` plus the `거리_km` column; the API app does the same at ev_charger_locator.py:209-216) |
| App.Mask | app.py:110-116 | the mask keeps a row exactly when it passes all five `isin` tests and `거리_km <= radius_km`, as often as it occurs, and adds nothing |
| App.MaskKeepsMatches | app.py:109-116 | every row the mask keeps lies within the radius, passes all five filters and carries its station's own distance |
| App.MaskFindsMatches | app.py:109-116 | every loaded station that passes all five filters and lies within the radius is kept by the mask |
| App.Search | app.py:107-117 | every result lies within the radius (inclusive), passes all five filters and carries its own distance; every such station is found; the result is sorted and is a permutation of the masked rows |
| App.SearchKeepsRecords | app.py:108-117 | the result's stations are a sub-multiset of the loaded frame: the search neither adds nor duplicates a station |
| App.SearchMonotoneInRadius | app.py:116 | with the same filters and centre, a larger radius keeps every row of a smaller one |
| App.SearchDistancesDetermined | app.py:117 | any sorted ordering of the masked rows has the result's length and the result's distance at every position |
| App.MarkerColour | app.py:136 | green exactly for "이용가능", orange exactly for "이용자제한", red for every other value, blank included |
| EvChargerLocator.ConvertItem | ev_charger_locator.py:76-86 | one item to one record, or nothing where `float()` raises (no contract of its own); its fields and failure condition are stated by EvChargerLocator.ConvertItemFields |
| EvChargerLocator.ConvertItemFields | ev_charger_locator.py:74-90 | an item fails only when a present, non-empty coordinate text does not parse; an absent or empty `lat`/`longi` reads as 0; absent `csNm`/`addr` become "" and absent `useTime`/`busiNm`/`cpTp`/`cpStat` become "정보없음" |
| EvChargerLocator.Normalised | ev_charger_locator.py:72-90 | the ingestion loop's result collects at most one record per item; order and membership are stated by EvChargerLocator.NormalisedAppend, EvChargerLocator.NormalisedKeepsConverted and EvChargerLocator.NormalisedFromItems, and the loop is proved equal to it by EvChargerLocator.NormaliseItems |
| EvChargerLocator.NormalisedAppend | ev_charger_locator.py:72-90 | the collected records of two runs of items are the two runs' records in order: a failing item is skipped without disturbing the rest |
| EvChargerLocator.NormalisedKeepsConverted | ev_charger_locator.py:73-86 | every item that converts has its record collected |
| EvChargerLocator.NormalisedFromItems | ev_charger_locator.py:73-86 | every collected record comes from some item that converts to it |
| EvChargerLocator.NormaliseItems | ev_charger_locator.py:72-90 | the append-in-a-loop with `continue` on failure collects exactly the specified records |
| EvChargerLocator.DropZeroZero | ev_charger_locator.py:94 | a record is kept, as often as it occurs, exactly when a coordinate is non-zero; nothing is added |
| EvChargerLocator.DropZeroZeroKeepsSingleZero | ev_charger_locator.py:94 | a record at (0, 0) is dropped; one with a single zero coordinate is kept |
| EvChargerLocator.Accepted | ev_charger_locator.py:54-70 | the response gates (no contract of its own): XML with a header whose `resultCode` is "00" and with `body/items`; what a rejected response yields is stated by EvChargerLocator.Fetched |
| EvChargerLocator.Fetched | ev_charger_locator.py:53-70 | a network failure, unparsable XML, a missing header, a `resultCode` other than "00" (read as "N/A" when absent) or a missing `body/items` gives an empty table; otherwise the table is exactly the located collected records |
| EvChargerLocator.FetchedRecords | ev_charger_locator.py:72-94 | on an accepted response a record is in the table exactly when it is located and some item converts to it |
| EvChargerLocator.FetchEvData | ev_charger_locator.py:46-112 | the fetch, step by step, returns the specified table |
| EvChargerLocator.WithinRadius | ev_charger_locator.py:219 | the mask keeps a row exactly when `거리_km <= radius`, as often as it occurs, and adds nothing |
| EvChargerLocator.NearbySearch | ev_charger_locator.py:207-219 | every result is within the radius (inclusive) at its own distance; every record within it is found; the result is sorted and is a permutation of the rows within the radius |
| EvChargerLocator.NearbySearchKeepsRecords | ev_charger_locator.py:209-219 | the result's records are a sub-multiset of the table: the search works on a copy and neither adds nor duplicates a record |
| EvChargerLocator.NearbySearchMonotoneInRadius | ev_charger_locator.py:219 | a larger radius around the same centre keeps every row of a smaller one and never yields fewer rows |

## Left out

- Haversine (app.py:35-40, ev_charger_locator.py:14-25): floating-point trigonometry. Every search takes the distance function as a parameter, and nothing is claimed about it: no symmetry, no zero distance, no clamp.
- Reals stand for the source's floats. NaN, infinities and rounding are not modelled. A coordinate parsed as NaN is not handled specially.
- Workbook reading (app.py:17) and the `위도경도` split into two float columns (app.py:18-19): the sheet is given as cells, and the split's string-to-float parsing is not part of this model.
- App.LoadData: its sheet is the frame as it stands after app.py:18-19. A workbook that has only a `위도경도` column gains `위도` and `경도` there before the projection; that step is not modelled, so the failure condition (a kept column absent) applies to the frame after the split, not to the workbook as read.
- App.LoadData: requires a rectangular sheet whose coordinate cells are never text. pandas would keep a text coordinate through `dropna`; the model's stations have numeric coordinates.
- Proximity.SortByKm: states sortedness and permutation only. The tie order of pandas' non-stable sort is not modelled. Proximity.SortedPermutationsShareDistances shows that the distance column does not depend on it.
- The multiselect widgets, their defaults and the choice a user makes (app.py:59-75) are inputs to App.SidebarFilters.
- App.SidebarFilters: the option lists are built with `sorted(...dropna().unique())` (app.py:59, 63, 67, 71, 75), which raises `TypeError` when a column mixes text and numbers, before any search can run. The model does not sort the option lists and does not capture that failure: a column of mixed cells is expanded and searched like any other.
- The HTTP request, its timeout and `raise_for_status`, and XML parsing (ev_charger_locator.py:46-53, 98-108): a `Response` value stands for their outcome (`RequestFailed`, `MalformedXml`, or a parsed document).
- The generic `except Exception` (ev_charger_locator.py:109-112) is not modelled beyond the missing header. One case it catches is `df['위도']` on an empty table, which raises `KeyError`; the empty table returned there is the model's result too.
- `float()` (ev_charger_locator.py:80-81) is an abstract parser returning `None` where Python raises.
- Geocoding (app.py:43-47, ev_charger_locator.py:117-134): an external service. The centre of a search is a parameter.
- Streamlit UI, session state, reruns, caching and secrets (app.py:50-169, ev_charger_locator.py:138-300): not program logic.
- Folium maps, popups and the directions links (app.py:132-160): rendering only.
- kepco_api_app.py is not part of this model: it is a request-and-display script with no logic of its own.
