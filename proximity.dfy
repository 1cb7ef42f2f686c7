/** Distance-annotated station records and their ordering by distance, shared
    by the spreadsheet search and the API search. */
module Proximity {

  /** Great-circle distance in kilometres between (lon1, lat1) and (lon2, lat2),
      in the argument order of the haversine helper. The trigonometry is not
      modelled: every search receives the distance function as a parameter. */
  type Distance = (real, real, real, real) -> real

  /** One row of a search frame: a station record with its distance column. */
  datatype Hit<T> = Hit(station: T, km: real)

  /** The record column of a search frame. */
  function Stations<T>(hits: seq<Hit<T>>): (r: seq<T>)
    ensures |r| == |hits|
    ensures forall i :: 0 <= i < |hits| ==> r[i] == hits[i].station
  {
    if hits == [] then [] else [hits[0].station] + Stations(hits[1..])
  }

  /** A copy of a frame with a distance column added: every record, unchanged
      and in order, next to its own distance. */
  function Annotate<T>(records: seq<T>, km: T -> real): (r: seq<Hit<T>>)
    ensures Stations(r) == records
    ensures forall h :: h in r ==> h.km == km(h.station)
    ensures forall s :: s in records ==> Hit(s, km(s)) in r
  {
    if records == [] then [] else [Hit(records[0], km(records[0]))] + Annotate(records[1..], km)
  }

  predicate SortedByKm<T>(hits: seq<Hit<T>>) {
    forall i, j :: 0 <= i < j < |hits| ==> hits[i].km <= hits[j].km
  }

  /** Places one row into a frame already ordered by distance. */
  function Insert<T>(h: Hit<T>, sorted: seq<Hit<T>>): (r: seq<Hit<T>>)
    requires SortedByKm(sorted)
    ensures SortedByKm(r)
    ensures multiset(r) == multiset(sorted) + multiset{h}
    ensures forall x :: x in r ==> x == h || x in sorted
  {
    if sorted == [] || h.km <= sorted[0].km then
      ConsSorted(h, sorted);
      [h] + sorted
    else
      var tail := Insert(h, sorted[1..]);
      assert sorted == [sorted[0]] + sorted[1..];
      assert forall x :: x in tail ==> sorted[0].km <= x.km;
      ConsSorted(sorted[0], tail);
      [sorted[0]] + tail
  }

  /** A row no farther than every row of a sorted frame can go in front. */
  lemma ConsSorted<T>(h: Hit<T>, sorted: seq<Hit<T>>)
    requires SortedByKm(sorted)
    requires forall x :: x in sorted ==> h.km <= x.km
    ensures SortedByKm([h] + sorted)
  {
    var r := [h] + sorted;
    forall i, j | 0 <= i < j < |r| ensures r[i].km <= r[j].km {
      assert r[j] == sorted[j - 1];
      if i > 0 {
        assert r[i] == sorted[i - 1];
      }
    }
  }

  /** The frame ordered ascending by distance (`sort_values` on the distance
      column). Only the order of distances is specified: rows at equal distance
      may come in any order, as with the non-stable sort of the source. */
  function SortByKm<T>(hits: seq<Hit<T>>): (r: seq<Hit<T>>)
    ensures SortedByKm(r)
    ensures multiset(r) == multiset(hits)
  {
    if hits == [] then []
    else
      assert hits == [hits[0]] + hits[1..];
      Insert(hits[0], SortByKm(hits[1..]))
  }

  /** Taking out the element at index j removes one occurrence of it. */
  lemma RemoveAt<T>(s: seq<T>, j: nat)
    requires j < |s|
    ensures multiset(s[..j] + s[j + 1..]) == multiset(s) - multiset{s[j]}
  {
    assert s == s[..j] + [s[j]] + s[j + 1..];
  }

  /** An index at which a value occurs in a sequence holding it. */
  lemma PickIndex<T>(s: seq<T>, x: T) returns (j: nat)
    requires x in multiset(s)
    ensures j < |s| && s[j] == x
  {
    j :| j < |s| && s[j] == x;
  }

  lemma Reinsert<T>(m: multiset<T>, x: T)
    requires x in m
    ensures (m - multiset{x}) + multiset{x} == m
  {
  }

  lemma AddBoth<T>(extra: multiset<T>, small: multiset<T>, large: multiset<T>)
    requires small <= large
    ensures small <= extra + large && extra + small <= extra + large
  {
  }

  lemma StationsRemoveAt<T>(hits: seq<Hit<T>>, j: nat)
    requires j < |hits|
    ensures Stations(hits[..j] + hits[j + 1..]) == Stations(hits)[..j] + Stations(hits)[j + 1..]
  {
    var rest := hits[..j] + hits[j + 1..];
    var all := Stations(hits);
    var left, right := Stations(rest), all[..j] + all[j + 1..];
    assert |left| == |right|;
    forall i | 0 <= i < |left| ensures left[i] == right[i] {
      if i < j {
        assert rest[i] == hits[i];
        assert right[i] == all[i];
      } else {
        assert rest[i] == hits[i + 1];
        assert right[i] == all[i + 1];
      }
    }
  }

  /** Counting the records of a frame with one row taken out. */
  lemma StationsPick<T>(hits: seq<Hit<T>>, j: nat)
    requires j < |hits|
    ensures multiset(Stations(hits)) == multiset(Stations(hits[..j] + hits[j + 1..])) + multiset{hits[j].station}
  {
    StationsRemoveAt(hits, j);
    RemoveAt(Stations(hits), j);
    Reinsert(multiset(Stations(hits)), hits[j].station);
  }

  /** Rows taken from a frame, each at most as often as it occurs there,
      carry records taken from the frame's records in the same way. */
  lemma {:induction false} StationsOfSubMultiset<T>(a: seq<Hit<T>>, b: seq<Hit<T>>)
    requires multiset(a) <= multiset(b)
    ensures multiset(Stations(a)) <= multiset(Stations(b))
    decreases |a|
  {
    if a != [] {
      var j := PickIndex(b, a[0]);
      var rest := b[..j] + b[j + 1..];
      assert multiset(a[1..]) <= multiset(rest) by {
        RemoveAt(a, 0);
        assert a[..0] + a[1..] == a[1..];
        RemoveAt(b, j);
      }
      StationsOfSubMultiset(a[1..], rest);
      StationsPick(a, 0);
      assert a[..0] + a[1..] == a[1..];
      StationsPick(b, j);
      AddBoth(multiset{a[0].station}, multiset(Stations(a[1..])), multiset(Stations(rest)));
    }
  }

  lemma StationsOfPermutation<T>(a: seq<Hit<T>>, b: seq<Hit<T>>)
    requires multiset(a) == multiset(b)
    ensures multiset(Stations(a)) == multiset(Stations(b))
  {
    StationsOfSubMultiset(a, b);
    StationsOfSubMultiset(b, a);
  }

  /** Two frames holding the same rows hold the same set of rows. */
  lemma PermutationMembers<T>(a: seq<T>, b: seq<T>)
    requires multiset(a) == multiset(b)
    ensures forall x :: x in a <==> x in b
  {
    forall x ensures x in a <==> x in b {
      assert x in a <==> x in multiset(a);
      assert x in b <==> x in multiset(b);
    }
  }

  /** Taking a row out of a sorted frame leaves it sorted. */
  lemma SortedRemoveAt<T>(hits: seq<Hit<T>>, j: nat)
    requires SortedByKm(hits) && j < |hits|
    ensures SortedByKm(hits[..j] + hits[j + 1..])
  {
    var rest := hits[..j] + hits[j + 1..];
    forall p, q | 0 <= p < q < |rest| ensures rest[p].km <= rest[q].km {
      var p', q' := if p < j then p else p + 1, if q < j then q else q + 1;
      assert rest[p] == hits[p'] && rest[q] == hits[q'];
    }
  }

  /** Taking the first row out of one frame and the same row out of a
      permutation of it leaves permutations of each other. */
  lemma RemoveMatching<T>(a: seq<T>, b: seq<T>, j: nat)
    requires multiset(a) == multiset(b)
    requires a != [] && j < |b| && b[j] == a[0]
    ensures multiset(a[1..]) == multiset(b[..j] + b[j + 1..])
  {
    RemoveAt(a, 0);
    assert a[..0] + a[1..] == a[1..];
    RemoveAt(b, j);
  }

  /** However rows at equal distance are ordered, every correct sort of the
      same frame yields the same distances at every position. */
  lemma {:induction false} SortedPermutationsShareDistances<T>(a: seq<Hit<T>>, b: seq<Hit<T>>)
    requires SortedByKm(a) && SortedByKm(b)
    requires multiset(a) == multiset(b)
    ensures |a| == |b|
    ensures forall i :: 0 <= i < |a| ==> a[i].km == b[i].km
    decreases |a|
  {
    assert |a| == |multiset(a)| == |multiset(b)| == |b|;
    if a != [] {
      // The nearest rows of both frames are equally near.
      var j := PickIndex(b, a[0]);
      var m := PickIndex(a, b[0]);
      assert b[0].km <= b[j].km && a[0].km <= a[m].km;
      var nearest := a[0].km;
      var rest := b[..j] + b[j + 1..];
      RemoveMatching(a, b, j);
      SortedRemoveAt(b, j);
      SortedPermutationsShareDistances(a[1..], rest);
      forall i | 0 <= i < |a| ensures a[i].km == b[i].km {
        if 0 < i <= j {
          // Every row of b up to j lies at the nearest distance.
          assert a[i] == a[1..][i - 1] && rest[i - 1] == b[i - 1];
          assert b[0].km <= b[i - 1].km <= b[j].km == nearest;
          assert b[0].km <= b[i].km <= b[j].km;
        } else if i > j {
          assert a[i] == a[1..][i - 1] && rest[i - 1] == b[i];
        }
      }
    }
  }
}
