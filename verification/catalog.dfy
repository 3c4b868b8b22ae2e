/**
 The catalog accessor: the list of selectable songs and the resolution of a
 (title, artist) pair to a frontend row by a case-insensitive exact match on
 both fields, taking the first matching row in load order.
 */
module Catalog {
  import opened Options
  import opened Songs
  import opened Text

  /** A row matches when both its track name and its artist equal the query after lower-casing. */
  predicate Matches(r: Row, title: string, artist: string) {
    Lower(r.trackName) == Lower(title) && Lower(r.artist) == Lower(artist)
  }

  function FirstMatchFrom(rows: seq<Row>, title: string, artist: string, i: nat): (r: Option<nat>)
    decreases |rows| - i
    ensures r.Some? ==> i <= r.value < |rows| && Matches(rows[r.value], title, artist)
    ensures r.Some? ==> forall j :: i <= j < r.value ==> !Matches(rows[j], title, artist)
    ensures r.None? <==> forall j :: i <= j < |rows| ==> !Matches(rows[j], title, artist)
  {
    if i >= |rows| then None
    else if Matches(rows[i], title, artist) then Some(i)
    else FirstMatchFrom(rows, title, artist, i + 1)
  }

  /**
   The row the lookup selects (the mask, then its first row): the smallest
   index of a matching row, or None when no row matches.
   */
  function FirstMatch(rows: seq<Row>, title: string, artist: string): (r: Option<nat>)
    ensures r.Some? ==> r.value < |rows| && Matches(rows[r.value], title, artist)
    ensures r.Some? ==> forall j :: 0 <= j < r.value ==> !Matches(rows[j], title, artist)
    ensures r.None? <==> forall j :: 0 <= j < |rows| ==> !Matches(rows[j], title, artist)
  {
    FirstMatchFrom(rows, title, artist, 0)
  }

  /** Queries that agree after lower-casing select the same row. */
  lemma FirstMatchIgnoresCase(rows: seq<Row>, t1: string, a1: string, t2: string, a2: string)
    requires Lower(t1) == Lower(t2) && Lower(a1) == Lower(a2)
    ensures FirstMatch(rows, t1, a1) == FirstMatch(rows, t2, a2)
  {
    assert forall j :: 0 <= j < |rows| ==> (Matches(rows[j], t1, a1) <==> Matches(rows[j], t2, a2));
  }

  /** Querying with the lower-cased pair selects the same row as the pair itself. */
  lemma FirstMatchOfLowered(rows: seq<Row>, title: string, artist: string)
    ensures FirstMatch(rows, Lower(title), Lower(artist)) == FirstMatch(rows, title, artist)
  {
    LowerIdempotent(title);
    LowerIdempotent(artist);
    FirstMatchIgnoresCase(rows, Lower(title), Lower(artist), title, artist);
  }

  /**
   A stored row is always found by its own names, at its own index or at an
   earlier row that matches it case-insensitively.
   */
  lemma StoredRowFound(rows: seq<Row>, i: nat)
    requires i < |rows|
    ensures FirstMatch(rows, rows[i].trackName, rows[i].artist).Some?
    ensures FirstMatch(rows, rows[i].trackName, rows[i].artist).value <= i
  {
    assert Matches(rows[i], rows[i].trackName, rows[i].artist);
  }

  /** get_available_songs: one (track_name, artist) pair per frontend row, in load order. */
  function AvailableSongs(rows: seq<Row>): (songs: seq<TrackArtist>)
    ensures |songs| == |rows|
    ensures forall i :: 0 <= i < |rows| ==> songs[i] == Id(rows[i])
  {
    seq(|rows|, i requires 0 <= i < |rows| => Id(rows[i]))
  }

  /**
   Every listed song resolves: looking up the i-th available pair selects
   row i or an earlier row that matches it; row i itself when no earlier row
   matches.
   */
  lemma AvailableSongsResolve(rows: seq<Row>, i: nat)
    requires i < |rows|
    ensures var s := AvailableSongs(rows)[i];
            && FirstMatch(rows, s.track, s.artist).Some?
            && FirstMatch(rows, s.track, s.artist).value <= i
            && ((forall j :: 0 <= j < i ==> !Matches(rows[j], s.track, s.artist)) ==> FirstMatch(rows, s.track, s.artist).value == i)
  {
    StoredRowFound(rows, i);
  }
}
