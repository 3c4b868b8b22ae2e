/**
 The string and list pieces of the display layer: the selector label built
 from a (title, artist) pair and split back at its first " - ", the row shown
 for a selected label, and the closed value and label lists of the radar chart.
 */
module App {
  import opened Options
  import opened Songs
  import opened Text
  import opened Catalog
  import opened Ranking
  import opened Recommender

  const Separator: string := " - "

  /** A selector option: the title, " - ", then the artist. */
  function Label(s: TrackArtist): string {
    s.track + Separator + s.artist
  }

  /** The selector options: one label per available song, in order. */
  function SongList(songs: seq<TrackArtist>): (labels: seq<string>)
    ensures |labels| == |songs|
    ensures forall i :: 0 <= i < |songs| ==> labels[i] == Label(songs[i])
  {
    seq(|songs|, i requires 0 <= i < |songs| => Label(songs[i]))
  }

  /** A title that ends in " -" makes its label's first " - " start inside the title. */
  predicate EndsInSpaceDash(t: string) {
    |t| >= 2 && t[|t| - 2] == ' ' && t[|t| - 1] == '-'
  }

  /** Titles whose labels split back at the separator that was put in. */
  predicate SafeTitle(t: string) {
    !Contains(t, Separator) && !EndsInSpaceDash(t)
  }

  /**
   label.split(" - ", 1) unpacked into (title, artist): cut at the first
   separator; None when there is no separator and the unpacking fails.
   Splitting then joining gives the label back, and the title part is always
   one that survives a round trip.
   */
  function SplitLabel(entry: string): (r: Option<TrackArtist>)
    ensures r.None? <==> !Contains(entry, Separator)
    ensures r.Some? ==> Label(r.value) == entry
    ensures r.Some? ==> SafeTitle(r.value.track)
  {
    match FindFirst(entry, Separator)
    case None => None
    case Some(k) =>
      CutJoins(entry, k);
      PrefixHasNoSeparator(entry, k);
      PrefixNotEndsInSpaceDash(entry, k);
      Some(TrackArtist(entry[..k], entry[k + |Separator|..]))
  }

  /** Cutting out an occurrence of the separator and putting it back gives the string again. */
  lemma CutJoins(entry: string, k: nat)
    requires OccursAt(entry, Separator, k)
    ensures entry == entry[..k] + Separator + entry[k + |Separator|..]
  {
    assert entry == entry[..k] + entry[k..k + |Separator|] + entry[k + |Separator|..];
  }

  /** The text before the first separator contains no separator. */
  lemma PrefixHasNoSeparator(entry: string, k: nat)
    requires k <= |entry| && forall j :: 0 <= j < k ==> !OccursAt(entry, Separator, j)
    ensures !Contains(entry[..k], Separator)
  {
    var t := entry[..k];
    forall j | 0 <= j <= |t| ensures !OccursAt(t, Separator, j) {
      if j + |Separator| <= |t| {
        assert entry[j..j + |Separator|] == t[j..j + |Separator|];
        assert !OccursAt(entry, Separator, j);
      }
    }
  }

  /** The text before the first separator does not end in " -": that would start an earlier separator. */
  lemma PrefixNotEndsInSpaceDash(entry: string, k: nat)
    requires OccursAt(entry, Separator, k) && forall j :: 0 <= j < k ==> !OccursAt(entry, Separator, j)
    ensures !EndsInSpaceDash(entry[..k])
  {
    var t := entry[..k];
    assert entry[k] == ' ' by { assert entry[k..k + |Separator|] == Separator; }
    if k >= 2 {
      assert entry[k - 2..k + 1] == [t[k - 2], t[k - 1], ' '];
      assert !OccursAt(entry, Separator, k - 2);
    }
  }

  /**
   Where the separator can occur in a label before the end of its title:
   inside the title, or two characters before its end when the title ends in " -".
   */
  lemma OccursBeforeArtist(s: TrackArtist)
    ensures forall k :: 0 <= k < |s.track| ==>
              (OccursAt(Label(s), Separator, k) <==>
               OccursAt(s.track, Separator, k) || (k == |s.track| - 2 && EndsInSpaceDash(s.track)))
  {
    var t, l := s.track, Label(s);
    forall k | 0 <= k < |t|
      ensures OccursAt(l, Separator, k) <==> OccursAt(t, Separator, k) || (k == |t| - 2 && EndsInSpaceDash(t))
    {
      if k + 3 <= |t| {
        assert l[k..k + 3] == t[k..k + 3];
      } else if k == |t| - 2 {
        assert l[k..k + 3] == [t[k], t[k + 1], ' '];
      } else {
        assert l[k..k + 3] == [t[k], ' ', '-'];
      }
    }
  }

  /** The separator put in between title and artist is found where it was put. */
  lemma SeparatorAfterTitle(s: TrackArtist)
    ensures OccursAt(Label(s), Separator, |s.track|)
  {
    assert Label(s)[|s.track|..|s.track| + 3] == Separator;
  }

  /**
   The label of a song splits back into exactly that song if and only if its
   title is safe; the artist may contain " - " and still comes back intact.
   */
  lemma LabelRoundTrip(s: TrackArtist)
    ensures SplitLabel(Label(s)) == Some(s) <==> SafeTitle(s.track)
  {
    var t, l := s.track, Label(s);
    SeparatorAfterTitle(s);
    OccursBeforeArtist(s);
    var k := FindFirst(l, Separator).value;
    assert k <= |t|;
    if SafeTitle(t) {
      assert k == |t|;
      assert l[..k] == t && l[k + 3..] == s.artist;
    } else {
      if Contains(t, Separator) {
        var j :| 0 <= j <= |t| && OccursAt(t, Separator, j);
        assert k <= j < |t|;
      } else {
        assert OccursAt(l, Separator, |t| - 2);
        assert k < |t|;
      }
      assert |SplitLabel(l).value.track| < |t|;
    }
  }

  /**
   A title containing " - " is cut at its first occurrence, and the rest of
   the title is glued in front of the artist.
   */
  lemma LabelCutsTitle(s: TrackArtist)
    requires Contains(s.track, Separator)
    ensures var k := FindFirst(s.track, Separator).value;
            SplitLabel(Label(s)) == Some(TrackArtist(s.track[..k], s.track[k + 3..] + Separator + s.artist))
  {
    var t, l := s.track, Label(s);
    var k := FindFirst(t, Separator).value;
    OccursBeforeArtist(s);
    assert FindFirst(l, Separator) == Some(k) by {
      assert OccursAt(l, Separator, k);
      var f := FindFirst(l, Separator);
      assert f.Some? && f.value <= k;
    }
    SliceLabel(t, s.artist, k);
  }

  /** Slicing a label at a position inside its title. */
  lemma SliceLabel(t: string, a: string, k: nat)
    requires k + |Separator| <= |t|
    ensures (t + Separator + a)[..k] == t[..k]
    ensures (t + Separator + a)[k + |Separator|..] == t[k + |Separator|..] + Separator + a
  {
  }

  /**
   The frontend row shown for a selected label: split it, then take the first
   row whose title and artist equal the parts case-insensitively. None when the
   label has no separator or no row matches; the display then fails.
   */
  function SelectedRow(frontend: seq<Row>, entry: string): (r: Option<Row>)
    ensures r.None? <==> !Contains(entry, Separator)
                         || (forall j :: 0 <= j < |frontend| ==>
                               !Matches(frontend[j], SplitLabel(entry).value.track, SplitLabel(entry).value.artist))
    ensures r.Some? ==> var s := SplitLabel(entry).value;
                        exists j :: 0 <= j < |frontend| && r.value == frontend[j] && Matches(frontend[j], s.track, s.artist)
                          && forall j' :: 0 <= j' < j ==> !Matches(frontend[j'], s.track, s.artist)
  {
    match SplitLabel(entry)
    case None => None
    case Some(s) =>
      match FirstMatch(frontend, s.track, s.artist)
      case None => None
      case Some(i) => Some(frontend[i])
  }

  /**
   The query behind the recommendations button, with the default count. The
   button is only drawn once a row is displayed: with no separator the
   unpacking fails, and with no matching row taking the first row fails, so
   both give None and the engine is never asked.
   */
  function RecommendForLabel(e: Engine, entry: string, sim: Similarity): (r: Option<Answer>)
    requires SplitLabel(entry).Some? ==> QueryReady(e, SplitLabel(entry).value.track, SplitLabel(entry).value.artist)
    ensures r.None? <==> SelectedRow(e.frontend, entry).None?
    ensures r.Some? ==> r.value.Recommendations?
    ensures r.Some? ==> |r.value.songs| == MinInt(DefaultCount, MaxInt(0, |e.catalog| - 1)) <= 10
  {
    match SelectedRow(e.frontend, entry)
    case None => None
    case Some(_) =>
      var s := SplitLabel(entry).value;
      Some(GetRecommendations(e, s.track, s.artist, DefaultCount, sim))
  }

  /**
   The row the display shows is the row the engine queries with: for the same
   split label the engine's answer is the top-N for that row's features, and
   when no row is shown the engine answers with the not-found message.
   */
  lemma SelectedRowIsQuery(e: Engine, entry: string, n: int, sim: Similarity)
    requires SplitLabel(entry).Some?
    requires var s := SplitLabel(entry).value; QueryReady(e, s.track, s.artist)
    ensures var s := SplitLabel(entry).value;
            match SelectedRow(e.frontend, entry)
            case None => GetRecommendations(e, s.track, s.artist, n, sim) == Message(NotFoundMessage)
            case Some(row) =>
              && FeaturesDefined(row) && CatalogReady(e.catalog)
              && GetRecommendations(e, s.track, s.artist, n, sim)
                 == Recommendations(Project(e.catalog, TopAfterFirst(Rank(Scores(sim, Features(row), e.catalog)), n)))
  {
  }

  /**
   Choosing the i-th option of the selector shows row i, or an earlier row
   matching it case-insensitively, whenever row i's title is safe.
   */
  lemma ListedSongSelectable(frontend: seq<Row>, i: nat)
    requires i < |frontend| && SafeTitle(frontend[i].trackName)
    ensures var entry := SongList(AvailableSongs(frontend))[i];
            && SelectedRow(frontend, entry).Some?
            && exists j :: 0 <= j <= i && SelectedRow(frontend, entry).value == frontend[j]
                 && Matches(frontend[j], frontend[i].trackName, frontend[i].artist)
  {
    var s := AvailableSongs(frontend)[i];
    LabelRoundTrip(s);
    AvailableSongsResolve(frontend, i);
    var j := FirstMatch(frontend, s.track, s.artist).value;
    assert SelectedRow(frontend, Label(s)) == Some(frontend[j]);
  }

  /** The radar chart's values: the seven percentages in order, then the first again to close the polygon. */
  function RadarValues(song: Row): seq<Cell> {
    var values := seq(|PercentColumns|, k requires 0 <= k < |PercentColumns| => Get(song, PercentColumns[k]));
    values + [values[0]]
  }

  /** An axis label: the column name with "_%" removed, title-cased. */
  function RadarLabel(c: Column): string {
    Title(RemoveAll(Name(c), "_%"))
  }

  function RadarLabels(): seq<string> {
    var labels := seq(|PercentColumns|, k requires 0 <= k < |PercentColumns| => RadarLabel(PercentColumns[k]));
    labels + [labels[0]]
  }

  /**
   The radar chart draws eight points over eight labels: the seven
   percentage features, and the first of them again to close the polygon;
   neither tempo nor streams appears.
   */
  lemma RadarChartClosed(song: Row)
    ensures |RadarValues(song)| == |RadarLabels()| == |PercentColumns| + 1 == 8
    ensures RadarValues(song)[7] == RadarValues(song)[0] && RadarLabels()[7] == RadarLabels()[0]
    ensures forall k :: 0 <= k < 7 ==>
              && IsPercent(PercentColumns[k])
              && RadarValues(song)[k] == Get(song, PercentColumns[k])
              && RadarLabels()[k] == RadarLabel(PercentColumns[k])
  {
  }

  /** Each axis label is the column's stem with its first letter raised: "danceability_%" gives "Danceability". */
  lemma RadarLabelIsCapitalisedStem(c: Column)
    requires IsPercent(c)
    ensures RadarLabel(c) == [UpperChar(Stem(c)[0])] + Stem(c)[1..]
  {
    PercentNames(c);
    RemoveSuffixMarker(Stem(c));
    TitleOfLowerWord(Stem(c));
  }
}
