/**
 The song records both catalogs are made of: two text fields and nine numeric
 columns, of which eight form the feature vector used for similarity.
 */
module Songs {
  import opened Options

  /** A numeric cell after parsing; None is a value that failed numeric parsing (NaN). */
  type Cell = Option<real>

  /** The nine numeric columns, in the order the recommender scales them. */
  datatype Column =
    | Streams | Bpm
    | Danceability | Valence | Energy | Acousticness | Instrumentalness | Liveness | Speechiness

  const NumColumns: nat := 9

  const NumericColumns: seq<Column> :=
    [Streams, Bpm, Danceability, Valence, Energy, Acousticness, Instrumentalness, Liveness, Speechiness]

  /** The columns compared by the similarity search: tempo and the seven percentages. */
  const FeatureColumns: seq<Column> :=
    [Bpm, Danceability, Valence, Energy, Acousticness, Instrumentalness, Liveness, Speechiness]

  /** The seven percentage features, in the order the radar chart draws them. */
  const PercentColumns: seq<Column> :=
    [Danceability, Valence, Energy, Acousticness, Instrumentalness, Liveness, Speechiness]

  predicate IsPercent(c: Column) {
    !(c.Streams? || c.Bpm?)
  }

  /** Position of a column among the numeric columns of a row. */
  function Index(c: Column): (i: nat)
    ensures i < NumColumns && NumericColumns[i] == c
  {
    match c
    case Streams => 0
    case Bpm => 1
    case Danceability => 2
    case Valence => 3
    case Energy => 4
    case Acousticness => 5
    case Instrumentalness => 6
    case Liveness => 7
    case Speechiness => 8
  }

  /** The name of a percentage column without its "_%" suffix. */
  function Stem(c: Column): string
    requires IsPercent(c)
  {
    match c
    case Danceability => "danceability"
    case Valence => "valence"
    case Energy => "energy"
    case Acousticness => "acousticness"
    case Instrumentalness => "instrumentalness"
    case Liveness => "liveness"
    case Speechiness => "speechiness"
  }

  /** The column header in the data files. */
  function Name(c: Column): string {
    match c
    case Streams => "streams"
    case Bpm => "bpm"
    case Danceability => "danceability_%"
    case Valence => "valence_%"
    case Energy => "energy_%"
    case Acousticness => "acousticness_%"
    case Instrumentalness => "instrumentalness_%"
    case Liveness => "liveness_%"
    case Speechiness => "speechiness_%"
  }

  /** Every percentage column is named by its stem followed by "_%". */
  lemma PercentNames(c: Column)
    requires IsPercent(c)
    ensures Name(c) == Stem(c) + "_%"
    ensures '%' !in Stem(c) && |Stem(c)| > 0
    ensures forall k :: 0 <= k < |Stem(c)| ==> 'a' <= Stem(c)[k] <= 'z'
  {
    NameIsStemWithMarker(c);
    StemIsLowerWord(c);
  }

  lemma NameIsStemWithMarker(c: Column)
    requires IsPercent(c)
    ensures Name(c) == Stem(c) + "_%"
  {
  }

  lemma StemIsLowerWord(c: Column)
    requires IsPercent(c)
    ensures |Stem(c)| > 0 && forall k :: 0 <= k < |Stem(c)| ==> 'a' <= Stem(c)[k] <= 'z'
  {
  }

  /** The feature columns are exactly the numeric columns other than streams. */
  lemma FeatureColumnsAreAllButStreams(c: Column)
    ensures c in FeatureColumns <==> c != Streams
    ensures c in PercentColumns <==> IsPercent(c)
  {
  }

  /** One row of a catalog; track_name and artist(s)_name plus the nine numeric cells. */
  datatype Song = Song(trackName: string, artist: string, cells: seq<Cell>)

  type Row = s: Song | |s.cells| == NumColumns
    witness Song("", "", [None, None, None, None, None, None, None, None, None])

  /** The (track_name, artist(s)_name) projection of a row. */
  datatype TrackArtist = TrackArtist(track: string, artist: string)

  function Id(r: Row): TrackArtist {
    TrackArtist(r.trackName, r.artist)
  }

  function Get(r: Row, c: Column): Cell {
    r.cells[Index(c)]
  }

  predicate FeaturesDefined(r: Row) {
    forall k :: 0 <= k < |FeatureColumns| ==> Get(r, FeatureColumns[k]).Some?
  }

  /** The 8-dimensional feature vector: bpm then the seven percentages. */
  function Features(r: Row): (v: seq<real>)
    requires FeaturesDefined(r)
    ensures |v| == |FeatureColumns|
    ensures forall k :: 0 <= k < |v| ==> Get(r, FeatureColumns[k]) == Some(v[k])
  {
    seq(|FeatureColumns|, k requires 0 <= k < |FeatureColumns| => Get(r, FeatureColumns[k]).value)
  }

  /** The streams cell never reaches the feature vector. */
  lemma FeaturesIgnoreStreams(r1: Row, r2: Row)
    requires forall c :: c != Streams ==> Get(r1, c) == Get(r2, c)
    requires FeaturesDefined(r1)
    ensures FeaturesDefined(r2)
    ensures Features(r1) == Features(r2)
  {
    assert forall k :: 0 <= k < |FeatureColumns| ==> FeatureColumns[k] != Streams;
  }
}
