/**
 Min-max scaling of the nine numeric columns. The scale is fitted once, on the
 candidate catalog, and the same parameters transform both the catalog and the
 frontend catalog. Undefined cells are skipped when fitting and stay undefined
 when transforming. A column whose minimum equals its maximum scales every
 value to 0.
 */
module Normalizer {
  import opened Options
  import opened Songs

  /** The fitted parameters of one column: the minimum and maximum of its defined cells. */
  datatype ColumnScale = ColumnScale(lo: real, hi: real)

  type Range = cs: ColumnScale | cs.lo <= cs.hi witness ColumnScale(0.0, 0.0)

  /** Fitted parameters for all nine columns, by column index; None for a column with no defined cell. */
  type Scaler = s: seq<Option<Range>> | |s| == NumColumns
    witness [None, None, None, None, None, None, None, None, None]

  datatype FitError = NoRows

  function ColumnCells(rows: seq<Row>, c: Column): (xs: seq<Cell>)
    ensures |xs| == |rows|
    ensures forall i :: 0 <= i < |rows| ==> xs[i] == Get(rows[i], c)
  {
    seq(|rows|, i requires 0 <= i < |rows| => Get(rows[i], c))
  }

  function Min(a: real, b: real): real { if a <= b then a else b }
  function Max(a: real, b: real): real { if a <= b then b else a }

  /** The smallest and largest defined value of a column, or None when no cell is defined. */
  function DefinedRange(xs: seq<Cell>): (r: Option<Range>)
    ensures r.None? <==> forall i :: 0 <= i < |xs| ==> xs[i].None?
    ensures r.Some? ==> forall i :: 0 <= i < |xs| && xs[i].Some? ==> r.value.lo <= xs[i].value <= r.value.hi
    ensures r.Some? ==> exists i :: 0 <= i < |xs| && xs[i] == Some(r.value.lo)
    ensures r.Some? ==> exists i :: 0 <= i < |xs| && xs[i] == Some(r.value.hi)
  {
    if |xs| == 0 then None
    else
      var rest := DefinedRange(xs[1..]);
      assert forall j :: 0 <= j < |xs| - 1 ==> xs[1..][j] == xs[j + 1];
      match xs[0]
      case None => rest
      case Some(v) =>
        match rest
        case None => Some(ColumnScale(v, v))
        case Some(cs) => Some(ColumnScale(Min(v, cs.lo), Max(v, cs.hi)))
  }

  /** The scaler's column c holds exactly the minimum and maximum of the defined cells of that column. */
  predicate FittedOn(sc: Scaler, rows: seq<Row>) {
    forall c: Column ::
      match sc[Index(c)]
      case None => forall i :: 0 <= i < |rows| ==> Get(rows[i], c).None?
      case Some(cs) =>
        && (forall i :: 0 <= i < |rows| && Get(rows[i], c).Some? ==> cs.lo <= Get(rows[i], c).value <= cs.hi)
        && (exists i :: 0 <= i < |rows| && Get(rows[i], c) == Some(cs.lo))
        && (exists i :: 0 <= i < |rows| && Get(rows[i], c) == Some(cs.hi))
  }

  /** MinMaxScaler.fit: fails on a catalog without rows, otherwise records each column's range. */
  function Fit(rows: seq<Row>): (r: Result<Scaler, FitError>)
    ensures r.Failure? <==> |rows| == 0
    ensures r.Success? ==> FittedOn(r.value, rows)
  {
    if |rows| == 0 then Failure(NoRows)
    else
      var sc: Scaler := seq(NumColumns, j requires 0 <= j < NumColumns => DefinedRange(ColumnCells(rows, NumericColumns[j])));
      assert forall c: Column :: sc[Index(c)] == DefinedRange(ColumnCells(rows, c));
      Success(sc)
  }

  /** Maps v to (v - lo) / (hi - lo); a column with no spread maps everything to 0. */
  function ScaleValue(cs: Range, v: real): (r: real)
    ensures cs.lo <= v <= cs.hi ==> 0.0 <= r <= 1.0
    ensures cs.lo < cs.hi ==> cs.lo + r * (cs.hi - cs.lo) == v
    ensures cs.lo == cs.hi ==> r == 0.0
    ensures v == cs.lo ==> r == 0.0
    ensures cs.lo < cs.hi && v == cs.hi ==> r == 1.0
  {
    if cs.hi == cs.lo then 0.0
    else
      var d := cs.hi - cs.lo;
      var r := (v - cs.lo) / d;
      assert r * d == v - cs.lo;
      assert v == cs.hi ==> r == 1.0 by {
        if v == cs.hi { assert v - cs.lo == d; }
      }
      assert cs.lo <= v <= cs.hi ==> 0.0 <= r <= 1.0 by {
        if cs.lo <= v <= cs.hi {
          assert 0.0 <= v - cs.lo <= d;
        }
      }
      r
  }

  /** Scaling preserves order, strictly when the column has spread. */
  lemma ScaleMonotone(cs: Range, v: real, w: real)
    requires v <= w
    ensures ScaleValue(cs, v) <= ScaleValue(cs, w)
    ensures cs.lo < cs.hi && v < w ==> ScaleValue(cs, v) < ScaleValue(cs, w)
  {
    if cs.lo < cs.hi {
      var d := cs.hi - cs.lo;
      assert ScaleValue(cs, w) - ScaleValue(cs, v) == (w - v) / d;
    }
  }

  function ScaleCell(p: Option<Range>, x: Cell): (y: Cell)
    ensures y.Some? ==> x.Some?
  {
    match x
    case None => None
    case Some(v) =>
      match p
      case None => None
      case Some(cs) => Some(ScaleValue(cs, v))
  }

  /** MinMaxScaler.transform on one row: names unchanged, each cell scaled by its own column's range. */
  function TransformRow(sc: Scaler, r: Row): (t: Row)
    ensures Id(t) == Id(r)
    ensures forall c :: Get(t, c) == ScaleCell(sc[Index(c)], Get(r, c))
  {
    Song(r.trackName, r.artist, seq(NumColumns, j requires 0 <= j < NumColumns => ScaleCell(sc[j], r.cells[j])))
  }

  function Transform(sc: Scaler, rows: seq<Row>): (ts: seq<Row>)
    ensures |ts| == |rows|
    ensures forall i :: 0 <= i < |rows| ==> ts[i] == TransformRow(sc, rows[i])
  {
    seq(|rows|, i requires 0 <= i < |rows| => TransformRow(sc, rows[i]))
  }

  /**
   After fitting on a catalog, transforming that catalog keeps exactly its
   defined cells defined and puts every one of them in [0, 1].
   */
  lemma FittedCatalogInUnitRange(rows: seq<Row>)
    requires |rows| > 0
    ensures Fit(rows).Success?
    ensures forall i, c :: 0 <= i < |rows| ==>
              (Get(Transform(Fit(rows).value, rows)[i], c).Some? <==> Get(rows[i], c).Some?)
    ensures forall i, c :: 0 <= i < |rows| && Get(Transform(Fit(rows).value, rows)[i], c).Some? ==>
              0.0 <= Get(Transform(Fit(rows).value, rows)[i], c).value <= 1.0
  {
    var sc := Fit(rows).value;
    forall i, c | 0 <= i < |rows|
      ensures Get(Transform(sc, rows)[i], c).Some? <==> Get(rows[i], c).Some?
      ensures Get(Transform(sc, rows)[i], c).Some? ==> 0.0 <= Get(Transform(sc, rows)[i], c).value <= 1.0
    {
      assert FittedOn(sc, rows);
      if Get(rows[i], c).Some? {
        assert sc[Index(c)].Some?;
      }
    }
  }

  /**
   The column minimum of the fitted catalog scales to 0, and when the column
   has spread its maximum scales to 1.
   */
  lemma FittedExtremes(rows: seq<Row>, c: Column, i: nat)
    requires i < |rows| && Get(rows[i], c).Some?
    ensures Fit(rows).Success? && Fit(rows).value[Index(c)].Some?
    ensures exists j :: 0 <= j < |rows| && Get(Transform(Fit(rows).value, rows)[j], c) == Some(0.0)
    ensures var cs := Fit(rows).value[Index(c)].value;
            cs.lo < cs.hi ==> exists j :: 0 <= j < |rows| && Get(Transform(Fit(rows).value, rows)[j], c) == Some(1.0)
  {
    FitColumn(rows, c);
    var sc := Fit(rows).value;
    var xs := ColumnCells(rows, c);
    assert xs[i].Some?;
    var cs := sc[Index(c)].value;
    var jlo :| 0 <= jlo < |xs| && xs[jlo] == Some(cs.lo);
    ScaledCell(sc, rows, jlo, c, cs, cs.lo);
    if cs.lo < cs.hi {
      var jhi :| 0 <= jhi < |xs| && xs[jhi] == Some(cs.hi);
      ScaledCell(sc, rows, jhi, c, cs, cs.hi);
    }
  }

  /** Column c of a fitted scaler is the range of column c's cells. */
  lemma FitColumn(rows: seq<Row>, c: Column)
    requires |rows| > 0
    ensures Fit(rows).Success?
    ensures Fit(rows).value[Index(c)] == DefinedRange(ColumnCells(rows, c))
  {
  }

  /** A defined cell of a column with fitted range cs becomes its scaled value. */
  lemma ScaledCell(sc: Scaler, rows: seq<Row>, i: nat, c: Column, cs: Range, v: real)
    requires i < |rows| && sc[Index(c)] == Some(cs) && Get(rows[i], c) == Some(v)
    ensures Get(Transform(sc, rows)[i], c) == Some(ScaleValue(cs, v))
  {
  }

  /**
   The frontend is transformed with the catalog's parameters, not refitted:
   a frontend value equal to some catalog value scales to the same number (so
   into [0, 1]), and a value above the catalog maximum scales above 1.
   */
  lemma FrontendUsesCatalogScale(rows: seq<Row>, f: Row, c: Column, i: nat)
    requires i < |rows| && Get(f, c).Some? && Get(f, c) == Get(rows[i], c)
    ensures Fit(rows).Success?
    ensures Get(TransformRow(Fit(rows).value, f), c) == Get(Transform(Fit(rows).value, rows)[i], c)
    ensures Get(TransformRow(Fit(rows).value, f), c).Some?
    ensures 0.0 <= Get(TransformRow(Fit(rows).value, f), c).value <= 1.0
  {
    FittedCatalogInUnitRange(rows);
  }

  lemma AboveFittedRange(cs: Range, v: real)
    requires cs.lo < cs.hi < v
    ensures ScaleValue(cs, v) > 1.0
  {
    ScaleMonotone(cs, cs.hi, v);
  }
}
