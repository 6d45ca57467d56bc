/**
 The batch scanner rectangularRange_HSV_iteronce_cpp: one pass over the
 pixels per bound box, each box a row of the lower and upper bound matrices,
 one record (1-based coordinates, match count, image fraction) per box.
 */
module IterOnce {
  import opened PixelScan

  /** A numeric matrix: `cols` columns, one row of bounds per box. */
  datatype BoundMatrix = BoundMatrix(cols: nat, cells: seq<seq<real>>) {
    predicate Rectangular() {
      forall r :: 0 <= r < |cells| ==> |cells[r]| == cols
    }

    /** The one-row matrix holding row j. */
    function Row(j: nat): (m: BoundMatrix)
      requires j < |cells|
      ensures m.cols == cols && |m.cells| == 1 && m.cells[0] == cells[j]
    {
      BoundMatrix(cols, [cells[j]])
    }
  }

  /** The four shape errors the scanner raises, one per message. */
  datatype ShapeError =
    | UpperNotThree         // check_V set and upper_bound does not have 3 columns
    | LowerNotThree         // check_V set and lower_bound does not have 3 columns
    | UpperNotTwoOrThree    // check_V clear and upper_bound has neither 2 nor 3 columns
    | LowerNotTwoOrThree    // check_V clear and lower_bound has neither 2 nor 3 columns

  datatype Result<T> = Ok(value: T) | Err(error: ShapeError)

  /** count / N as a double; 0 / 0 (an empty image) is NaN. */
  datatype Fraction = Share(value: real) | NotANumber

  /**
   One box's record: the row and column vectors of the n x 2 index matrix
   (columns "x" and "y"), the match count and the fraction of the image.
   */
  datatype Record = Record(rows: seq<int>, cols: seq<int>, count: int, fraction: Fraction)

  /** A column count is admissible when it is 3, or also 2 when V is not checked. */
  predicate AdmissibleCols(cols: nat, checkV: bool) {
    if checkV then cols == 3 else cols == 2 || cols == 3
  }

  /** The column-count check, upper bound first. */
  function CheckShapes(upperCols: nat, lowerCols: nat, checkV: bool): (r: Option<ShapeError>)
    ensures r.None? <==> AdmissibleCols(upperCols, checkV) && AdmissibleCols(lowerCols, checkV)
    ensures r.Some? && (r.value == UpperNotThree || r.value == UpperNotTwoOrThree)
            <==> !AdmissibleCols(upperCols, checkV)
    ensures r.Some? ==> (r.value == UpperNotThree || r.value == LowerNotThree <==> checkV)
  {
    if checkV then
      if upperCols != 3 then Some(UpperNotThree)
      else if lowerCols != 3 then Some(LowerNotThree)
      else None
    else
      if upperCols != 2 && upperCols != 3 then Some(UpperNotTwoOrThree)
      else if lowerCols != 2 && lowerCols != 3 then Some(LowerNotTwoOrThree)
      else None
  }

  /**
   What the scanner needs of its caller: a positive width, S (and V when it
   is checked) as long as H, rectangular bound matrices, and, once the shapes
   pass, a lower bound row for every upper bound row.
   */
  predicate Admissible(c: Channels, upper: BoundMatrix, lower: BoundMatrix, w: int, checkV: bool) {
    && w > 0
    && |c.S| >= |c.H|
    && (checkV ==> |c.V| >= |c.H|)
    && upper.Rectangular()
    && lower.Rectangular()
    && (CheckShapes(upper.cols, lower.cols, checkV).None? ==> |lower.cells| >= |upper.cells|)
  }

  /** Box j: columns 0 and 1 of row j, and column 2 only when V is checked. */
  function BoxOf(upper: BoundMatrix, lower: BoundMatrix, j: nat, checkV: bool): (box: Box)
    requires upper.Rectangular() && lower.Rectangular()
    requires CheckShapes(upper.cols, lower.cols, checkV).None?
    requires j < |upper.cells| <= |lower.cells|
    ensures box.v.Some? <==> checkV
  {
    Box(Interval(lower.cells[j][0], upper.cells[j][0]),
        Interval(lower.cells[j][1], upper.cells[j][1]),
        if checkV then Some(Interval(lower.cells[j][2], upper.cells[j][2])) else None)
  }

  /**
   The double quotient count / total: NaN exactly when total is 0, otherwise
   the share that, times total, gives count back, within [0, 1] for a count
   that does not exceed total.
   */
  function FractionOf(count: nat, total: nat): (f: Fraction)
    ensures f.NotANumber? <==> total == 0
    ensures f.Share? ==> f.value * total as real == count as real
    ensures f.Share? && count <= total ==> 0.0 <= f.value <= 1.0
  {
    if total == 0 then NotANumber else Share(count as real / total as real)
  }

  /**
   The record one scan over the whole image produces for one box: the count
   is the number of coordinate pairs, at most the pixel count, and the pairs
   decode to exactly the matching flat indices.
   */
  function RecordOf(c: Channels, box: Box, w: nat): (r: Record)
    requires w > 0 && Readable(c, box)
    ensures r.count == |r.rows| == |r.cols| <= |c.H|
    ensures Decode(r.rows, r.cols, w, 1) == MatchedPixels(c, box)
    ensures r.fraction == FractionOf(r.count, |c.H|)
  {
    var idx := MatchedPixels(c, box);
    DecodeCoordinates(idx, w, 1);
    Record(RowsOf(idx, w, 1), ColsOf(idx, w, 1), |idx|, FractionOf(|idx|, |c.H|))
  }

  /**
   The scanner's result: no boxes gives no records and no check; otherwise a
   bad shape is an error and good shapes give one record per box, in order.
   */
  function Batch(c: Channels, upper: BoundMatrix, lower: BoundMatrix, w: int, checkV: bool)
    : (res: Result<seq<Record>>)
    requires Admissible(c, upper, lower, w, checkV)
    ensures res.Err? <==> |upper.cells| > 0 && !(AdmissibleCols(upper.cols, checkV) && AdmissibleCols(lower.cols, checkV))
    ensures res.Ok? ==> |res.value| == |upper.cells|
    ensures res.Ok? ==> forall j :: 0 <= j < |res.value| ==> res.value[j].count <= |c.H|
  {
    if |upper.cells| == 0 then Ok([])
    else match CheckShapes(upper.cols, lower.cols, checkV)
      case Some(e) => Err(e)
      case None =>
        Ok(seq(|upper.cells|, j requires 0 <= j < |upper.cells| =>
                 RecordOf(c, BoxOf(upper, lower, j, checkV), w)))
  }

  /** The pass over the pixels for one box: the 1-based coordinates of the pixels inside it. */
  method ScanBox(H: seq<real>, S: seq<real>, V: seq<real>,
                 lowerH: real, upperH: real, lowerS: real, upperS: real, lowerV: real, upperV: real,
                 checkV: bool, width: int)
    returns (rowIndices: seq<int>, colIndices: seq<int>)
    requires width > 0 && |S| >= |H| && (checkV ==> |V| >= |H|)
    ensures var box := Box(Interval(lowerH, upperH), Interval(lowerS, upperS),
                           if checkV then Some(Interval(lowerV, upperV)) else None);
      && rowIndices == RowsOf(MatchedPixels(Channels(H, S, V), box), width, 1)
      && colIndices == ColsOf(MatchedPixels(Channels(H, S, V), box), width, 1)
  {
    ghost var c := Channels(H, S, V);
    ghost var box := Box(Interval(lowerH, upperH), Interval(lowerS, upperS),
                         if checkV then Some(Interval(lowerV, upperV)) else None);
    var repetitions := |H|;
    rowIndices := [];
    colIndices := [];
    for i := 0 to repetitions
      invariant rowIndices == RowsOf(MatchesBelow(c, box, i), width, 1)
      invariant colIndices == ColsOf(MatchesBelow(c, box, i), width, 1)
    {
      if checkV {
        if lowerH <= H[i] && H[i] <= upperH
           && lowerS <= S[i] && S[i] <= upperS
           && lowerV <= V[i] && V[i] <= upperV
        {
          rowIndices := rowIndices + [i % width + 1];
          colIndices := colIndices + [i / width + 1];
        }
      } else {
        if lowerH <= H[i] && H[i] <= upperH
           && lowerS <= S[i] && S[i] <= upperS
        {
          rowIndices := rowIndices + [i % width + 1];
          colIndices := colIndices + [i / width + 1];
        }
      }
      ScanStep(c, box, i, width, 1);
    }
  }

  /** rectangularRange_HSV_iteronce_cpp. */
  method RectangularRange(H: seq<real>, S: seq<real>, V: seq<real>,
                          upper: BoundMatrix, lower: BoundMatrix,
                          width: int, checkV: bool)
    returns (result: Result<seq<Record>>)
    requires Admissible(Channels(H, S, V), upper, lower, width, checkV)
    ensures result == Batch(Channels(H, S, V), upper, lower, width, checkV)
  {
    ghost var c := Channels(H, S, V);
    var repetitions := |H|;
    var results: seq<Record> := [];
    for j := 0 to |upper.cells|
      invariant j > 0 ==> CheckShapes(upper.cols, lower.cols, checkV).None?
      invariant |results| == j
      invariant forall k :: 0 <= k < j ==>
                  results[k] == RecordOf(c, BoxOf(upper, lower, k, checkV), width)
    {
      if checkV {
        if upper.cols != 3 {
          return Err(UpperNotThree);
        }
        if lower.cols != 3 {
          return Err(LowerNotThree);
        }
      } else {
        if upper.cols != 2 && upper.cols != 3 {
          return Err(UpperNotTwoOrThree);
        }
        if lower.cols != 2 && lower.cols != 3 {
          return Err(LowerNotTwoOrThree);
        }
      }
      var lowerH, lowerS := lower.cells[j][0], lower.cells[j][1];
      var upperH, upperS := upper.cells[j][0], upper.cells[j][1];
      // the value bounds exist, and are read, only when V is checked
      var lowerV, upperV := 0.0, 0.0;
      if checkV {
        lowerV, upperV := lower.cells[j][2], upper.cells[j][2];
      }
      ghost var box := BoxOf(upper, lower, j, checkV);

      var rowIndices, colIndices := ScanBox(H, S, V, lowerH, upperH, lowerS, upperS, lowerV, upperV,
                                            checkV, width);

      var n := |rowIndices|;
      var fraction := if repetitions == 0 then NotANumber else Share(n as real / repetitions as real);
      assert Record(rowIndices, colIndices, n, fraction) == RecordOf(c, box, width);
      results := results + [Record(rowIndices, colIndices, n, fraction)];
    }
    assert results == Batch(c, upper, lower, width, checkV).value;
    return Ok(results);
  }

  /**
   Pixel i lies in box j, read off the bound matrices directly: H and S in
   their closed intervals, and V too when it is checked.
   */
  predicate PixelInRow(c: Channels, upper: BoundMatrix, lower: BoundMatrix, j: nat, checkV: bool, i: nat)
    requires upper.Rectangular() && lower.Rectangular() && CheckShapes(upper.cols, lower.cols, checkV).None?
    requires j < |upper.cells| <= |lower.cells|
    requires i < |c.H| && |c.S| >= |c.H| && (checkV ==> |c.V| >= |c.H|)
  {
    && lower.cells[j][0] <= c.H[i] <= upper.cells[j][0]
    && lower.cells[j][1] <= c.S[i] <= upper.cells[j][1]
    && (checkV ==> lower.cells[j][2] <= c.V[i] <= upper.cells[j][2])
  }

  /**
   Validation: with check_V both matrices need 3 columns, without it 2 or 3;
   upper_bound is examined first; a failure yields the error and no records.
   With no rows nothing is checked and the result is empty. Otherwise there is
   one record per row.
   */
  lemma BatchShape(c: Channels, upper: BoundMatrix, lower: BoundMatrix, w: int, checkV: bool)
    requires Admissible(c, upper, lower, w, checkV)
    ensures var res := Batch(c, upper, lower, w, checkV);
      && (|upper.cells| == 0 ==> res == Ok([]))
      && (|upper.cells| > 0 && checkV && upper.cols != 3 ==> res == Err(UpperNotThree))
      && (|upper.cells| > 0 && checkV && upper.cols == 3 && lower.cols != 3 ==> res == Err(LowerNotThree))
      && (|upper.cells| > 0 && !checkV && upper.cols != 2 && upper.cols != 3
          ==> res == Err(UpperNotTwoOrThree))
      && (|upper.cells| > 0 && !checkV && AdmissibleCols(upper.cols, false) && !AdmissibleCols(lower.cols, false)
          ==> res == Err(LowerNotTwoOrThree))
      && (res.Ok? <==> |upper.cells| == 0
                       || (AdmissibleCols(upper.cols, checkV) && AdmissibleCols(lower.cols, checkV)))
      && (res.Ok? ==> |res.value| == |upper.cells|)
  {
  }

  /**
   Membership: pixel i's 1-based coordinate pair appears in record j exactly
   when the pixel lies in box j.
   */
  lemma BatchMembership(c: Channels, upper: BoundMatrix, lower: BoundMatrix, w: int, checkV: bool,
                        j: nat, i: nat)
    requires Admissible(c, upper, lower, w, checkV)
    requires Batch(c, upper, lower, w, checkV).Ok?
    requires j < |upper.cells| && i < |c.H|
    ensures CheckShapes(upper.cols, lower.cols, checkV).None?
    ensures var r := Batch(c, upper, lower, w, checkV).value[j];
      && |r.rows| == |r.cols|
      && ((exists k :: 0 <= k < |r.rows| && r.rows[k] == i % w + 1 && r.cols[k] == i / w + 1)
          <==> PixelInRow(c, upper, lower, j, checkV, i))
  {
    var box := BoxOf(upper, lower, j, checkV);
    var idx := MatchedPixels(c, box);
    BatchRecordOf(c, upper, lower, w, checkV, j);
    RowMatches(c, upper, lower, j, checkV, i);
    CoordinatesListed(idx, w, 1, i);
  }

  /** Record j has no matches, an empty index matrix, exactly when no pixel lies in box j. */
  lemma BatchNoMatch(c: Channels, upper: BoundMatrix, lower: BoundMatrix, w: int, checkV: bool, j: nat)
    requires Admissible(c, upper, lower, w, checkV)
    requires Batch(c, upper, lower, w, checkV).Ok?
    requires j < |upper.cells|
    ensures CheckShapes(upper.cols, lower.cols, checkV).None?
    ensures var r := Batch(c, upper, lower, w, checkV).value[j];
      r.count == 0 <==> forall p :: 0 <= p < |c.H| ==> !PixelInRow(c, upper, lower, j, checkV, p)
  {
    var box := BoxOf(upper, lower, j, checkV);
    BatchRecordOf(c, upper, lower, w, checkV, j);
    NoMatchIsEmpty(c, box);
    forall p | 0 <= p < |c.H|
      ensures Matches(c, box, p) <==> PixelInRow(c, upper, lower, j, checkV, p)
    {
      RowMatches(c, upper, lower, j, checkV, p);
    }
  }

  /** The membership test against box j is the bound test on row j of the matrices. */
  lemma RowMatches(c: Channels, upper: BoundMatrix, lower: BoundMatrix, j: nat, checkV: bool, i: nat)
    requires upper.Rectangular() && lower.Rectangular() && CheckShapes(upper.cols, lower.cols, checkV).None?
    requires j < |upper.cells| <= |lower.cells|
    requires i < |c.H| && |c.S| >= |c.H| && (checkV ==> |c.V| >= |c.H|)
    ensures Readable(c, BoxOf(upper, lower, j, checkV))
    ensures Matches(c, BoxOf(upper, lower, j, checkV), i) <==> PixelInRow(c, upper, lower, j, checkV, i)
  {
  }

  /** Record j of a successful batch is the record of box j, the bounds of row j. */
  lemma BatchRecordOf(c: Channels, upper: BoundMatrix, lower: BoundMatrix, w: int, checkV: bool, j: nat)
    requires Admissible(c, upper, lower, w, checkV)
    requires Batch(c, upper, lower, w, checkV).Ok?
    requires j < |upper.cells|
    ensures CheckShapes(upper.cols, lower.cols, checkV).None? && j < |lower.cells|
    ensures Batch(c, upper, lower, w, checkV).value[j] == RecordOf(c, BoxOf(upper, lower, j, checkV), w)
  {
  }

  /**
   Coordinates, order and count of a box's record: every row lies in 1..w,
   every column is at least 1, the count is the number of pairs, at most the
   pixel count, and the pairs decode to exactly the matching flat indices, so
   the decoded indices are below N and strictly increasing.
   */
  lemma RecordCoordinates(c: Channels, box: Box, w: nat)
    requires w > 0 && Readable(c, box)
    ensures var r := RecordOf(c, box, w);
      && r.count == |r.rows| == |r.cols| <= |c.H|
      && (forall k :: 0 <= k < |r.rows| ==> 1 <= r.rows[k] <= w && 1 <= r.cols[k])
      && Decode(r.rows, r.cols, w, 1) == MatchedPixels(c, box)
      && StrictlyIncreasing(Decode(r.rows, r.cols, w, 1))
      && (forall k :: 0 <= k < |r.rows| ==> 0 <= FlatIndex(r.rows[k], r.cols[k], w, 1) < |c.H|)
  {
    var idx := MatchedPixels(c, box);
    var r := RecordOf(c, box, w);
    DecodeCoordinates(idx, w, 1);
    forall k | 0 <= k < |r.rows|
      ensures 0 <= FlatIndex(r.rows[k], r.cols[k], w, 1) < |c.H|
    {
      assert FlatIndex(r.rows[k], r.cols[k], w, 1) == Decode(r.rows, r.cols, w, 1)[k];
    }
  }

  /**
   The fraction of a box's record is count / N and lies in [0, 1]; for an
   empty image the count is 0 and the fraction is NaN.
   */
  lemma RecordFraction(c: Channels, box: Box, w: nat)
    requires w > 0 && Readable(c, box)
    ensures var r := RecordOf(c, box, w);
      && (|c.H| == 0 ==> r.count == 0 && r.fraction == NotANumber)
      && (|c.H| > 0 ==> r.fraction == Share(r.count as real / |c.H| as real)
                        && 0.0 <= r.fraction.value <= 1.0)
  {
    var r := RecordOf(c, box, w);
    if |c.H| > 0 {
      FractionInUnitRange(r.count, |c.H|);
    }
  }

  lemma FractionInUnitRange(n: nat, total: nat)
    requires 0 < total && n <= total
    ensures 0.0 <= n as real / total as real <= 1.0
  {
  }

  /**
   Box independence: record j of a batch is the single record of a call with
   only row j of each bound matrix.
   */
  lemma BatchIndependence(c: Channels, upper: BoundMatrix, lower: BoundMatrix, w: int, checkV: bool, j: nat)
    requires Admissible(c, upper, lower, w, checkV)
    requires Batch(c, upper, lower, w, checkV).Ok?
    requires j < |upper.cells|
    ensures j < |lower.cells|
    ensures Admissible(c, upper.Row(j), lower.Row(j), w, checkV)
    ensures Batch(c, upper.Row(j), lower.Row(j), w, checkV)
            == Ok([Batch(c, upper, lower, w, checkV).value[j]])
  {
    var one := Batch(c, upper.Row(j), lower.Row(j), w, checkV);
    assert BoxOf(upper.Row(j), lower.Row(j), 0, checkV) == BoxOf(upper, lower, j, checkV);
    assert one.value == [Batch(c, upper, lower, w, checkV).value[j]];
  }

  /**
   A 2 x 2 image with hue and saturation both (0.1, 0.5, 0.9, 0.5), scanned
   against the one box [0, 0.6] x [0, 0.6]. Pixels 0, 1 and 3 match, at (1, 1),
   (2, 1) and (2, 2); three of four pixels is a fraction of 0.75.
   */
  lemma WorkedExample()
    ensures var c := Channels([0.1, 0.5, 0.9, 0.5], [0.1, 0.5, 0.9, 0.5], []);
      var upper := BoundMatrix(2, [[0.6, 0.6]]);
      var lower := BoundMatrix(2, [[0.0, 0.0]]);
      && Admissible(c, upper, lower, 2, false)
      && Batch(c, upper, lower, 2, false) == Ok([Record([1, 2, 2], [1, 1, 2], 3, Share(0.75))])
  {
    var c := Channels([0.1, 0.5, 0.9, 0.5], [0.1, 0.5, 0.9, 0.5], []);
    var upper := BoundMatrix(2, [[0.6, 0.6]]);
    var lower := BoundMatrix(2, [[0.0, 0.0]]);
    var box := Box(Interval(0.0, 0.6), Interval(0.0, 0.6), None);
    ExampleBatch(c, upper, lower, box);
  }

  lemma ExampleBatch(c: Channels, upper: BoundMatrix, lower: BoundMatrix, box: Box)
    requires c == Channels([0.1, 0.5, 0.9, 0.5], [0.1, 0.5, 0.9, 0.5], [])
    requires upper == BoundMatrix(2, [[0.6, 0.6]]) && lower == BoundMatrix(2, [[0.0, 0.0]])
    requires box == Box(Interval(0.0, 0.6), Interval(0.0, 0.6), None)
    ensures Admissible(c, upper, lower, 2, false)
    ensures Batch(c, upper, lower, 2, false) == Ok([Record([1, 2, 2], [1, 1, 2], 3, Share(0.75))])
  {
    assert Admissible(c, upper, lower, 2, false);
    assert BoxOf(upper, lower, 0, false) == box;
    ExampleMatches(c, box);
    ExampleRecord(c, box);
    SingleRowBatch(c, upper, lower, 2, false);
  }

  /** A matrix pair of one admissible row gives the one record of that row's box. */
  lemma SingleRowBatch(c: Channels, upper: BoundMatrix, lower: BoundMatrix, w: int, checkV: bool)
    requires Admissible(c, upper, lower, w, checkV) && |upper.cells| == 1
    requires CheckShapes(upper.cols, lower.cols, checkV).None?
    ensures Batch(c, upper, lower, w, checkV) == Ok([RecordOf(c, BoxOf(upper, lower, 0, checkV), w)])
  {
    var res := Batch(c, upper, lower, w, checkV);
    assert res.value[0] == RecordOf(c, BoxOf(upper, lower, 0, checkV), w);
    assert res.value == [res.value[0]];
  }

  lemma ExampleMatches(c: Channels, box: Box)
    requires c == Channels([0.1, 0.5, 0.9, 0.5], [0.1, 0.5, 0.9, 0.5], [])
    requires box == Box(Interval(0.0, 0.6), Interval(0.0, 0.6), None)
    ensures MatchedPixels(c, box) == [0, 1, 3]
  {
    ExampleFirstColumn(c, box);
    assert !Matches(c, box, 2) && Matches(c, box, 3);
    assert MatchesBelow(c, box, 3) == [0, 1];
  }

  lemma ExampleFirstColumn(c: Channels, box: Box)
    requires c == Channels([0.1, 0.5, 0.9, 0.5], [0.1, 0.5, 0.9, 0.5], [])
    requires box == Box(Interval(0.0, 0.6), Interval(0.0, 0.6), None)
    ensures MatchesBelow(c, box, 2) == [0, 1]
  {
    assert Matches(c, box, 0) && Matches(c, box, 1);
    assert MatchesBelow(c, box, 1) == [0];
  }

  lemma ExampleRecord(c: Channels, box: Box)
    requires |c.H| == 4 && Readable(c, box) && MatchedPixels(c, box) == [0, 1, 3]
    ensures RecordOf(c, box, 2) == Record([1, 2, 2], [1, 1, 2], 3, Share(0.75))
  {
    ExampleCoordinates();
    ExampleFraction();
  }

  lemma ExampleCoordinates()
    ensures RowsOf([0, 1, 3], 2, 1) == [1, 2, 2] && ColsOf([0, 1, 3], 2, 1) == [1, 1, 2]
  {
    var rows, cols := RowsOf([0, 1, 3], 2, 1), ColsOf([0, 1, 3], 2, 1);
    assert rows[0] == 1 && rows[1] == 2 && rows[2] == 2;
    assert cols[0] == 1 && cols[1] == 1 && cols[2] == 2;
  }

  lemma ExampleFraction()
    ensures FractionOf(3, 4) == Share(0.75)
  {
    assert 3 as real / 4 as real == 0.75;
  }
}
