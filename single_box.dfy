/**
 The older single-box scanner rectangularRange_HSV_cpp: hue and saturation
 only, one box given as two bound vectors, 0-based row and column vectors.
 */
module SingleBox {
  import opened PixelScan

  /** The box of elements 0 (hue) and 1 (saturation) of the bound vectors. */
  function HSBox(upper: seq<real>, lower: seq<real>): (box: Box)
    requires |upper| >= 2 && |lower| >= 2
    ensures box.v.None?
  {
    Box(Interval(lower[0], upper[0]), Interval(lower[1], upper[1]), None)
  }

  /**
   The flat indices of the pixels in the H/S box, in scan order: each one a
   pixel whose hue and saturation lie in the bounds, every such pixel once,
   strictly increasing. The value array plays no part, so it is left empty here.
   */
  function Found(H: seq<real>, S: seq<real>, upper: seq<real>, lower: seq<real>): (r: seq<nat>)
    requires |S| >= |H| && |upper| >= 2 && |lower| >= 2
    ensures forall k :: 0 <= k < |r| ==>
              r[k] < |H| && lower[0] <= H[r[k]] <= upper[0] && lower[1] <= S[r[k]] <= upper[1]
    ensures forall i :: 0 <= i < |H| && lower[0] <= H[i] <= upper[0] && lower[1] <= S[i] <= upper[1]
              ==> i in r
    ensures StrictlyIncreasing(r)
  {
    MatchedPixels(Channels(H, S, []), HSBox(upper, lower))
  }

  /** rectangularRange_HSV_cpp; V is accepted and never read. */
  method RectangularRange(H: seq<real>, S: seq<real>, V: seq<real>,
                          upper: seq<real>, lower: seq<real>, width: int)
    returns (row: seq<int>, col: seq<int>)
    requires width > 0 && |S| >= |H|
    requires |upper| >= 2 && |lower| >= 2
    ensures row == RowsOf(Found(H, S, upper, lower), width, 0)
    ensures col == ColsOf(Found(H, S, upper, lower), width, 0)
  {
    ghost var c := Channels(H, S, []);
    ghost var box := HSBox(upper, lower);
    var repetitions := |H|;
    var rowIndices: seq<int> := [];
    var colIndices: seq<int> := [];
    for i := 0 to repetitions
      invariant rowIndices == RowsOf(MatchesBelow(c, box, i), width, 0)
      invariant colIndices == ColsOf(MatchesBelow(c, box, i), width, 0)
    {
      if lower[0] <= H[i] && H[i] <= upper[0]
         && lower[1] <= S[i] && S[i] <= upper[1]
      {
        rowIndices := rowIndices + [i % width];
        colIndices := colIndices + [i / width];
      }
      ScanStep(c, box, i, width, 0);
    }
    return rowIndices, colIndices;
  }

  /**
   Membership: pixel i's 0-based pair is among the outputs exactly when its
   hue lies in [lower[0], upper[0]] and its saturation in [lower[1], upper[1]].
   */
  lemma FoundMembership(H: seq<real>, S: seq<real>, upper: seq<real>, lower: seq<real>, w: nat, i: nat)
    requires w > 0 && |S| >= |H| && |upper| >= 2 && |lower| >= 2 && i < |H|
    ensures var found := Found(H, S, upper, lower);
      var row, col := RowsOf(found, w, 0), ColsOf(found, w, 0);
      (exists k :: 0 <= k < |row| && row[k] == i % w && col[k] == i / w)
      <==> lower[0] <= H[i] <= upper[0] && lower[1] <= S[i] <= upper[1]
  {
    var c := Channels(H, S, []);
    var box := HSBox(upper, lower);
    assert Matches(c, box, i) <==> lower[0] <= H[i] <= upper[0] && lower[1] <= S[i] <= upper[1];
    CoordinatesListed(Found(H, S, upper, lower), w, 0, i);
  }

  /** No pixel in the box yields two empty vectors, and only then. */
  lemma FoundEmpty(H: seq<real>, S: seq<real>, upper: seq<real>, lower: seq<real>)
    requires |S| >= |H| && |upper| >= 2 && |lower| >= 2
    ensures Found(H, S, upper, lower) == [] <==> forall p :: 0 <= p < |H| ==>
              !(lower[0] <= H[p] <= upper[0] && lower[1] <= S[p] <= upper[1])
  {
    var c := Channels(H, S, []);
    var box := HSBox(upper, lower);
    NoMatchIsEmpty(c, box);
    forall p | 0 <= p < |H|
      ensures Matches(c, box, p) <==> lower[0] <= H[p] <= upper[0] && lower[1] <= S[p] <= upper[1]
    {
    }
  }

  /**
   Coordinates and lengths: both vectors have one length, at most the pixel
   count; rows lie in 0..w-1 and columns are non-negative.
   */
  lemma FoundCoordinates(H: seq<real>, S: seq<real>, upper: seq<real>, lower: seq<real>, w: nat)
    requires w > 0 && |S| >= |H| && |upper| >= 2 && |lower| >= 2
    ensures var found := Found(H, S, upper, lower);
      var row, col := RowsOf(found, w, 0), ColsOf(found, w, 0);
      && |row| == |col| <= |H|
      && (forall k :: 0 <= k < |row| ==> 0 <= row[k] < w && 0 <= col[k])
  {
    var found := Found(H, S, upper, lower);
    assert |found| <= |H|;
  }

  /**
   Order: col * w + row gives back each matching pixel's flat index, in
   strictly increasing order and below the pixel count.
   */
  lemma FoundOrder(H: seq<real>, S: seq<real>, upper: seq<real>, lower: seq<real>, w: nat)
    requires w > 0 && |S| >= |H| && |upper| >= 2 && |lower| >= 2
    ensures var found := Found(H, S, upper, lower);
      var row, col := RowsOf(found, w, 0), ColsOf(found, w, 0);
      && Decode(row, col, w, 0) == found
      && StrictlyIncreasing(Decode(row, col, w, 0))
      && (forall k :: 0 <= k < |row| ==> 0 <= col[k] * w + row[k] < |H|)
  {
    var found := Found(H, S, upper, lower);
    var row, col := RowsOf(found, w, 0), ColsOf(found, w, 0);
    DecodeCoordinates(found, w, 0);
    forall k | 0 <= k < |row|
      ensures 0 <= col[k] * w + row[k] < |H|
    {
      assert col[k] * w + row[k] == FlatIndex(row[k], col[k], w, 0) == Decode(row, col, w, 0)[k];
    }
  }

  /**
   Only the first two elements of each bound vector matter: bound vectors
   that agree on them give the same pixels, whatever follows.
   */
  lemma FoundIgnoresExtraBounds(H: seq<real>, S: seq<real>,
                                upper: seq<real>, lower: seq<real>,
                                upper': seq<real>, lower': seq<real>)
    requires |S| >= |H| && |upper| >= 2 && |lower| >= 2 && |upper'| >= 2 && |lower'| >= 2
    requires upper[..2] == upper'[..2] && lower[..2] == lower'[..2]
    ensures Found(H, S, upper, lower) == Found(H, S, upper', lower')
  {
    assert upper[0] == upper[..2][0] && upper[1] == upper[..2][1];
    assert lower[0] == lower[..2][0] && lower[1] == lower[..2][1];
  }
}
