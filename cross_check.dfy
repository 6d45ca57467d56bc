/**
 The two scanners side by side: on one box with the value check off, the
 batch scanner's record holds the single-box scanner's coordinates shifted
 from 0-based to 1-based.
 */
module CrossCheck {
  import opened PixelScan
  import opened IterOnce
  import opened SingleBox

  lemma {:induction false} OneBoxAgreement(H: seq<real>, S: seq<real>, V: seq<real>,
                                           upper: seq<real>, lower: seq<real>, w: int)
    requires w > 0 && |S| >= |H|
    requires AdmissibleCols(|upper|, false) && AdmissibleCols(|lower|, false)
    ensures Admissible(Channels(H, S, V), BoundMatrix(|upper|, [upper]), BoundMatrix(|lower|, [lower]), w, false)
    ensures var res := Batch(Channels(H, S, V), BoundMatrix(|upper|, [upper]), BoundMatrix(|lower|, [lower]), w, false);
      var found := Found(H, S, upper, lower);
      var row, col := RowsOf(found, w, 0), ColsOf(found, w, 0);
      && res.Ok? && |res.value| == 1
      && |res.value[0].rows| == |row| && |res.value[0].cols| == |col|
      && (forall k :: 0 <= k < |row| ==> res.value[0].rows[k] == row[k] + 1)
      && (forall k :: 0 <= k < |col| ==> res.value[0].cols[k] == col[k] + 1)
  {
    var c := Channels(H, S, V);
    var up, lo := BoundMatrix(|upper|, [upper]), BoundMatrix(|lower|, [lower]);
    assert Admissible(c, up, lo, w, false);
    var box := HSBox(upper, lower);
    assert BoxOf(up, lo, 0, false) == box;
    MatchesIgnoreV(Channels(H, S, []), box, V, |H|);
    assert MatchedPixels(c, box) == Found(H, S, upper, lower);
    var res := Batch(c, up, lo, w, false);
    assert res.value[0] == RecordOf(c, box, w);
  }
}
