/**
 The pixel-classification vocabulary shared by both scanners: the three
 parallel channel arrays of a column-major flattened image, a box of closed
 per-channel intervals, the membership test of one pixel against a box, the
 ascending list of matching flat indices, and the conversion of a flat index
 into a (row, column) pair.
 */
module PixelScan {

  datatype Option<T> = None | Some(value: T)

  /** The closed interval [lo, hi] on one channel; empty when lo > hi. */
  datatype Interval = Interval(lo: real, hi: real) {
    predicate Contains(x: real) {
      lo <= x && x <= hi
    }
  }

  /**
   A bound box: a hue and a saturation interval, and a value interval only
   when the value channel is checked.
   */
  datatype Box = Box(h: Interval, s: Interval, v: Option<Interval>)

  /** The hue, saturation and value arrays, one entry per pixel. */
  datatype Channels = Channels(H: seq<real>, S: seq<real>, V: seq<real>)

  /** The pixel count is the length of H; every array the box consults is at least as long. */
  predicate Readable(c: Channels, box: Box) {
    |c.S| >= |c.H| && (box.v.Some? ==> |c.V| >= |c.H|)
  }

  /**
   Pixel i lies in every checked interval of the box, both ends included;
   so a box with an empty checked interval matches no pixel.
   */
  predicate Matches(c: Channels, box: Box, i: nat): (m: bool)
    requires Readable(c, box) && i < |c.H|
    ensures m ==> box.h.lo <= box.h.hi && box.s.lo <= box.s.hi
    ensures m && box.v.Some? ==> box.v.value.lo <= box.v.value.hi
  {
    && box.h.Contains(c.H[i])
    && box.s.Contains(c.S[i])
    && (box.v.Some? ==> box.v.value.Contains(c.V[i]))
  }

  predicate StrictlyIncreasing(s: seq<int>) {
    forall k, l :: 0 <= k < l < |s| ==> s[k] < s[l]
  }

  /**
   The flat indices below n of the pixels that match, in the order a forward
   scan appends them.
   */
  function MatchesBelow(c: Channels, box: Box, n: nat): (r: seq<nat>)
    requires Readable(c, box) && n <= |c.H|
    ensures |r| <= n
    ensures forall k :: 0 <= k < |r| ==> r[k] < n && Matches(c, box, r[k])
    ensures forall i :: 0 <= i < n && Matches(c, box, i) ==> i in r
    ensures StrictlyIncreasing(r)
  {
    if n == 0 then []
    else MatchesBelow(c, box, n - 1) + (if Matches(c, box, n - 1) then [n - 1] else [])
  }

  /** All matching pixels of the image. */
  function MatchedPixels(c: Channels, box: Box): seq<nat>
    requires Readable(c, box)
  {
    MatchesBelow(c, box, |c.H|)
  }

  /** Row coordinate of each flat index: the position inside its column, counted from base. */
  function RowsOf(idx: seq<nat>, w: nat, base: int): (rows: seq<int>)
    requires w > 0
    ensures |rows| == |idx|
    ensures forall k :: 0 <= k < |idx| ==> base <= rows[k] < base + w
  {
    seq(|idx|, k requires 0 <= k < |idx| => idx[k] % w + base)
  }

  /** Column coordinate of each flat index: which column of height w holds it, counted from base. */
  function ColsOf(idx: seq<nat>, w: nat, base: int): (cols: seq<int>)
    requires w > 0
    ensures |cols| == |idx|
    ensures forall k :: 0 <= k < |idx| ==> base <= cols[k]
  {
    seq(|idx|, k requires 0 <= k < |idx| => idx[k] / w + base)
  }

  /** The flat index that a (row, col) pair counted from base stands for. */
  function FlatIndex(row: int, col: int, w: nat, base: int): int {
    (col - base) * w + (row - base)
  }

  /** Flat indices reconstructed from parallel row and column vectors. */
  function Decode(rows: seq<int>, cols: seq<int>, w: nat, base: int): (flat: seq<int>)
    requires |rows| == |cols|
    ensures |flat| == |rows|
  {
    seq(|rows|, k requires 0 <= k < |rows| => FlatIndex(rows[k], cols[k], w, base))
  }

  /** A flat index survives the trip to (row, col) and back, whatever the base. */
  lemma CoordinatesInvert(i: nat, w: nat, base: int)
    requires w > 0
    ensures FlatIndex(i % w + base, i / w + base, w, base) == i
  {
  }

  /** Decoding the coordinates of a list of flat indices gives the list back. */
  lemma DecodeCoordinates(idx: seq<nat>, w: nat, base: int)
    requires w > 0
    ensures Decode(RowsOf(idx, w, base), ColsOf(idx, w, base), w, base) == idx
  {
    var flat := Decode(RowsOf(idx, w, base), ColsOf(idx, w, base), w, base);
    forall k | 0 <= k < |idx|
      ensures flat[k] == idx[k]
    {
      CoordinatesInvert(idx[k], w, base);
    }
  }

  /** Pixel i's coordinate pair is listed exactly when i itself is listed. */
  lemma CoordinatesListed(idx: seq<nat>, w: nat, base: int, i: nat)
    requires w > 0
    ensures var rows, cols := RowsOf(idx, w, base), ColsOf(idx, w, base);
      (exists k :: 0 <= k < |idx| && rows[k] == i % w + base && cols[k] == i / w + base) <==> i in idx
  {
    var rows, cols := RowsOf(idx, w, base), ColsOf(idx, w, base);
    if k :| 0 <= k < |idx| && rows[k] == i % w + base && cols[k] == i / w + base {
      CoordinatesInvert(idx[k], w, base);
      CoordinatesInvert(i, w, base);
    }
    if i in idx {
      var k :| 0 <= k < |idx| && idx[k] == i;
      assert rows[k] == i % w + base && cols[k] == i / w + base;
    }
  }

  /** Appending a flat index appends its row. */
  lemma RowsOfAppend(idx: seq<nat>, i: nat, w: nat, base: int)
    requires w > 0
    ensures RowsOf(idx + [i], w, base) == RowsOf(idx, w, base) + [i % w + base]
  {
  }

  /** Appending a flat index appends its column. */
  lemma ColsOfAppend(idx: seq<nat>, i: nat, w: nat, base: int)
    requires w > 0
    ensures ColsOf(idx + [i], w, base) == ColsOf(idx, w, base) + [i / w + base]
  {
  }

  /** One step of a forward scan appends the pixel's coordinates exactly when it matches. */
  lemma ScanStep(c: Channels, box: Box, i: nat, w: nat, base: int)
    requires w > 0 && Readable(c, box) && i < |c.H|
    ensures var found := MatchesBelow(c, box, i);
      && RowsOf(MatchesBelow(c, box, i + 1), w, base)
         == RowsOf(found, w, base) + (if Matches(c, box, i) then [i % w + base] else [])
      && ColsOf(MatchesBelow(c, box, i + 1), w, base)
         == ColsOf(found, w, base) + (if Matches(c, box, i) then [i / w + base] else [])
  {
    var found := MatchesBelow(c, box, i);
    if Matches(c, box, i) {
      assert MatchesBelow(c, box, i + 1) == found + [i];
      RowsOfAppend(found, i, w, base);
      ColsOfAppend(found, i, w, base);
    } else {
      assert MatchesBelow(c, box, i + 1) == found;
    }
  }

  /**
   Whether a pixel matches depends on the value array only when the box
   checks the value channel; an H/S box finds the same pixels whatever V is.
   */
  lemma {:induction false} MatchesIgnoreV(c: Channels, box: Box, V': seq<real>, n: nat)
    requires box.v.None? && Readable(c, box) && n <= |c.H|
    ensures MatchesBelow(c, box, n) == MatchesBelow(c.(V := V'), box, n)
  {
    if n > 0 {
      MatchesIgnoreV(c, box, V', n - 1);
    }
  }

  /** The matched list is empty exactly when no pixel matches. */
  lemma NoMatchIsEmpty(c: Channels, box: Box)
    requires Readable(c, box)
    ensures MatchedPixels(c, box) == [] <==> forall i :: 0 <= i < |c.H| ==> !Matches(c, box, i)
  {
    var r := MatchedPixels(c, box);
    if r != [] {
      assert Matches(c, box, r[0]);
    }
  }
}
