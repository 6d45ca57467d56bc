# Rectangular HSV range scan

A Dafny model of the pixel-classification engine of the duflor R package. An
image arrives as three parallel channel arrays (hue H, saturation S, value V)
of a column-major flattened image whose columns have height `image_width`.
A bound box is a closed interval per channel. A pixel belongs to a box when
every checked channel value lies in its interval, both ends included.

Two scanners are modelled:

- `rectangularRange_HSV_iteronce_cpp` (module `IterOnce`, file `iteronce.dfy`):
  the batch scanner. Each row of the `lower_bound` / `upper_bound` matrices is
  one box. The column counts are checked first: exactly 3 with `check_V`,
  otherwise 2 or 3. Then, for each box, one pass over the pixels collects the
  1-based coordinates `row = i % w + 1`, `col = i / w + 1` of the matching
  pixels. Each box yields one record: the row and column vectors, the match
  count and the fraction `count / N`.
- `rectangularRange_HSV_cpp` (module `SingleBox`, file `single_box.dfy`): the
  older single-box scanner. It checks H and S only and returns 0-based row and
  column vectors.

Module `PixelScan` (`pixel_scan.dfy`) holds what both share: the membership
test `Matches`, the ascending list of matching flat indices `MatchesBelow`,
and the flat-index-to-coordinate conversions `RowsOf` / `ColsOf` with their
inverse `Decode`. Module `CrossCheck` (`cross_check.dfy`) relates the two
scanners.

Both scanners are methods with the source's loops, with sequences that grow
by appending, as the source's `push_back` does. The batch scanner has a `for`
over boxes and, for each box, a `for` over pixels; the single-box scanner has
one `for` over pixels. In the batch scanner the pixel loop of one box
is its own method, `IterOnce.ScanBox`, called once per box. Each method is
proved equal to a specification function (`IterOnce.Batch`, `SingleBox.Found`
with `RowsOf` / `ColsOf`). The lemmas about those functions state what the
scanners promise.

Channel values and bounds are `real`: the source only compares them with `<=`.
The fraction is a `real` quotient. For an empty image the source computes
0.0 / 0, which is NaN; the model returns `Fraction.NotANumber` instead of
excluding that input.

Preconditions, each a demand the source makes of its callers without checking it:

- `image_width > 0`, because both scanners divide by it.
- `S`, and `V` when it is checked, are at least as long as `H`. The pixel count is `H.size()`.
- The bound matrices are rectangular, as an R numeric matrix always is.
- The iteronce scanner needs at least as many `lower_bound` rows as `upper_bound` rows. This applies only once the column check passes: a failing check stops before any bound is read.
- The single-box scanner needs bound vectors of at least 2 elements. It reads elements 0 and 1 unchecked.

Facts about the code that the model keeps:

- Each bound matrix's column count is checked on its own; nothing compares the two. With `check_V` off, a 2-column lower and a 3-column upper matrix pass.
- The column check sits inside the loop over boxes, so with no boxes nothing is checked and the result is an empty list.
- `rectangularRange_HSV_cpp` returns 0-based coordinates, validates neither the bound vectors nor the width, and never reads `V`.
- There is no error for an empty image: with boxes present each record has count 0 and the fraction 0.0 / 0, which is NaN.
- On a 2-pixel-wide image with H = S = (0.1, 0.5, 0.9, 0.5) and the box [0, 0.6] x [0, 0.6], pixels 0, 1 and 3 match, at (1,1), (2,1) and (2,2), with fraction 0.75. `IterOnce.WorkedExample` proves this.

## Model

| member | source | states |
|---|---|---|
| `PixelScan.Matches` | src/rectangularRange_HSV_iteronce_cpp.cpp:96-98 | a pixel matches when each checked channel value lies in its closed interval; a match implies every checked interval is non-empty, so a box with lo > hi on a checked channel matches nothing |
| `PixelScan.MatchesBelow` | src/rectangularRange_HSV_iteronce_cpp.cpp:93-113 | the pixels collected by a forward scan up to n are exactly the matching pixels below n, each once, in strictly increasing order, no more than n of them |
| `PixelScan.RowsOf` | src/rectangularRange_HSV_iteronce_cpp.cpp:99 | a row coordinate `i % w + base` lies in `base .. base + w - 1`; one row per matched pixel |
| `PixelScan.ColsOf` | src/rectangularRange_HSV_iteronce_cpp.cpp:100 | a column coordinate `i / w + base` is at least base; one column per matched pixel |
| `PixelScan.CoordinatesInvert` | src/rectangularRange_HSV_iteronce_cpp.cpp:99-100 | `(col - base) * w + (row - base)` gives back the flat index i, for base 1 and base 0 alike |
| `PixelScan.DecodeCoordinates` | src/rectangularRange_HSV_iteronce_cpp.cpp:99-102 | decoding the row and column vectors of a list of flat indices gives that list back |
| `PixelScan.CoordinatesListed` | src/rectangularRange_HSV_iteronce_cpp.cpp:99-102 | pixel i's coordinate pair is among the recorded pairs exactly when i is among the matched flat indices |
| `PixelScan.ScanStep` | src/rectangularRange_HSV_iteronce_cpp.cpp:106-111 | one loop step appends the pixel's row and column exactly when the pixel matches, and appends nothing otherwise |
| `PixelScan.MatchesIgnoreV` | src/rectangularRange_HSV_cpp.cpp:31-47 | when the box does not check V, the matched pixels are the same for every value array |
| `PixelScan.NoMatchIsEmpty` | src/rectangularRange_HSV_iteronce_cpp.cpp:23 | the matched list is empty exactly when no pixel lies in the box |
| `IterOnce.CheckShapes` | src/rectangularRange_HSV_iteronce_cpp.cpp:70-84 | the check passes iff both column counts are 3 (check_V) or each is 2 or 3 (no check_V); an upper-bound error is reported whenever upper_bound is wrong; the "3 values" errors arise exactly under check_V |
| `IterOnce.BoxOf` | src/rectangularRange_HSV_iteronce_cpp.cpp:86-91 | box j has a V interval exactly when check_V is set, so the V bounds of column 2 are consulted only then |
| `IterOnce.FractionOf` | src/rectangularRange_HSV_iteronce_cpp.cpp:126-127 | `n / hs` is NaN exactly when hs is 0; otherwise the share times hs gives n back, and lies in [0, 1] when n <= hs |
| `IterOnce.RecordOf` | src/rectangularRange_HSV_iteronce_cpp.cpp:116-141 | a box's record: count = number of rows = number of columns, at most N; the (row, col) pairs decode to exactly the matching flat indices; the fraction is count over N |
| `IterOnce.Batch` | src/rectangularRange_HSV_iteronce_cpp.cpp:59-147 | the result is an error iff there is at least one box and a column count is inadmissible; otherwise one record per box, each with count at most N |
| `IterOnce.ScanBox` | src/rectangularRange_HSV_iteronce_cpp.cpp:93-114 | the pixel loop for one box returns the 1-based rows and columns of exactly the pixels inside the box (V interval only under check_V), in increasing pixel order |
| `IterOnce.RectangularRange` | src/rectangularRange_HSV_iteronce_cpp.cpp:52-147 | the nested scan returns exactly `Batch`: the shape error, or one record per box in box order, each record built from that box's matching pixels |
| `IterOnce.BatchShape` | src/rectangularRange_HSV_iteronce_cpp.cpp:62-84 | no rows gives an empty list and no check; with rows, each bad column count gives its own error and no records, upper_bound first; the result is Ok iff there are no rows or both column counts are admissible; Ok holds one record per row |
| `IterOnce.BatchMembership` | src/rectangularRange_HSV_iteronce_cpp.cpp:93-113 | pixel i's pair `(i % w + 1, i / w + 1)` appears in record j iff `lower(j,0) <= H[i] <= upper(j,0)`, `lower(j,1) <= S[i] <= upper(j,1)` and, under check_V, `lower(j,2) <= V[i] <= upper(j,2)` |
| `IterOnce.BatchNoMatch` | src/rectangularRange_HSV_iteronce_cpp.cpp:23 | record j's count is 0, an empty index matrix and not an error, iff no pixel lies in box j |
| `IterOnce.BatchRecordOf` | src/rectangularRange_HSV_iteronce_cpp.cpp:86-144 | record j of a successful batch is the record of box j, built from row j of the bound matrices |
| `IterOnce.RecordCoordinates` | src/rectangularRange_HSV_iteronce_cpp.cpp:99-120 | in a box's record: count = number of rows = number of columns, at most N; rows in 1..w and columns at least 1; the pairs decode to exactly the matching flat indices, so the decoded indices are below N and strictly increasing |
| `IterOnce.RecordFraction` | src/rectangularRange_HSV_iteronce_cpp.cpp:126-127 | the fraction is count / N within [0, 1]; for an empty image the count is 0 and the fraction NaN |
| `IterOnce.FractionInUnitRange` | src/rectangularRange_HSV_iteronce_cpp.cpp:126-127 | `n / N` lies in [0, 1] whenever `0 <= n <= N` and `N > 0` |
| `IterOnce.BatchIndependence` | src/rectangularRange_HSV_iteronce_cpp.cpp:62-145 | record j of a batch equals the single record of a call given only row j of both bound matrices |
| `IterOnce.WorkedExample` | src/rectangularRange_HSV_iteronce_cpp.cpp:93-141 | on the 2 x 2 example with box [0, 0.6] x [0, 0.6], the result is one record with rows (1, 2, 2), columns (1, 1, 2), count 3 and fraction 0.75 |
| `SingleBox.HSBox` | src/rectangularRange_HSV_cpp.cpp:41-42 | the single-box scan checks no V interval |
| `SingleBox.Found` | src/rectangularRange_HSV_cpp.cpp:40-48 | the scanned indices are exactly the pixels whose H and S lie in elements 0 and 1 of the bounds, each below N, strictly increasing |
| `SingleBox.RectangularRange` | src/rectangularRange_HSV_cpp.cpp:31-51 | the loop returns the 0-based rows `i % w` and columns `i / w` of exactly the H/S-matching pixels, in scan order; V is never consulted |
| `SingleBox.FoundMembership` | src/rectangularRange_HSV_cpp.cpp:40-46 | pixel i's pair `(i % w, i / w)` is in the output iff `lower[0] <= H[i] <= upper[0]` and `lower[1] <= S[i] <= upper[1]` |
| `SingleBox.FoundEmpty` | src/rectangularRange_HSV_cpp.cpp:38-50 | both outputs are empty exactly when no pixel lies in the H/S box |
| `SingleBox.FoundCoordinates` | src/rectangularRange_HSV_cpp.cpp:38-46 | row and col have equal length, at most N; rows lie in 0..w-1 and columns are non-negative |
| `SingleBox.FoundOrder` | src/rectangularRange_HSV_cpp.cpp:40-46 | `col * w + row` gives back exactly the matching flat indices, below N and strictly increasing |
| `SingleBox.FoundIgnoresExtraBounds` | src/rectangularRange_HSV_cpp.cpp:41-42 | bound vectors that agree in elements 0 and 1 give the same result, whatever follows them |
| `CrossCheck.OneBoxAgreement` | src/rectangularRange_HSV_cpp.cpp:43-44 | for one box of 2 or 3 columns with check_V off, the batch scanner succeeds with one record whose rows and columns are the single-box scanner's plus 1 |

## Left out

- R marshalling: the `IntegerMatrix` with column names "x" and "y", the named list entries and the `DataFrame`. A record is a datatype of a row vector, a column vector, the count and the fraction.
- `stop()` raises an R error. The model returns `Err` with one `ShapeError` per message instead.
- IEEE double semantics: channel values and bounds are reals, so NaN comparisons and signed zeros are not modelled. The fraction is the exact quotient `count / N`, and `NotANumber` stands for 0.0 / 0.
- 32-bit integers: `int repetitions = H.size()` and the loop indices are C++ `int`. The model uses unbounded integers, so images of 2^31 pixels or more are not modelled.
- The `reserve` calls and the commented-out debug output have no effect on results.
- The read of bound column 2 for 2-column matrices is out of range in the source. The model reads the V bounds only under `check_V`, where the column exists.
- Channel arrays are read-only in both scanners and are modelled as sequences. The growing `std::vector`s are sequences that the loops extend.
- Image loading, HSV conversion and the default spectrums from package options belong to the R side. They are not part of this model.
