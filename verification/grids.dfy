/**
 * Two-dimensional numpy arrays as used for glyph bitmaps: a boolean matrix
 * per glyph and a byte matrix per packed glyph. The shape is kept apart
 * from the rows so that a matrix with zero columns still has its height.
 */
module Grids {
  import opened Bits

  datatype Grid<T> = Grid(height: nat, width: nat, cells: seq<seq<T>>)

  /** numpy axis 0 runs along the rows (down a column), axis 1 along the columns (across a row). */
  datatype Axis = Rows | Cols

  predicate WellFormed<T>(g: Grid<T>)
  {
    |g.cells| == g.height && forall r :: 0 <= r < g.height ==> |g.cells[r]| == g.width
  }

  function Min(a: nat, b: nat): nat
  {
    if a <= b then a else b
  }

  /** Number of bytes that hold n bits. */
  function Ceil8(n: nat): nat
  {
    (n + 7) / 8
  }

  /** A height x width matrix filled with one value (numpy.full). */
  function Full<T>(height: nat, width: nat, v: T): (g: Grid<T>)
    ensures WellFormed(g) && g.height == height && g.width == width
    ensures forall r, c :: 0 <= r < height && 0 <= c < width ==> g.cells[r][c] == v
  {
    Grid(height, width, seq(height, _ => seq(width, _ => v)))
  }

  // ---------------------------------------------------------------------------
  // numpy.flip and numpy.invert
  // ---------------------------------------------------------------------------

  /** numpy.flip along one axis: the row order or the order inside every row is reversed. */
  function Flip<T>(g: Grid<T>, axis: Axis): (f: Grid<T>)
    requires WellFormed(g)
    ensures WellFormed(f) && f.height == g.height && f.width == g.width
    ensures forall r, c :: 0 <= r < g.height && 0 <= c < g.width ==>
      f.cells[r][c] == if axis == Rows then g.cells[g.height - 1 - r][c] else g.cells[r][g.width - 1 - c]
  {
    if axis == Rows then Grid(g.height, g.width, Reverse(g.cells))
    else Grid(g.height, g.width, seq(g.height, r requires 0 <= r < g.height => Reverse(g.cells[r])))
  }

  lemma GridEquality<T>(f: Grid<T>, g: Grid<T>)
    requires WellFormed(f) && WellFormed(g) && f.height == g.height && f.width == g.width
    requires forall r, c :: 0 <= r < g.height && 0 <= c < g.width ==> f.cells[r][c] == g.cells[r][c]
    ensures f == g
  {
    forall r | 0 <= r < g.height
      ensures f.cells[r] == g.cells[r]
    {
      assert forall c :: 0 <= c < g.width ==> f.cells[r][c] == g.cells[r][c];
    }
  }

  /** Flipping twice along the same axis restores the matrix. */
  lemma FlipTwice<T>(g: Grid<T>, axis: Axis)
    requires WellFormed(g)
    ensures Flip(Flip(g, axis), axis) == g
  {
    GridEquality(Flip(Flip(g, axis), axis), g);
  }

  /** numpy.invert on a boolean matrix: every pixel negated. */
  function Invert(g: Grid<bool>): (f: Grid<bool>)
    requires WellFormed(g)
    ensures WellFormed(f) && f.height == g.height && f.width == g.width
    ensures forall r, c :: 0 <= r < g.height && 0 <= c < g.width ==> f.cells[r][c] == !g.cells[r][c]
  {
    Grid(g.height, g.width, seq(g.height, r requires 0 <= r < g.height =>
      seq(g.width, c requires 0 <= c < g.width => !g.cells[r][c])))
  }

  lemma InvertTwice(g: Grid<bool>)
    requires WellFormed(g)
    ensures Invert(Invert(g)) == g
  {
    GridEquality(Invert(Invert(g)), g);
  }

  /** Flipping and inverting commute, so the order the command line applies them in is immaterial. */
  lemma FlipInvertCommute(g: Grid<bool>, axis: Axis)
    requires WellFormed(g)
    ensures Flip(Invert(g), axis) == Invert(Flip(g, axis))
  {
    GridEquality(Flip(Invert(g), axis), Invert(Flip(g, axis)));
  }

  // ---------------------------------------------------------------------------
  // numpy.packbits and numpy.unpackbits
  // ---------------------------------------------------------------------------

  /** The k-th group of eight elements of s; the last group may be shorter. */
  function Group<T>(s: seq<T>, k: nat): (grp: seq<T>)
    requires k < Ceil8(|s|)
    ensures 1 <= |grp| <= 8
    ensures forall j :: 0 <= j < |grp| ==> 8 * k + j < |s| && grp[j] == s[8 * k + j]
    ensures |grp| == Min(8, |s| - 8 * k)
  {
    s[8 * k .. Min(8 * k + 8, |s|)]
  }

  function PackLine(s: seq<bool>, order: BitOrder): (p: seq<Byte>)
    ensures |p| == Ceil8(|s|)
  {
    seq(Ceil8(|s|), k requires 0 <= k < Ceil8(|s|) => PackGroup(Group(s, k), order))
  }

  function Column<T>(g: Grid<T>, c: nat): (col: seq<T>)
    requires WellFormed(g) && c < g.width
    ensures |col| == g.height
    ensures forall r :: 0 <= r < g.height ==> col[r] == g.cells[r][c]
  {
    seq(g.height, r requires 0 <= r < g.height => g.cells[r][c])
  }

  /**
   * numpy.packbits(g, axis, bitorder): along Cols every row becomes Ceil8(width)
   * bytes; along Rows every column becomes Ceil8(height) bytes.
   */
  function Pack(g: Grid<bool>, axis: Axis, order: BitOrder): (p: Grid<Byte>)
    requires WellFormed(g)
    ensures WellFormed(p)
    ensures axis == Cols ==> p.height == g.height && p.width == Ceil8(g.width)
    ensures axis == Rows ==> p.height == Ceil8(g.height) && p.width == g.width
  {
    if axis == Cols then
      Grid(g.height, Ceil8(g.width), seq(g.height, r requires 0 <= r < g.height => PackLine(g.cells[r], order)))
    else
      Grid(Ceil8(g.height), g.width, seq(Ceil8(g.height), k requires 0 <= k < Ceil8(g.height) =>
        seq(g.width, c requires 0 <= c < g.width => PackGroup(Group(Column(g, c), k), order))))
  }

  /** Number of bytes of a matrix (numpy's size attribute). */
  function Size<T>(g: Grid<T>): nat
  {
    g.height * g.width
  }

  lemma PackBitCols(g: Grid<bool>, order: BitOrder, r: nat, c: nat)
    requires WellFormed(g) && r < g.height && c < g.width
    ensures BitOf(Pack(g, Cols, order).cells[r][c / 8], Pos(c % 8, order)) == g.cells[r][c]
  {
    assert Pack(g, Cols, order).cells[r][c / 8] == PackGroup(Group(g.cells[r], c / 8), order);
    PackGroupBits(Group(g.cells[r], c / 8), order, c % 8);
  }

  lemma PackBitRows(g: Grid<bool>, order: BitOrder, r: nat, c: nat)
    requires WellFormed(g) && r < g.height && c < g.width
    ensures BitOf(Pack(g, Rows, order).cells[r / 8][c], Pos(r % 8, order)) == g.cells[r][c]
  {
    assert Pack(g, Rows, order).cells[r / 8][c] == PackGroup(Group(Column(g, c), r / 8), order);
    PackGroupBits(Group(Column(g, c), r / 8), order, r % 8);
  }

  /** Where pixel (r, c) lands: pixel c of a row goes to byte c / 8, bit Pos(c % 8). */
  lemma PackBit(g: Grid<bool>, axis: Axis, order: BitOrder, r: nat, c: nat)
    requires WellFormed(g) && r < g.height && c < g.width
    ensures axis == Cols ==> BitOf(Pack(g, Cols, order).cells[r][c / 8], Pos(c % 8, order)) == g.cells[r][c]
    ensures axis == Rows ==> BitOf(Pack(g, Rows, order).cells[r / 8][c], Pos(r % 8, order)) == g.cells[r][c]
  {
    if axis == Cols {
      PackBitCols(g, order, r, c);
    } else {
      PackBitRows(g, order, r, c);
    }
  }

  /** Bits past the end of the matrix are zero. */
  lemma PackPadding(g: Grid<bool>, order: BitOrder, r: nat, k: nat, j: nat)
    requires WellFormed(g) && r < g.height && k < Ceil8(g.width) && j < 8
    requires 8 * k + j >= g.width
    ensures !BitOf(Pack(g, Cols, order).cells[r][k], Pos(j, order))
  {
    PackGroupBits(Group(g.cells[r], k), order, j);
  }

  /** Element i of a line unpacked from bytes, zero past the last byte. */
  function UnpackBit(line: seq<Byte>, i: nat, order: BitOrder): bool
  {
    if i / 8 < |line| then BitOf(line[i / 8], Pos(i % 8, order)) else false
  }

  /**
   * numpy.unpackbits(p, axis, count, bitorder): count elements along the
   * axis, the ones beyond the available bits being zero.
   */
  function Unpack(p: Grid<Byte>, axis: Axis, order: BitOrder, count: nat): (g: Grid<bool>)
    requires WellFormed(p)
    ensures WellFormed(g)
    ensures axis == Cols ==> g.height == p.height && g.width == count
    ensures axis == Rows ==> g.height == count && g.width == p.width
  {
    if axis == Cols then
      Grid(p.height, count, seq(p.height, r requires 0 <= r < p.height =>
        seq(count, c requires 0 <= c < count => UnpackBit(p.cells[r], c, order))))
    else
      Grid(count, p.width, seq(count, r requires 0 <= r < count =>
        seq(p.width, c requires 0 <= c < p.width => UnpackBit(Column(p, c), r, order))))
  }

  /** Unpacking with the same axis and order and the original count gives the matrix back. */
  lemma UnpackPack(g: Grid<bool>, axis: Axis, order: BitOrder)
    requires WellFormed(g)
    ensures Unpack(Pack(g, axis, order), axis, order, if axis == Cols then g.width else g.height) == g
  {
    var p := Pack(g, axis, order);
    var u := Unpack(p, axis, order, if axis == Cols then g.width else g.height);
    forall r, c | 0 <= r < g.height && 0 <= c < g.width
      ensures u.cells[r][c] == g.cells[r][c]
    {
      PackBit(g, axis, order, r, c);
      if axis == Rows {
        assert Column(p, c)[r / 8] == p.cells[r / 8][c];
      }
    }
    GridEquality(u, g);
  }

  /** A one-pixel set row packs horizontally to 0x01 under little and to 0x80 under big. */
  lemma OnePixelPack()
    ensures Pack(Grid(1, 1, [[true]]), Cols, Little) == Grid(1, 1, [[0x01]])
    ensures Pack(Grid(1, 1, [[true]]), Cols, Big) == Grid(1, 1, [[0x80]])
  {
    assert Group([true], 0) == [true];
    OneElementGroup();
    assert PackLine([true], Little) == [0x01];
    assert PackLine([true], Big) == [0x80];
  }

  // ---------------------------------------------------------------------------
  // Slice assignment
  // ---------------------------------------------------------------------------

  /**
   * Where a slice bound i lands on an axis of length n: a negative bound
   * counts from the end, and the result is clamped to 0..n.
   */
  function SliceBound(i: int, n: nat): (b: nat)
    ensures b <= n
    ensures 0 <= i <= n ==> b == i
    ensures i > n ==> b == n
    ensures i < 0 ==> b == if i + n < 0 then 0 else i + n
  {
    if i < 0 then (if i + n < 0 then 0 else i + n)
    else if i > n then n
    else i
  }

  /** Number of positions the slice start:stop selects on an axis of length n (step 1). */
  function SliceLength(start: int, stop: int, n: nat): (l: nat)
    ensures SliceBound(start, n) + l <= n
    ensures l == 0 <==> SliceBound(stop, n) <= SliceBound(start, n)
  {
    var a := SliceBound(start, n);
    var b := SliceBound(stop, n);
    if a <= b then b - a else 0
  }

  /** A value axis of length from can be assigned to a target axis of length to. */
  predicate Broadcasts(from: nat, to: nat)
  {
    from == to || from == 1
  }

  /** Index into the value axis for position k of the target window (a length-1 axis repeats). */
  function Source(k: nat, from: nat): nat
  {
    if from == 1 then 0 else k
  }

  /** g[y:y+h, x:x+w] = piece can be carried out: each axis of piece broadcasts to the selected window. */
  predicate Assignable<T>(g: Grid<T>, piece: Grid<T>, y: int, x: int)
  {
    Broadcasts(piece.height, SliceLength(y, y + piece.height, g.height)) &&
    Broadcasts(piece.width, SliceLength(x, x + piece.width, g.width))
  }

  /** Whether (r, c) lies in the window that g[y:y+h, x:x+w] selects. */
  predicate InSlice<T>(g: Grid<T>, piece: Grid<T>, y: int, x: int, r: nat, c: nat)
  {
    SliceBound(y, g.height) <= r < SliceBound(y, g.height) + SliceLength(y, y + piece.height, g.height) &&
    SliceBound(x, g.width) <= c < SliceBound(x, g.width) + SliceLength(x, x + piece.width, g.width)
  }

  /** Inside an assignable window, the value cell that lands on (r, c) exists. */
  lemma SourceInPiece<T>(g: Grid<T>, piece: Grid<T>, y: int, x: int, r: nat, c: nat)
    requires Assignable(g, piece, y, x) && InSlice(g, piece, y, x, r, c)
    ensures Source(r - SliceBound(y, g.height), piece.height) < piece.height
    ensures Source(c - SliceBound(x, g.width), piece.width) < piece.width
  {
  }

  /** g[y:y+h, x:x+w] = piece, numpy's basic-slice assignment with broadcasting. */
  function Assign<T>(g: Grid<T>, piece: Grid<T>, y: int, x: int): (f: Grid<T>)
    requires WellFormed(g) && WellFormed(piece) && Assignable(g, piece, y, x)
    ensures WellFormed(f) && f.height == g.height && f.width == g.width
  {
    var y0 := SliceBound(y, g.height);
    var x0 := SliceBound(x, g.width);
    Grid(g.height, g.width, seq(g.height, r requires 0 <= r < g.height =>
      seq(g.width, c requires 0 <= c < g.width =>
        if InSlice(g, piece, y, x, r, c)
        then SourceInPiece(g, piece, y, x, r, c);
             piece.cells[Source(r - y0, piece.height)][Source(c - x0, piece.width)]
        else g.cells[r][c])))
  }

  /** The selected window receives the (broadcast) value and every other cell is untouched. */
  lemma AssignCells<T>(g: Grid<T>, piece: Grid<T>, y: int, x: int, r: nat, c: nat)
    requires WellFormed(g) && WellFormed(piece) && Assignable(g, piece, y, x)
    requires r < g.height && c < g.width
    ensures InSlice(g, piece, y, x, r, c) ==>
      Source(r - SliceBound(y, g.height), piece.height) < piece.height &&
      Source(c - SliceBound(x, g.width), piece.width) < piece.width &&
      Assign(g, piece, y, x).cells[r][c] ==
        piece.cells[Source(r - SliceBound(y, g.height), piece.height)][Source(c - SliceBound(x, g.width), piece.width)]
    ensures !InSlice(g, piece, y, x, r, c) ==> Assign(g, piece, y, x).cells[r][c] == g.cells[r][c]
  {
  }

  /** piece lies wholly inside g when its top-left corner is (y, x). */
  predicate Fits<T>(g: Grid<T>, piece: Grid<T>, y: int, x: int)
  {
    0 <= y && y + piece.height <= g.height && 0 <= x && x + piece.width <= g.width
  }

  /** A piece that lies wholly inside g selects a window of its own shape, so it is assignable. */
  lemma FitsAssignable<T>(g: Grid<T>, piece: Grid<T>, y: int, x: int)
    requires Fits(g, piece, y, x)
    ensures SliceLength(y, y + piece.height, g.height) == piece.height
    ensures SliceLength(x, x + piece.width, g.width) == piece.width
    ensures Assignable(g, piece, y, x)
  {
  }

  /**
   * A piece that lies wholly inside g is assignable, and the assignment
   * copies cell (r - y, c - x) of the piece to every (r, c) of the window
   * [y, y + h) x [x, x + w).
   */
  lemma AssignInside<T>(g: Grid<T>, piece: Grid<T>, y: int, x: int, r: nat, c: nat)
    requires WellFormed(g) && WellFormed(piece) && Fits(g, piece, y, x)
    requires r < g.height && c < g.width
    ensures Assignable(g, piece, y, x)
    ensures InSlice(g, piece, y, x, r, c) <==> y <= r < y + piece.height && x <= c < x + piece.width
    ensures y <= r < y + piece.height && x <= c < x + piece.width ==>
      Assign(g, piece, y, x).cells[r][c] == piece.cells[r - y][c - x]
  {
    FitsAssignable(g, piece, y, x);
    AssignCells(g, piece, y, x, r, c);
  }

  /** A window the slice leaves empty changes nothing, even for a one-row or one-column value. */
  lemma AssignEmptyWindow<T>(g: Grid<T>, piece: Grid<T>, y: int, x: int)
    requires WellFormed(g) && WellFormed(piece) && Assignable(g, piece, y, x)
    requires SliceLength(y, y + piece.height, g.height) == 0 || SliceLength(x, x + piece.width, g.width) == 0
    ensures Assign(g, piece, y, x) == g
  {
    GridEquality(Assign(g, piece, y, x), g);
  }
}
