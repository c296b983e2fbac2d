/** An in-memory camera frame: a rows x cols buffer of samples with a declared
    bit depth, a capture time and the pixel order that maps (row, column) to a
    position in the buffer; and the two-variant frame that hides whether the
    samples are 8 or 16 bits wide. */
module CameraFrames {
  import opened Bytes

  /** A capture time: nanoseconds since 0001-01-01T00:00:00 UTC. */
  type FrameTime = int

  datatype CameraFrameError = IndexOutOfBounds(index: nat)

  datatype PixelFormat =
    MONO | BayerRGGB | BayerGRBG | BayerBGRG | BayerCYYM | BayerYCMY | BayerMYYC | RGB

  datatype PixelOrder = RowMajor | ColMajor

  /** What a checked read produces: the sample, the accessor's own error, or
      Panic(index) where the read runs past the end of the sample vector and
      Rust's slice indexing panics, or where computing the index overflows
      usize (the overflow panic of a debug build). */
  datatype Access<T> = Ok(value: T) | Err(error: CameraFrameError) | Panic(index: nat)

  /** The buffer position of sample (r, c) under the given pixel order. */
  function Offset(order: PixelOrder, rows: nat, cols: nat, r: nat, c: nat): nat {
    match order
    case ColMajor => c * rows + r
    case RowMajor => r * cols + c
  }

  /** The (row, column) stored at buffer position i: the inverse of Offset. */
  function Coords(order: PixelOrder, rows: nat, cols: nat, i: nat): (p: (nat, nat))
    requires i < rows * cols
  {
    NonEmptySides(rows, cols);
    match order
    case ColMajor => (i % rows, i / rows)
    case RowMajor => (i / cols, i % cols)
  }

  lemma NonEmptySides(rows: nat, cols: nat)
    requires rows * cols > 0
    ensures rows > 0 && cols > 0
  {
  }

  lemma MulLe(a: nat, b: nat, k: nat)
    requires a <= b
    ensures a * k <= b * k
  {
  }

  /** Quotient and remainder are unique: q*d + m with m < d determines q and m. */
  lemma DivModUnique(q1: nat, m1: nat, q2: nat, m2: nat, d: nat)
    requires m1 < d && m2 < d
    requires q1 * d + m1 == q2 * d + m2
    ensures q1 == q2 && m1 == m2
  {
    if q1 < q2 {
      MulLe(q1 + 1, q2, d);
    } else if q2 < q1 {
      MulLe(q2 + 1, q1, d);
    }
  }

  /** Euclidean division recovers quotient and remainder. */
  lemma DivModOf(q: nat, m: nat, d: nat)
    requires m < d
    ensures (q * d + m) / d == q && (q * d + m) % d == m
  {
    var i := q * d + m;
    assert i == (i / d) * d + i % d;
    DivModUnique(i / d, i % d, q, m, d);
  }

  /** q*d + m stays below n*d when q < n and m < d. */
  lemma MulAddBound(q: nat, m: nat, d: nat, n: nat)
    requires q < n && m < d
    ensures q * d + m < n * d
  {
    MulLe(q + 1, n, d);
    assert (q + 1) * d == q * d + d;
  }

  /** A position inside the rectangle maps below rows*cols, and back to itself. */
  lemma CoordsOffset(order: PixelOrder, rows: nat, cols: nat, r: nat, c: nat)
    requires r < rows && c < cols
    ensures Offset(order, rows, cols, r, c) < rows * cols
    ensures Coords(order, rows, cols, Offset(order, rows, cols, r, c)) == (r, c)
  {
    match order
    case ColMajor =>
      MulAddBound(c, r, rows, cols);
      DivModOf(c, r, rows);
    case RowMajor =>
      MulAddBound(r, c, cols, rows);
      DivModOf(r, c, cols);
  }

  /** Every buffer position below rows*cols is the offset of exactly the
      position Coords gives, which lies inside the rectangle. */
  lemma OffsetCoords(order: PixelOrder, rows: nat, cols: nat, i: nat)
    requires i < rows * cols
    ensures Coords(order, rows, cols, i).0 < rows && Coords(order, rows, cols, i).1 < cols
    ensures Offset(order, rows, cols, Coords(order, rows, cols, i).0, Coords(order, rows, cols, i).1) == i
  {
    NonEmptySides(rows, cols);
    match order
    case ColMajor =>
      assert rows * cols == cols * rows;
      DivBelow(i, rows, cols);
    case RowMajor =>
      DivBelow(i, cols, rows);
  }

  /** Below n*d, the quotient by d is below n and quotient and remainder
      rebuild the number. */
  lemma DivBelow(i: nat, d: nat, n: nat)
    requires d > 0 && i < n * d
    ensures i / d < n && i % d < d && (i / d) * d + i % d == i
  {
    if i / d >= n {
      MulLe(n, i / d, d);
    }
  }

  /** Distinct in-range positions have distinct offsets, under either order. */
  lemma OffsetInjective(order: PixelOrder, rows: nat, cols: nat, r1: nat, c1: nat, r2: nat, c2: nat)
    requires r1 < rows && c1 < cols && r2 < rows && c2 < cols
    requires Offset(order, rows, cols, r1, c1) == Offset(order, rows, cols, r2, c2)
    ensures r1 == r2 && c1 == c2
  {
    CoordsOffset(order, rows, cols, r1, c1);
    CoordsOffset(order, rows, cols, r2, c2);
  }

  /** One monochrome frame. The sample vector's length is not tied to
      rows*cols: `New` copies whatever it is given, and Valid() says when the
      two agree. Only the contents of `rawdata` ever change after construction. */
  class CameraFrameMono<T> {
    const rows: nat
    const cols: nat
    const bitDepth: nat
    const rawdata: array<T>
    const pixelOrder: PixelOrder
    const time: FrameTime

    /** The sample vector holds exactly one sample per pixel. */
    predicate Valid() {
      rawdata.Length == rows * cols
    }

    /** An all-zero frame in column-major order, stamped with the time `now`;
        `vec![zero; rows*cols]` needs the usize product rows*cols not to overflow. */
    constructor Zeros(rows: nat, cols: nat, bitDepth: nat, zero: T, now: FrameTime)
      requires rows * cols < USIZE_BOUND
      ensures this.rows == rows && this.cols == cols && this.bitDepth == bitDepth
      ensures pixelOrder == ColMajor && time == now
      ensures fresh(rawdata) && rawdata[..] == seq(rows * cols, _ => zero)
      ensures Valid()
    {
      this.rows := rows;
      this.cols := cols;
      this.bitDepth := bitDepth;
      pixelOrder := ColMajor;
      rawdata := new T[rows * cols](_ => zero);
      time := now;
    }

    /** A frame holding a copy of `data`, whose length is not checked. */
    constructor New(rows: nat, cols: nat, bitDepth: nat, pixelOrder: PixelOrder,
                    time: FrameTime, data: seq<T>)
      ensures this.rows == rows && this.cols == cols && this.bitDepth == bitDepth
      ensures this.pixelOrder == pixelOrder && this.time == time
      ensures fresh(rawdata) && rawdata[..] == data
      ensures Valid() <==> |data| == rows * cols
    {
      this.rows := rows;
      this.cols := cols;
      this.bitDepth := bitDepth;
      this.pixelOrder := pixelOrder;
      this.time := time;
      rawdata := new T[|data|](i requires 0 <= i < |data| => data[i]);
    }

    /** The samples as a slice, in buffer order. */
    function Samples(): (s: seq<T>)
      reads rawdata
      ensures |s| == rawdata.Length
    {
      rawdata[..]
    }

    /** A monochrome frame always reports the MONO pixel format. */
    function PixelFormat(): (f: PixelFormat)
      ensures f == MONO
    {
      MONO
    }

    /** The bounds-checked flat read `at(i)` as written: it refuses only
        i > rows*cols, so i == rows*cols gets past the guard. The product
        rows*cols is a usize, and one of 2^64 or more is the overflow panic. */
    function At(i: nat): (res: Access<T>)
      reads rawdata
      ensures rows * cols >= USIZE_BOUND ==> res == Panic(i)
      ensures res.Err? <==> rows * cols < USIZE_BOUND && i > rows * cols
      ensures res.Ok? <==> rows * cols < USIZE_BOUND && i <= rows * cols && i < rawdata.Length
      ensures res.Ok? ==> res.value == rawdata[i]
    {
      if rows * cols >= USIZE_BOUND then Panic(i)
      else if i > rows * cols then Err(IndexOutOfBounds(i))
      else if i < rawdata.Length then Ok(rawdata[i])
      else Panic(i)
    }

    /** The flat read with the bound the accessor means: i < rows*cols. The
        usize product rows*cols still overflows at 2^64. */
    function AtChecked(i: nat): (res: Access<T>)
      reads rawdata
      ensures rows * cols >= USIZE_BOUND ==> res == Panic(i)
      ensures Valid() && rows * cols < USIZE_BOUND ==> (res.Ok? <==> i < rows * cols) && !res.Panic?
      ensures res.Ok? ==> i < rawdata.Length && res.value == rawdata[i]
    {
      if rows * cols >= USIZE_BOUND then Panic(i)
      else if i >= rows * cols then Err(IndexOutOfBounds(i))
      else if i < rawdata.Length then Ok(rawdata[i])
      else Panic(i)
    }

    /** On a well-formed frame the written guard lets the one-past-the-end
        index through, and the read then panics instead of reporting
        IndexOutOfBounds; the corrected accessor reports it, unless rows*cols
        itself overflows usize. */
    lemma AtOnePastEnd()
      requires Valid()
      ensures At(rows * cols) == Panic(rows * cols)
      ensures AtChecked(rows * cols)
        == if rows * cols < USIZE_BOUND then Err(IndexOutOfBounds(rows * cols)) else Panic(rows * cols)
    {
    }

    /** A 2^32 x 2^32 frame overflows rows*cols, so both flat reads panic
        on the multiplication, whatever the index. */
    lemma AtOverflow()
      requires rows == 0x1_0000_0000 && cols == 0x1_0000_0000
      ensures At(5) == Panic(5) && AtChecked(5) == Panic(5)
    {
    }

    /** Below rows*cols the two accessors agree. */
    lemma AtAgreesWithChecked(i: nat)
      requires i != rows * cols
      ensures At(i) == AtChecked(i)
    {
    }

    /** The bounds-checked read `at((r, c))`. The offset is computed in usize
        before the guard, so an offset of 2^64 or more is the overflow panic.
        Otherwise it fails exactly when r or c is out of range, reporting the
        offset, and on a well-formed frame it never runs past the buffer. */
    function AtRC(r: nat, c: nat): (res: Access<T>)
      reads rawdata
      ensures Offset(pixelOrder, rows, cols, r, c) >= USIZE_BOUND ==> res == Panic(Offset(pixelOrder, rows, cols, r, c))
      ensures res.Err? <==> Offset(pixelOrder, rows, cols, r, c) < USIZE_BOUND && (r >= rows || c >= cols)
      ensures res.Err? ==> res.error == IndexOutOfBounds(Offset(pixelOrder, rows, cols, r, c))
      ensures Valid() ==> (res.Panic? <==> Offset(pixelOrder, rows, cols, r, c) >= USIZE_BOUND)
      ensures res.Ok? ==> Offset(pixelOrder, rows, cols, r, c) < rawdata.Length
                          && res.value == rawdata[Offset(pixelOrder, rows, cols, r, c)]
    {
      var index := Offset(pixelOrder, rows, cols, r, c);
      if index >= USIZE_BOUND then Panic(index)
      else if r >= rows || c >= cols then Err(IndexOutOfBounds(index))
      else if index < rawdata.Length then Ok(rawdata[index])
      else
        assert !Valid() by { CoordsOffset(pixelOrder, rows, cols, r, c); }
        Panic(index)
    }

    /** On a column-major frame of two rows, column 2^63 has offset 2^64:
        `c*rows + r` overflows before the guard is reached. */
    lemma AtRCOverflow()
      requires pixelOrder == ColMajor && rows == 2
      ensures AtRC(0, 0x8000_0000_0000_0000) == Panic(USIZE_BOUND)
    {
    }

    /** The unchecked flat read `self[i]`; Rust panics when i is past the end. */
    function Index(i: nat): T
      reads rawdata
      requires i < rawdata.Length
    {
      rawdata[i]
    }

    /** The unchecked read `self[(r, c)]`: it resolves the offset but checks
        neither r nor c; Rust panics when the offset overflows usize or lies
        past the buffer. */
    function IndexRC(r: nat, c: nat): T
      reads rawdata
      requires Offset(pixelOrder, rows, cols, r, c) < rawdata.Length
      requires Offset(pixelOrder, rows, cols, r, c) < USIZE_BOUND
    {
      rawdata[Offset(pixelOrder, rows, cols, r, c)]
    }

    /** For in-range (r, c) on a well-formed frame that fits in memory (a Vec
        never holds 2^64 samples) the unchecked read is safe and returns what
        the checked read returns, under either pixel order. */
    lemma IndexAgreesWithAt(r: nat, c: nat)
      requires Valid() && rawdata.Length <= USIZE_BOUND && r < rows && c < cols
      ensures Offset(pixelOrder, rows, cols, r, c) < rawdata.Length
      ensures Offset(pixelOrder, rows, cols, r, c) < USIZE_BOUND
      ensures AtRC(r, c) == Ok(IndexRC(r, c))
    {
      CoordsOffset(pixelOrder, rows, cols, r, c);
    }

    /** The unchecked write `self[i] = v`. */
    method SetIndex(i: nat, v: T)
      requires i < rawdata.Length
      modifies rawdata
      ensures rawdata[..] == old(rawdata[..])[i := v]
    {
      rawdata[i] := v;
    }

    /** The unchecked write `self[(r, c)] = v`: exactly one sample changes, the
        one the checked read of (r, c) then returns; every other in-range
        pixel reads as before. */
    method SetIndexRC(r: nat, c: nat, v: T)
      requires Offset(pixelOrder, rows, cols, r, c) < rawdata.Length
      requires Offset(pixelOrder, rows, cols, r, c) < USIZE_BOUND
      modifies rawdata
      ensures rawdata[..] == old(rawdata[..])[Offset(pixelOrder, rows, cols, r, c) := v]
      ensures Valid() && r < rows && c < cols ==> AtRC(r, c) == Ok(v)
      ensures Valid() && r < rows && c < cols ==>
                forall r2: nat, c2: nat | r2 < rows && c2 < cols && (r2 != r || c2 != c) ::
                  AtRC(r2, c2) == old(AtRC(r2, c2))
    {
      rawdata[Offset(pixelOrder, rows, cols, r, c)] := v;
      if r < rows && c < cols {
        forall r2: nat, c2: nat | r2 < rows && c2 < cols && (r2 != r || c2 != c)
          ensures Offset(pixelOrder, rows, cols, r2, c2) != Offset(pixelOrder, rows, cols, r, c)
        {
          if Offset(pixelOrder, rows, cols, r2, c2) == Offset(pixelOrder, rows, cols, r, c) {
            OffsetInjective(pixelOrder, rows, cols, r2, c2, r, c);
          }
        }
      }
    }
  }

  type CameraFrameMono8 = CameraFrameMono<u8>
  type CameraFrameMono16 = CameraFrameMono<u16>

  /** A frame of either sample width; every descriptor query is answered by
      the wrapped buffer. */
  datatype CameraFrame = Mono8(m8: CameraFrameMono8) | Mono16(m16: CameraFrameMono16) {
    function Rows(): nat {
      match this
      case Mono8(x) => x.rows
      case Mono16(x) => x.rows
    }

    function Cols(): nat {
      match this
      case Mono8(x) => x.cols
      case Mono16(x) => x.cols
    }

    function BitDepth(): nat {
      match this
      case Mono8(x) => x.bitDepth
      case Mono16(x) => x.bitDepth
    }

    function PixelFormat(): PixelFormat {
      match this
      case Mono8(x) => x.PixelFormat()
      case Mono16(x) => x.PixelFormat()
    }

    function PixelOrder(): PixelOrder {
      match this
      case Mono8(x) => x.pixelOrder
      case Mono16(x) => x.pixelOrder
    }

    function Time(): FrameTime {
      match this
      case Mono8(x) => x.time
      case Mono16(x) => x.time
    }
  }

  /** Every descriptor of a CameraFrame is that of the buffer it wraps, and
      the pixel format is always MONO. */
  lemma DescriptorsDelegate(f: CameraFrame)
    ensures f.PixelFormat() == MONO
    ensures f.Mono8? ==> f.Rows() == f.m8.rows && f.Cols() == f.m8.cols && f.BitDepth() == f.m8.bitDepth
                         && f.PixelOrder() == f.m8.pixelOrder && f.Time() == f.m8.time
    ensures f.Mono16? ==> f.Rows() == f.m16.rows && f.Cols() == f.m16.cols && f.BitDepth() == f.m16.bitDepth
                          && f.PixelOrder() == f.m16.pixelOrder && f.Time() == f.m16.time
  {
  }
}
