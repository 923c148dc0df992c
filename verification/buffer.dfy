/** The grid buffer of the engine: a flat store of cells plus a (width, height, depth)
    triple, mapped to 2D positions in row-major order. Accessors either return an
    Option (checked) or demand a valid index (unchecked). */
module Buffers {

  const I32_MAX: int := 0x7fff_ffff

  /** Rust's `i32`; used for the signed coordinates of neighbour lookups. */
  newtype i32 = x: int | -0x8000_0000 <= x <= 0x7fff_ffff

  datatype Option<T> = None | Some(value: T)

  datatype Buffer<T> = Buffer(data: seq<T>, dims: (nat, nat, nat)) {

    /** The store holds exactly width * height * depth cells. */
    predicate Valid() {
      |data| == dims.0 * dims.1 * dims.2
    }

    /** The length is that of the store, which for a valid buffer is the product of the dims. */
    function Len(): (n: nat)
      ensures Valid() ==> n == dims.0 * dims.1 * dims.2
    {
      |data|
    }

    function Dims1D(): nat {
      dims.0
    }

    function Dims2D(): (nat, nat) {
      (dims.0, dims.1)
    }

    function Dims3D(): (nat, nat, nat) {
      (dims.0, dims.1, dims.2)
    }

    /** Flat index to (x, y): the unique position in a row of length `width`. */
    function IndexToPos2D(index: nat): (pos: (nat, nat))
      requires dims.0 > 0
      ensures pos.0 < dims.0
      ensures pos.0 + pos.1 * dims.0 == index
    {
      (index % dims.0, index / dims.0)
    }

    /** Checked flat access: absent exactly past the end of the store. */
    function At(index: nat): (r: Option<T>)
      ensures r.None? <==> index >= |data|
      ensures r.Some? ==> r.value == data[index]
    {
      if index < |data| then Some(data[index]) else None
    }

    /** Unchecked flat access agrees with the checked one on valid indices. */
    function AtUnchecked(index: nat): (v: T)
      requires index < |data|
      ensures At(index) == Some(v)
    {
      data[index]
    }

    /** Checked 2D access. Only the flat index is checked, not each axis. */
    function At2D(pos: (nat, nat)): (r: Option<T>)
      ensures r.None? <==> pos.0 + pos.1 * dims.0 >= |data|
      ensures r.Some? ==> r.value == data[pos.0 + pos.1 * dims.0]
    {
      At(pos.0 + pos.1 * dims.0)
    }

    /** Edge-clipping 2D access with signed coordinates: absent whenever a coordinate is
        negative or not below its dimension; no wrap-around. */
    function At2DI32(pos: (i32, i32)): (r: Option<T>)
      requires dims.0 <= I32_MAX && dims.1 <= I32_MAX
      ensures pos.0 < 0 || pos.0 as int >= dims.0 || pos.1 < 0 || pos.1 as int >= dims.1 ==> r.None?
      ensures Valid() && dims.2 > 0 && 0 <= pos.0 as int < dims.0 && 0 <= pos.1 as int < dims.1 ==>
                pos.0 as int + pos.1 as int * dims.0 < |data| &&
                r == Some(data[pos.0 as int + pos.1 as int * dims.0])
    {
      if pos.0 < 0 || pos.0 as int >= dims.0 then None
      else if pos.1 < 0 || pos.1 as int >= dims.1 then None
      else
        var x, y := pos.0 as nat, pos.1 as nat;
        // The same cell either way; on a valid buffer the lemma shows it is in the store.
        if Valid() && dims.2 > 0 then
          RowMajorInBounds(x, y, dims.0, dims.1, dims.2, |data|);
          At(x + y * dims.0)
        else
          At(x + y * dims.0)
    }

    /** Unchecked 2D access agrees with the checked one. */
    function At2DUnchecked(pos: (nat, nat)): (v: T)
      requires pos.0 + pos.1 * dims.0 < |data|
      ensures At2D(pos) == Some(v)
    {
      data[pos.0 + pos.1 * dims.0]
    }
  }

  /** A position inside a w x h grid has a row-major index inside a store of w * h * d cells. */
  lemma RowMajorInBounds(x: nat, y: nat, w: nat, h: nat, d: nat, len: nat)
    requires x < w && y < h && len == w * h * d && d > 0
    ensures x + y * w < len
  {
    calc {
      x + y * w;
    <  w + y * w;
    == (y + 1) * w;
    <= { MulMonotone(y + 1, h, w); } h * w;
    == w * h;
    <= { MulMonotone(1, d, w * h); } w * h * d;
    }
  }

  lemma MulMonotone(a: nat, b: nat, c: nat)
    requires a <= b
    ensures a * c <= b * c
  {
  }

  /** Fill a 1D buffer of `length` cells with `value`. */
  function FromValue<T>(length: nat, value: T): (b: Buffer<T>)
    ensures b.Valid() && b.dims == (length, 1, 1)
    ensures |b.data| == length && forall i :: 0 <= i < length ==> b.data[i] == value
  {
    Buffer(seq(length, i => value), (length, 1, 1))
  }

  /** Fill a width x height buffer with `value`; the depth is 1. */
  function FromValue2D<T>(dimensions: (nat, nat), value: T): (b: Buffer<T>)
    ensures b.Valid() && b.dims == (dimensions.0, dimensions.1, 1)
    ensures |b.data| == dimensions.0 * dimensions.1
    ensures forall i :: 0 <= i < |b.data| ==> b.data[i] == value
  {
    Buffer(seq(dimensions.0 * dimensions.1, i => value), (dimensions.0, dimensions.1, 1))
  }

  /** Fill a width x height x depth buffer with `value`. */
  function FromValue3D<T>(dimensions: (nat, nat, nat), value: T): (b: Buffer<T>)
    ensures b.Valid() && b.dims == dimensions
    ensures forall i :: 0 <= i < |b.data| ==> b.data[i] == value
  {
    Buffer(seq(dimensions.0 * dimensions.1 * dimensions.2, i => value), dimensions)
  }

  /** Wrap an existing sequence as a 1D buffer, keeping its elements in order. */
  function FromVec<T>(v: seq<T>): (b: Buffer<T>)
    ensures b.Valid() && b.dims == (|v|, 1, 1) && b.data == v
  {
    Buffer(v, (|v|, 1, 1))
  }

  /** Quotient and remainder are the only pair with `r < w` and `r + q * w == n`. */
  lemma DivModUnique(n: nat, w: nat, q: nat, r: nat)
    requires w > 0 && r < w && r + q * w == n
    ensures n / w == q && n % w == r
  {
    var q', r' := n / w, n % w;
    assert r' + q' * w == n;
    if q < q' {
      MulMonotone(q + 1, q', w);
      assert false;
    } else if q' < q {
      MulMonotone(q' + 1, q, w);
      assert false;
    }
  }

  /** The position of a flat index is the only in-row position with that index. */
  lemma IndexToPos2DUnique<T>(b: Buffer<T>, index: nat, x: nat, y: nat)
    requires b.dims.0 > 0
    requires x < b.dims.0 && x + y * b.dims.0 == index
    ensures b.IndexToPos2D(index) == (x, y)
  {
    DivModUnique(index, b.dims.0, y, x);
  }

  /** Reading a flat index back through its 2D position gives the same cell. */
  lemma Pos2DRoundTrip<T>(b: Buffer<T>, index: nat)
    requires b.dims.0 > 0
    ensures b.At2D(b.IndexToPos2D(index)) == b.At(index)
  {
  }

  /** `At2D` does no per-axis check: an x past the row width reads into the next row. */
  lemma At2DSpillsIntoNextRow<T>(b: Buffer<T>, x: nat, y: nat)
    requires x >= b.dims.0
    ensures b.At2D((x, y)) == b.At2D((x - b.dims.0, y + 1))
  {
    assert (y + 1) * b.dims.0 == y * b.dims.0 + b.dims.0;
  }
}
