/** The checkerboard fill kernel: each cell gets one of two colours by the parity of a
    formula on its flat index; the input buffer's contents are not read. */
module Checkerboard {
  import opened Buffers
  import opened Jobs

  /** The two colours and the row length the formula divides by. */
  datatype CheckerboardConf<T> = CheckerboardConf(colorA: T, colorB: T, width: nat)

  /** The kernel as written: colour A where `index + index / width` is even, colour B
      otherwise. On a grid of even width this is a checkerboard; on an odd width it paints
      columns (see `OddWidthPaintsColumns`). */
  function ProcessJob<T>(b: Buffer<T>, index: nat, conf: CheckerboardConf<T>): (c: T)
    requires conf.width > 0
    ensures c == conf.colorA || c == conf.colorB
  {
    if (index + index / conf.width) % 2 == 0 then conf.colorA else conf.colorB
  }

  /** The kernel as evidently intended: colour A where the cell's x + y is even. */
  function ProcessJobIntended<T>(b: Buffer<T>, index: nat, conf: CheckerboardConf<T>): (c: T)
    requires conf.width > 0
    ensures c == conf.colorA || c == conf.colorB
  {
    if (index % conf.width + index / conf.width) % 2 == 0 then conf.colorA else conf.colorB
  }

  /** The flat parity `index + index / width` in terms of the cell's (x, y): that of x + y
      when the width is even, that of x alone when it is odd. */
  lemma FlatParity(index: nat, width: nat)
    requires width > 0
    ensures var x, y := index % width, index / width;
      (index + y) % 2 == if width % 2 == 0 then (x + y) % 2 else x % 2
  {
    var x, y := index % width, index / width;
    assert index == x + y * width;
    RowMajorParity(x, y, width);
  }

  lemma RowMajorParity(x: nat, y: nat, w: nat)
    requires w > 0
    ensures (x + y * w + y) % 2 == if w % 2 == 0 then (x + y) % 2 else x % 2
  {
    var k := w / 2;
    if w % 2 == 0 {
      MulEven(y, w, k);
      var m := y * k;
      assert x + y * w + y == (x + y) + 2 * m;
    } else {
      MulEven(y, w + 1, k + 1);
      var m := y * (k + 1);
      assert y * (w + 1) == y * w + y;
      assert x + y * w + y == x + 2 * m;
    }
  }

  lemma MulEven(y: nat, w: nat, k: nat)
    requires w == 2 * k
    ensures y * w == 2 * (y * k)
  {
  }

  /** The cell one row down has the same x and the next y. */
  lemma NextRow(index: nat, width: nat)
    requires width > 0
    ensures (index + width) % width == index % width
    ensures (index + width) / width == index / width + 1
  {
    DivModUnique(index + width, width, index / width + 1, index % width);
  }

  /** The colour never depends on the buffer's contents. */
  lemma IgnoresBuffer<T>(b1: Buffer<T>, b2: Buffer<T>, index: nat, conf: CheckerboardConf<T>)
    requires conf.width > 0
    ensures ProcessJob(b1, index, conf) == ProcessJob(b2, index, conf)
  {
  }

  /** Two consecutive cells of one row get different colours (when the colours differ). */
  lemma RowNeighborsDiffer<T>(b: Buffer<T>, index: nat, conf: CheckerboardConf<T>)
    requires conf.width > 0 && conf.colorA != conf.colorB
    requires (index + 1) / conf.width == index / conf.width
    ensures ProcessJob(b, index, conf) != ProcessJob(b, index + 1, conf)
  {
  }

  /** On an even width the kernel is a true checkerboard: colour A exactly where x + y is
      even, so vertically adjacent cells differ too. */
  lemma EvenWidthIsCheckerboard<T>(b: Buffer<T>, index: nat, conf: CheckerboardConf<T>)
    requires conf.width > 0 && conf.width % 2 == 0
    ensures ProcessJob(b, index, conf) == ProcessJobIntended(b, index, conf)
    ensures conf.colorA != conf.colorB ==> ProcessJob(b, index, conf) != ProcessJob(b, index + conf.width, conf)
  {
    FlatParity(index, conf.width);
    VerticalParity(index, conf.width);
  }

  /** The flat parity of the cell below: unchanged when the width is odd, flipped when it is even. */
  lemma VerticalParity(index: nat, width: nat)
    requires width > 0
    ensures var below := index + width;
      (below + below / width) % 2 == if width % 2 == 0 then 1 - (index + index / width) % 2
                                     else (index + index / width) % 2
  {
    NextRow(index, width);
    assert index + width + (index + width) / width == (index + index / width) + width + 1;
  }

  /** On an odd width the colour depends on x alone: every column is one colour, so
      vertically adjacent cells are equal. */
  lemma OddWidthPaintsColumns<T>(b: Buffer<T>, index: nat, conf: CheckerboardConf<T>)
    requires conf.width > 0 && conf.width % 2 == 1
    ensures ProcessJob(b, index, conf) == if (index % conf.width) % 2 == 0 then conf.colorA else conf.colorB
    ensures ProcessJob(b, index, conf) == ProcessJob(b, index + conf.width, conf)
  {
    FlatParity(index, conf.width);
    VerticalParity(index, conf.width);
  }

  /** A concrete case: on a grid 3 cells wide, cell 0 and the cell below it (index 3) get
      the same colour as written, and different colours as intended. */
  lemma OddWidthCounterexample<T>(b: Buffer<T>, colorA: T, colorB: T)
    requires colorA != colorB
    ensures var conf := CheckerboardConf(colorA, colorB, 3);
      ProcessJob(b, 0, conf) == ProcessJob(b, 3, conf) == colorA &&
      ProcessJobIntended(b, 0, conf) == colorA && ProcessJobIntended(b, 3, conf) == colorB
  {
  }

  /** The intended kernel is a checkerboard for every width: horizontally adjacent cells
      differ ... */
  lemma IntendedRowNeighborsDiffer<T>(b: Buffer<T>, index: nat, conf: CheckerboardConf<T>)
    requires conf.width > 0 && conf.colorA != conf.colorB
    requires (index + 1) / conf.width == index / conf.width
    ensures ProcessJobIntended(b, index, conf) != ProcessJobIntended(b, index + 1, conf)
  {
    var y := index / conf.width;
    assert index == index % conf.width + y * conf.width;
    assert index + 1 == (index + 1) % conf.width + y * conf.width;
  }

  /** ... and so do vertically adjacent ones. */
  lemma IntendedColumnNeighborsDiffer<T>(b: Buffer<T>, index: nat, conf: CheckerboardConf<T>)
    requires conf.width > 0 && conf.colorA != conf.colorB
    ensures ProcessJobIntended(b, index, conf) != ProcessJobIntended(b, index + conf.width, conf)
  {
    NextRow(index, conf.width);
  }

  /** Both kernels are defined on every index of every buffer once the width is positive. */
  lemma DefinedForPositiveWidth<T>(b: Buffer<T>, conf: CheckerboardConf<T>)
    requires conf.width > 0
    ensures DefinedOn(ProcessJob, b, conf, 0, |b.data|)
    ensures DefinedOn(ProcessJobIntended, b, conf, 0, |b.data|)
  {
  }
}
