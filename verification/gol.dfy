/** Conway's Game of Life as a kernel of the engine: a cell's next state depends on its own
    state and on how many of its eight neighbours are alive; cells beyond the grid's edges
    count as dead (no wrap-around). */
module GameOfLife {
  import opened Buffers
  import opened Jobs
  import opened Executors

  datatype GolCell = Alive | Dead {

    predicate IsAlive() {
      this == Alive
    }

    /** Debug rendering: one character, "X" exactly for a live cell. */
    function DebugString(): (s: string)
      ensures |s| == 1 && (s == "X" <==> IsAlive()) && (s == "." <==> !IsAlive())
    {
      match this
      case Alive => "X"
      case Dead => "."
    }

    /** Terminal rendering: a dark shade exactly for a live cell, a light shade otherwise. */
    function IntoChar(): (ch: char)
      ensures ch == '▓' <==> IsAlive()
      ensures ch == '░' <==> !IsAlive()
    {
      match this
      case Alive => '▓'
      case Dead => '░'
    }
  }

  /** `From<bool>`: the cell whose liveness is `alive`. */
  function FromBool(alive: bool): (c: GolCell)
    ensures c.IsAlive() == alive
  {
    if alive then Alive else Dead
  }

  /** Converting a cell's liveness back gives the cell. */
  lemma FromIsAliveRoundTrip(c: GolCell)
    ensures FromBool(c.IsAlive()) == c
  {
  }

  /** Both renderings tell the two states apart. */
  lemma RenderingsInjective(c1: GolCell, c2: GolCell)
    ensures c1.DebugString() == c2.DebugString() <==> c1 == c2
    ensures c1.IntoChar() == c2.IntoChar() <==> c1 == c2
  {
  }

  /** The neighbourhood, as offsets from the cell, in the order they are visited. */
  const NEIGHBOR_OFFSETS: seq<(i32, i32)> :=
    [(-1, 1), (0, 1), (1, 1), (1, 0), (1, -1), (0, -1), (-1, -1), (-1, 0)]

  predicate UnitOffset(o: (i32, i32)) {
    -1 <= o.0 <= 1 && -1 <= o.1 <= 1
  }

  /** The offsets are exactly the eight non-zero offsets of the 3 x 3 block, each once. */
  lemma NeighborOffsetsExact()
    ensures |NEIGHBOR_OFFSETS| == 8
    ensures forall j, k :: 0 <= j < k < 8 ==> NEIGHBOR_OFFSETS[j] != NEIGHBOR_OFFSETS[k]
    ensures forall o :: o in NEIGHBOR_OFFSETS <==> UnitOffset(o) && o != (0, 0)
  {
    forall o: (i32, i32) | UnitOffset(o) && o != (0, 0)
      ensures o in NEIGHBOR_OFFSETS
    {
      if o.0 == -1 {
        assert o == NEIGHBOR_OFFSETS[0] || o == NEIGHBOR_OFFSETS[6] || o == NEIGHBOR_OFFSETS[7];
      } else if o.0 == 0 {
        assert o == NEIGHBOR_OFFSETS[1] || o == NEIGHBOR_OFFSETS[5];
      } else {
        assert o == NEIGHBOR_OFFSETS[2] || o == NEIGHBOR_OFFSETS[3] || o == NEIGHBOR_OFFSETS[4];
      }
    }
  }

  /** The cell's coordinates, and those of every neighbour, fit Rust's `i32`: the grid's
      dims fit, and so does the coordinate one past the cell. */
  predicate InI32Range(b: Buffer<GolCell>, pos: (nat, nat)) {
    b.dims.0 <= I32_MAX && b.dims.1 <= I32_MAX && pos.0 < I32_MAX && pos.1 < I32_MAX
  }

  /** The signed coordinates `(pos.0 as i32 + dx, pos.1 as i32 + dy)`. */
  function Shifted(pos: (nat, nat), o: (i32, i32)): (q: (i32, i32))
    requires pos.0 < I32_MAX && pos.1 < I32_MAX && UnitOffset(o)
    ensures q.0 as int == pos.0 + o.0 as int && q.1 as int == pos.1 + o.1 as int
  {
    ((pos.0 + o.0 as int) as i32, (pos.1 + o.1 as int) as i32)
  }

  /** 1 when the cell at the offset lies on the grid and is alive, 0 otherwise. */
  function LiveAt(b: Buffer<GolCell>, pos: (nat, nat), o: (i32, i32)): (n: nat)
    requires InI32Range(b, pos) && UnitOffset(o)
    ensures n <= 1
    ensures n == 1 <==> b.At2DI32(Shifted(pos, o)).Some? && b.At2DI32(Shifted(pos, o)).value.IsAlive()
  {
    var c := b.At2DI32(Shifted(pos, o));
    if c.Some? && c.value.IsAlive() then 1 else 0
  }

  /** The live cells among those at `offsets`, counted in order. */
  function CountLive(b: Buffer<GolCell>, pos: (nat, nat), offsets: seq<(i32, i32)>): (n: nat)
    requires InI32Range(b, pos)
    requires forall j :: 0 <= j < |offsets| ==> UnitOffset(offsets[j])
    ensures n <= |offsets|
  {
    if offsets == [] then 0
    else LiveAt(b, pos, offsets[0]) + CountLive(b, pos, offsets[1..])
  }

  /** The number of live neighbours of the cell at `pos`. */
  function NeighborCount(b: Buffer<GolCell>, pos: (nat, nat)): (n: nat)
    requires InI32Range(b, pos)
    ensures n <= 8
  {
    CountLive(b, pos, NEIGHBOR_OFFSETS)
  }

  /** The count, written out offset by offset. */
  lemma NeighborCountExpanded(b: Buffer<GolCell>, pos: (nat, nat))
    requires InI32Range(b, pos)
    ensures NeighborCount(b, pos) ==
      LiveAt(b, pos, (-1, 1)) + LiveAt(b, pos, (0, 1)) + LiveAt(b, pos, (1, 1)) + LiveAt(b, pos, (1, 0)) +
      LiveAt(b, pos, (1, -1)) + LiveAt(b, pos, (0, -1)) + LiveAt(b, pos, (-1, -1)) + LiveAt(b, pos, (-1, 0))
  {
    var offs := NEIGHBOR_OFFSETS;
    CountLiveSuffix(b, pos, offs, 0);
    CountLiveSuffix(b, pos, offs, 1);
    CountLiveSuffix(b, pos, offs, 2);
    CountLiveSuffix(b, pos, offs, 3);
    CountLiveSuffix(b, pos, offs, 4);
    CountLiveSuffix(b, pos, offs, 5);
    CountLiveSuffix(b, pos, offs, 6);
    CountLiveSuffix(b, pos, offs, 7);
    assert offs[0..] == offs;
  }

  lemma CountLiveSuffix(b: Buffer<GolCell>, pos: (nat, nat), offsets: seq<(i32, i32)>, k: nat)
    requires InI32Range(b, pos) && k < |offsets|
    requires forall j :: 0 <= j < |offsets| ==> UnitOffset(offsets[j])
    ensures CountLive(b, pos, offsets[k..]) == LiveAt(b, pos, offsets[k]) + CountLive(b, pos, offsets[k + 1..])
  {
    assert offsets[k..][1..] == offsets[k + 1..];
  }

  /** Where the kernel can be applied: a non-empty row length, the index inside the store,
      and coordinates that fit `i32`. */
  predicate GolDefined(b: Buffer<GolCell>, index: nat) {
    0 < b.dims.0 <= I32_MAX && b.dims.1 <= I32_MAX && index < |b.data| && index / b.dims.0 < I32_MAX
  }

  /** The Game-of-Life rule for the cell at `index`: a live cell survives with two or three
      live neighbours, a dead cell is born with exactly three, every other cell is dead. */
  function ProcessJob(b: Buffer<GolCell>, index: nat, conf: ()): (c: GolCell)
    requires GolDefined(b, index)
    ensures var n := NeighborCount(b, b.IndexToPos2D(index));
      match b.data[index]
      case Alive => c.IsAlive() <==> n == 2 || n == 3
      case Dead => c.IsAlive() <==> n == 3
  {
    var pos := b.IndexToPos2D(index);
    var cell := b.data[index];
    var n := NeighborCount(b, pos);
    FromBool(n == 3 || (n == 2 && cell.IsAlive()))
  }

  /** The kernel is defined at every cell of every 2D grid whose dims fit `i32`. */
  lemma GolDefinedOnShape(dims: (nat, nat, nat))
    requires 0 < dims.0 <= I32_MAX && dims.1 <= I32_MAX && dims.2 == 1
    ensures DefinedOnShape(ProcessJob, dims, dims.0 * dims.1 * dims.2, ())
  {
    forall b: Buffer<GolCell>, i: nat | b.dims == dims && |b.data| == dims.0 * dims.1 * dims.2 && i < |b.data|
      ensures GolDefined(b, i)
    {
      RowOfIndexInGrid(i, dims.0, dims.1);
    }
  }

  lemma RowOfIndexInGrid(i: nat, w: nat, h: nat)
    requires 0 < w && i < w * h * 1
    ensures i / w < h
  {
    var q := i / w;
    assert q * w <= i;
    if q >= h {
      MulMonotone(h, q, w);
      assert false;
    }
  }

  /** Two cells are near when their coordinates differ by at most one on each axis. */
  predicate Near(a: nat, b: nat) {
    -1 <= a - b <= 1
  }

  /** Two grids of the same shape agree on every cell of the 3 x 3 block around `pos`. */
  predicate AgreeAround(b1: Buffer<GolCell>, b2: Buffer<GolCell>, pos: (nat, nat)) {
    b1.dims == b2.dims && b1.Valid() && b2.Valid() && b1.dims.2 > 0 &&
    forall x: nat, y: nat :: x < b1.dims.0 && y < b1.dims.1 && Near(x, pos.0) && Near(y, pos.1) ==>
      x + y * b1.dims.0 < |b1.data| && b1.data[x + y * b1.dims.0] == b2.data[x + y * b1.dims.0]
  }

  /** Locality: only the 3 x 3 block around a cell decides how many of the listed
      neighbours are alive. */
  lemma {:induction false} CountLiveLocal(b1: Buffer<GolCell>, b2: Buffer<GolCell>, pos: (nat, nat),
                                          offsets: seq<(i32, i32)>)
    requires InI32Range(b1, pos) && AgreeAround(b1, b2, pos)
    requires forall j :: 0 <= j < |offsets| ==> UnitOffset(offsets[j])
    ensures CountLive(b1, pos, offsets) == CountLive(b2, pos, offsets)
  {
    if offsets != [] {
      var q := Shifted(pos, offsets[0]);
      if 0 <= q.0 && q.0 as int < b1.dims.0 && 0 <= q.1 && q.1 as int < b1.dims.1 {
        assert Near(q.0 as nat, pos.0) && Near(q.1 as nat, pos.1);
      }
      CountLiveLocal(b1, b2, pos, offsets[1..]);
    }
  }

  /** Locality of the rule: a cell's next state depends only on the 3 x 3 block around it. */
  lemma ProcessJobLocal(b1: Buffer<GolCell>, b2: Buffer<GolCell>, index: nat)
    requires GolDefined(b1, index) && b1.Valid() && b1.dims.2 == 1
    requires AgreeAround(b1, b2, b1.IndexToPos2D(index))
    ensures GolDefined(b2, index)
    ensures ProcessJob(b1, index, ()) == ProcessJob(b2, index, ())
  {
    var pos := b1.IndexToPos2D(index);
    RowOfIndexInGrid(index, b1.dims.0, b1.dims.1);
    assert b1.data[index] == b2.data[index] by {
      assert Near(pos.0, pos.0) && Near(pos.1, pos.1);
    }
    CountLiveLocal(b1, b2, pos, NEIGHBOR_OFFSETS);
  }

  /** A cell in the grid's corner has at most three neighbours: the cells beyond the edges
      are absent, not wrapped around. */
  lemma CornerHasAtMostThreeNeighbors(b: Buffer<GolCell>)
    requires b.dims.0 <= I32_MAX && b.dims.1 <= I32_MAX
    ensures NeighborCount(b, (0, 0)) <= 3
  {
    NeighborCountExpanded(b, (0, 0));
  }

  /** In a grid of dead cells no cell has a live neighbour. */
  lemma {:induction false} CountLiveOfDeadGrid(b: Buffer<GolCell>, pos: (nat, nat), offsets: seq<(i32, i32)>)
    requires InI32Range(b, pos)
    requires forall j :: 0 <= j < |offsets| ==> UnitOffset(offsets[j])
    requires forall i :: 0 <= i < |b.data| ==> b.data[i] == Dead
    ensures CountLive(b, pos, offsets) == 0
  {
    if offsets != [] {
      var c := b.At2DI32(Shifted(pos, offsets[0]));
      assert c.Some? ==> c.value == Dead;
      CountLiveOfDeadGrid(b, pos, offsets[1..]);
    }
  }

  /** One step maps a dead grid to itself. */
  lemma DeadGridStep(dims: (nat, nat))
    requires 0 < dims.0 <= I32_MAX && dims.1 <= I32_MAX
    ensures var b := FromValue2D(dims, Dead);
      DefinedOn(ProcessJob, b, (), 0, |b.data|) && Step(ProcessJob, b, ()) == b.data
  {
    var b := FromValue2D(dims, Dead);
    forall i | 0 <= i < |b.data|
      ensures GolDefined(b, i) && ProcessJob(b, i, ()) == Dead
    {
      RowOfIndexInGrid(i, dims.0, dims.1);
      CountLiveOfDeadGrid(b, b.IndexToPos2D(i), NEIGHBOR_OFFSETS);
    }
  }

  /** A dead grid stays dead for any number of generations. */
  lemma {:induction false} DeadGridStaysDead(dims: (nat, nat), n: nat)
    requires 0 < dims.0 <= I32_MAX && dims.1 <= I32_MAX
    ensures DefinedOnShape(ProcessJob, (dims.0, dims.1, 1), dims.0 * dims.1 * 1, ())
    ensures Iterate(ProcessJob, FromValue2D(dims, Dead), (), n) == FromValue2D(dims, Dead)
  {
    GolDefinedOnShape((dims.0, dims.1, 1));
    if n > 0 {
      DeadGridStaysDead(dims, n - 1);
      DeadGridStep(dims);
    }
  }

  /** A 4 x 4 grid whose only live cells are the 2 x 2 block in its middle. */
  function Block(): (b: Buffer<GolCell>)
    ensures b.Valid() && b.dims == (4, 4, 1)
  {
    Buffer(seq(16, i => if i == 5 || i == 6 || i == 9 || i == 10 then Alive else Dead), (4, 4, 1))
  }

  /** 1 when (x, y) is a cell of the grid and alive, 0 otherwise: the grid has no cells
      beyond its edges. */
  function CellAlive(b: Buffer<GolCell>, x: int, y: int): (n: nat)
    ensures n <= 1
  {
    if 0 <= x < b.dims.0 && 0 <= y < b.dims.1 && x + y * b.dims.0 < |b.data| && b.data[x + y * b.dims.0] == Alive
    then 1 else 0
  }

  /** The neighbour count is the number of live grid cells among the eight around `pos`. */
  lemma NeighborCountByCells(b: Buffer<GolCell>, pos: (nat, nat))
    requires InI32Range(b, pos) && b.Valid() && b.dims.2 == 1
    ensures var x, y := pos.0 as int, pos.1 as int;
      NeighborCount(b, pos) ==
        CellAlive(b, x - 1, y - 1) + CellAlive(b, x, y - 1) + CellAlive(b, x + 1, y - 1) +
        CellAlive(b, x - 1, y) + CellAlive(b, x + 1, y) +
        CellAlive(b, x - 1, y + 1) + CellAlive(b, x, y + 1) + CellAlive(b, x + 1, y + 1)
  {
    NeighborCountExpanded(b, pos);
    LiveAtIsCellAlive(b, pos, (-1, 1));
    LiveAtIsCellAlive(b, pos, (0, 1));
    LiveAtIsCellAlive(b, pos, (1, 1));
    LiveAtIsCellAlive(b, pos, (1, 0));
    LiveAtIsCellAlive(b, pos, (1, -1));
    LiveAtIsCellAlive(b, pos, (0, -1));
    LiveAtIsCellAlive(b, pos, (-1, -1));
    LiveAtIsCellAlive(b, pos, (-1, 0));
  }

  lemma LiveAtIsCellAlive(b: Buffer<GolCell>, pos: (nat, nat), o: (i32, i32))
    requires InI32Range(b, pos) && UnitOffset(o) && b.Valid() && b.dims.2 == 1
    ensures LiveAt(b, pos, o) == CellAlive(b, pos.0 + o.0 as int, pos.1 + o.1 as int)
  {
  }

  /** The live cells of `Block()` are those with both coordinates in {1, 2}. */
  lemma BlockCellAlive(x: int, y: int)
    ensures CellAlive(Block(), x, y) == if 1 <= x <= 2 && 1 <= y <= 2 then 1 else 0
  {
  }

  /** On a 4 x 4 grid, a 2 x 2 block of live cells is a fixed point of one full step. */
  lemma BlockIsStill()
    ensures DefinedOn(ProcessJob, Block(), (), 0, 16)
    ensures Step(ProcessJob, Block(), ()) == Block().data
  {
    forall i | 0 <= i < 16
      ensures GolDefined(Block(), i) && ProcessJob(Block(), i, ()) == Block().data[i]
    {
      BlockCellStill(i % 4, i / 4);
    }
  }

  lemma BlockCellStill(x: nat, y: nat)
    requires x < 4 && y < 4
    ensures GolDefined(Block(), x + 4 * y) && ProcessJob(Block(), x + 4 * y, ()) == Block().data[x + 4 * y]
  {
    var b := Block();
    IndexToPos2DUnique(b, x + 4 * y, x, y);
    BlockNeighborCount(x, y);
    BlockCellAlive(x, y);
  }

  /** Around the block, a cell sees as many live neighbours as block cells lie within one step of it. */
  lemma BlockNeighborCount(x: nat, y: nat)
    requires x < 4 && y < 4
    ensures NeighborCount(Block(), (x, y)) == if (x == 0 || x == 3) && (y == 0 || y == 3) then 1
      else if x == 0 || x == 3 || y == 0 || y == 3 then 2 else 3
  {
    NeighborCountByCells(Block(), (x, y));
    BlockCellAlive(x - 1, y - 1);
    BlockCellAlive(x, y - 1);
    BlockCellAlive(x + 1, y - 1);
    BlockCellAlive(x - 1, y);
    BlockCellAlive(x + 1, y);
    BlockCellAlive(x - 1, y + 1);
    BlockCellAlive(x, y + 1);
    BlockCellAlive(x + 1, y + 1);
  }

  /** A bar of three live cells through the middle of a 3 x 3 grid, vertical or horizontal. */
  function Blinker(vertical: bool): (b: Buffer<GolCell>)
    ensures b.Valid() && b.dims == (3, 3, 1)
  {
    Buffer(seq(9, i => if (vertical && (i == 1 || i == 4 || i == 7)) || (!vertical && 3 <= i < 6) then Alive else Dead),
           (3, 3, 1))
  }

  lemma BlinkerCellAlive(vertical: bool, x: int, y: int)
    ensures CellAlive(Blinker(vertical), x, y) ==
      if 0 <= x < 3 && 0 <= y < 3 && (if vertical then x == 1 else y == 1) then 1 else 0
  {
  }

  lemma BlinkerNeighborCount(vertical: bool, x: nat, y: nat)
    requires x < 3 && y < 3
    ensures NeighborCount(Blinker(vertical), (x, y)) ==
      if vertical then (if y == 1 then 3 else 2) - (if x == 1 then 1 else 0)
      else (if x == 1 then 3 else 2) - (if y == 1 then 1 else 0)
  {
    NeighborCountByCells(Blinker(vertical), (x, y));
    BlinkerCellAlive(vertical, x - 1, y - 1);
    BlinkerCellAlive(vertical, x, y - 1);
    BlinkerCellAlive(vertical, x + 1, y - 1);
    BlinkerCellAlive(vertical, x - 1, y);
    BlinkerCellAlive(vertical, x + 1, y);
    BlinkerCellAlive(vertical, x - 1, y + 1);
    BlinkerCellAlive(vertical, x, y + 1);
    BlinkerCellAlive(vertical, x + 1, y + 1);
  }

  lemma BlinkerCellNext(vertical: bool, x: nat, y: nat)
    requires x < 3 && y < 3
    ensures GolDefined(Blinker(vertical), x + 3 * y)
    ensures ProcessJob(Blinker(vertical), x + 3 * y, ()) == Blinker(!vertical).data[x + 3 * y]
  {
    IndexToPos2DUnique(Blinker(vertical), x + 3 * y, x, y);
    BlinkerNeighborCount(vertical, x, y);
    BlinkerCellAlive(vertical, x, y);
    BlinkerCellAlive(!vertical, x, y);
  }

  /** The blinker: one step turns the vertical bar horizontal and the horizontal bar
      vertical, so two generations bring it back. */
  lemma BlinkerOscillates(vertical: bool)
    ensures DefinedOn(ProcessJob, Blinker(vertical), (), 0, 9)
    ensures Step(ProcessJob, Blinker(vertical), ()) == Blinker(!vertical).data
    ensures DefinedOnShape(ProcessJob, (3, 3, 1), 9, ())
    ensures Iterate(ProcessJob, Blinker(vertical), (), 2) == Blinker(vertical)
  {
    forall i | 0 <= i < 9
      ensures GolDefined(Blinker(vertical), i) && ProcessJob(Blinker(vertical), i, ()) == Blinker(!vertical).data[i]
    {
      BlinkerCellNext(vertical, i % 3, i / 3);
    }
    forall i | 0 <= i < 9
      ensures GolDefined(Blinker(!vertical), i) && ProcessJob(Blinker(!vertical), i, ()) == Blinker(vertical).data[i]
    {
      BlinkerCellNext(!vertical, i % 3, i / 3);
    }
    GolDefinedOnShape((3, 3, 1));
    assert Iterate(ProcessJob, Blinker(vertical), (), 1) == Blinker(!vertical);
  }
}
