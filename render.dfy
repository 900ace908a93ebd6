/** The browser side (www/index.js): the animation buffer is `[frame][row][col]`
    row-major, and every repaint advances the frame modulo the animation length and
    redraws the whole grid, one square per cell. The lattice width and height and
    the animation length are positive parameters. */
module Render {
  import opened Arith

  type U8 = x: nat | x < 256

  /** The side of one drawn cell in pixels (`CELL_SIZE`). */
  const CellSize: nat := 5

  /** `getIndex`: the position of cell (row, column) of a frame in the flat buffer. */
  function GetIndex(frame: nat, row: nat, col: nat, width: nat, height: nat): nat
  {
    frame * width * height + row * width + col
  }

  datatype Position = Position(frame: nat, row: nat, col: nat)

  /** The cell that a buffer position holds; the inverse of GetIndex. */
  function DecodeIndex(i: nat, width: nat, height: nat): Position
    requires width > 0 && height > 0
  {
    Position(i / (width * height), (i % (width * height)) / width, i % width)
  }

  predicate InRange(p: Position, width: nat, height: nat, animationLen: nat)
  {
    p.frame < animationLen && p.row < height && p.col < width
  }

  /** The position of a cell within its frame lies within the frame. */
  lemma CellInFrame(row: nat, col: nat, width: nat, height: nat)
    requires row < height && col < width
    ensures row * width + col < width * height
  {
    MulLe(row, height - 1, width);
    Distribute(height - 1, 1, width);
  }

  /** An in-range (frame, row, col) indexes the `Uint8Array` of length
      width * height * animationLen. */
  lemma IndexInBounds(frame: nat, row: nat, col: nat, width: nat, height: nat, animationLen: nat)
    requires frame < animationLen && row < height && col < width
    ensures GetIndex(frame, row, col, width, height) < width * height * animationLen
  {
    var n := width * height;
    CellInFrame(row, col, width, height);
    Regroup(frame, width, height);
    FrameBelow(frame, animationLen, n, row * width + col);
    assert width * height * animationLen == animationLen * n;
  }

  /** A position within frame `frame` of size n lies before frame `frames`. */
  lemma FrameBelow(frame: nat, frames: nat, n: nat, cell: nat)
    requires frame < frames && cell < n
    ensures frame * n + cell < frames * n
  {
    MulLe(frame + 1, frames, n);
    Distribute(frame, 1, n);
  }

  /** Decoding an in-range cell's index gives the cell back. */
  lemma DecodeGetIndex(frame: nat, row: nat, col: nat, width: nat, height: nat)
    requires row < height && col < width
    ensures DecodeIndex(GetIndex(frame, row, col, width, height), width, height) == Position(frame, row, col)
  {
    var i := GetIndex(frame, row, col, width, height);
    var n := width * height;
    var cell := row * width + col;
    CellInFrame(row, col, width, height);
    Regroup(frame, width, height);
    DivModUnique(i, n, frame, cell);
    DivModUnique(cell, width, row, col);
    ColumnOf(i, frame * height, row, col, width);
  }

  /** An index `q * width + r` with r < width lies in column r of its row. */
  lemma ColumnOf(i: int, rows: nat, row: nat, col: nat, width: nat)
    requires col < width && i == rows * width + (row * width + col)
    ensures i % width == col
  {
    Distribute(rows, row, width);
    DivModUnique(i, width, rows + row, col);
  }

  /** Distinct in-range cells have distinct indices. */
  lemma GetIndexInjective(a: Position, b: Position, width: nat, height: nat)
    requires a.row < height && a.col < width && b.row < height && b.col < width
    requires GetIndex(a.frame, a.row, a.col, width, height) == GetIndex(b.frame, b.row, b.col, width, height)
    ensures a == b
  {
    DecodeGetIndex(a.frame, a.row, a.col, width, height);
    DecodeGetIndex(b.frame, b.row, b.col, width, height);
  }

  /** Every position of the buffer holds exactly one in-range cell. */
  lemma GetIndexSurjective(i: nat, width: nat, height: nat, animationLen: nat)
    requires width > 0 && height > 0 && i < width * height * animationLen
    ensures var p := DecodeIndex(i, width, height);
      InRange(p, width, height, animationLen) && GetIndex(p.frame, p.row, p.col, width, height) == i
  {
    var n := width * height;
    var p := DecodeIndex(i, width, height);
    var rest := i % n;
    assert i == p.frame * n + rest;
    FrameOf(i, n, animationLen);
    RowColInRange(rest, width, height);
    assert rest == p.row * width + rest % width;
    Regroup(p.frame, height, width);
    ColumnOf(i, p.frame * height, p.row, rest % width, width);
    Regroup(p.frame, width, height);
  }

  /** An index below frames * n lies in a frame below `frames`. */
  lemma FrameOf(i: nat, n: nat, frames: nat)
    requires n > 0 && i < n * frames
    ensures i / n < frames
  {
    if i / n >= frames {
      MulLe(frames, i / n, n);
      assert false;
    }
  }

  datatype Colour = Orange | Red

  function ColourName(c: Colour): string
  {
    match c
    case Orange => "orange"
    case Red => "red"
  }

  /** The fill style a cell is drawn with: "orange" for species 0, "red" otherwise. */
  lemma ColourNameOf(v: U8)
    ensures ColourName(ColourOf(v)) == (if v == 0 then "orange" else "red")
  {
  }

  /** A cell holding species 0 is orange, any other value red. */
  function ColourOf(v: U8): (c: Colour)
    ensures c == Orange <==> v == 0
  {
    if v == 0 then Orange else Red
  }

  /** One `fillRect` call with the fill style in force. */
  datatype Rect = Rect(x: nat, y: nat, w: nat, h: nat, colour: Colour)

  /** The square drawn for cell (row, col) of a frame. */
  function CellRect(anim: seq<U8>, frame: nat, row: nat, col: nat, width: nat, height: nat, animationLen: nat): Rect
    requires |anim| == width * height * animationLen
    requires frame < animationLen && row < height && col < width
  {
    IndexInBounds(frame, row, col, width, height, animationLen);
    Rect(col * CellSize, row * CellSize, CellSize, CellSize, ColourOf(anim[GetIndex(frame, row, col, width, height)]))
  }

  lemma RowColInRange(i: nat, width: nat, height: nat)
    requires width > 0 && i < width * height
    ensures i / width < height && i % width < width
  {
    if i / width >= height {
      MulLe(height, i / width, width);
      assert false;
    }
  }

  /** The squares that `drawGrid` draws for a frame, in drawing order: the i-th is
      cell (i / width, i % width). */
  function GridCommands(anim: seq<U8>, frame: nat, width: nat, height: nat, animationLen: nat): (r: seq<Rect>)
    requires width > 0 && height > 0 && frame < animationLen
    requires |anim| == width * height * animationLen
    ensures |r| == width * height
  {
    seq(width * height, i requires 0 <= i < width * height =>
      RowColInRange(i, width, height);
      CellRect(anim, frame, i / width, i % width, width, height, animationLen))
  }

  /** Cell (row, col) is drawn as square number row * width + col, so the grid is
      drawn row by row, each row left to right, every cell once. */
  lemma GridCommandsAt(anim: seq<U8>, frame: nat, row: nat, col: nat, width: nat, height: nat, animationLen: nat)
    requires frame < animationLen && row < height && col < width
    requires |anim| == width * height * animationLen
    ensures row * width + col < width * height
    ensures GridCommands(anim, frame, width, height, animationLen)[row * width + col]
         == CellRect(anim, frame, row, col, width, height, animationLen)
  {
    CellInFrame(row, col, width, height);
    DivModUnique(row * width + col, width, row, col);
  }

  /** No two squares of a frame are drawn at the same place. */
  lemma GridVisitsOnce(anim: seq<U8>, frame: nat, width: nat, height: nat, animationLen: nat, i: nat, j: nat)
    requires width > 0 && height > 0 && frame < animationLen
    requires |anim| == width * height * animationLen
    requires i < j < width * height
    ensures var g := GridCommands(anim, frame, width, height, animationLen);
      (g[i].x, g[i].y) != (g[j].x, g[j].y)
  {
    RowColInRange(i, width, height);
    RowColInRange(j, width, height);
    var g := GridCommands(anim, frame, width, height, animationLen);
    if g[i].x == g[j].x {
      assert (i % width) * CellSize == (j % width) * CellSize;
    }
    if g[i].y == g[j].y {
      assert (i / width) * CellSize == (j / width) * CellSize;
    }
  }

  /** The canvas is CELL_SIZE * width wide and CELL_SIZE * height high, and every
      drawn square lies inside it. */
  lemma GridInsideCanvas(anim: seq<U8>, frame: nat, width: nat, height: nat, animationLen: nat)
    requires width > 0 && height > 0 && frame < animationLen
    requires |anim| == width * height * animationLen
    ensures forall r :: r in GridCommands(anim, frame, width, height, animationLen) ==>
      r.x + r.w <= CellSize * width && r.y + r.h <= CellSize * height
  {
    var g := GridCommands(anim, frame, width, height, animationLen);
    forall i | 0 <= i < |g| ensures g[i].x + g[i].w <= CellSize * width && g[i].y + g[i].h <= CellSize * height {
      RowColInRange(i, width, height);
    }
  }

  /** The squares of one row of the grid, left to right. */
  function RowCommands(anim: seq<U8>, frame: nat, row: nat, width: nat, height: nat, animationLen: nat): (r: seq<Rect>)
    requires frame < animationLen && row < height
    requires |anim| == width * height * animationLen
    ensures |r| == width
  {
    seq(width, col requires 0 <= col < width => CellRect(anim, frame, row, col, width, height, animationLen))
  }

  /** Row `row` of the grid is squares row * width to row * width + width - 1. */
  lemma GridRow(anim: seq<U8>, frame: nat, row: nat, width: nat, height: nat, animationLen: nat)
    requires width > 0 && frame < animationLen && row < height
    requires |anim| == width * height * animationLen
    ensures (row + 1) * width <= width * height
    ensures GridCommands(anim, frame, width, height, animationLen)[row * width..(row + 1) * width]
         == RowCommands(anim, frame, row, width, height, animationLen)
  {
    CellInFrame(row, width - 1, width, height);
    Distribute(row, 1, width);
    var g := GridCommands(anim, frame, width, height, animationLen);
    var r := RowCommands(anim, frame, row, width, height, animationLen);
    forall col | 0 <= col < width ensures g[row * width..(row + 1) * width][col] == r[col] {
      GridCommandsAt(anim, frame, row, col, width, height, animationLen);
    }
  }

  /** The inner loop of `drawGrid`: the squares of one row. */
  method DrawRow(anim: seq<U8>, frame: nat, row: nat, width: nat, height: nat, animationLen: nat)
    returns (cmds: seq<Rect>)
    requires frame < animationLen && row < height
    requires |anim| == width * height * animationLen
    ensures cmds == RowCommands(anim, frame, row, width, height, animationLen)
  {
    cmds := [];
    for col := 0 to width
      invariant cmds == RowCommands(anim, frame, row, width, height, animationLen)[..col]
    {
      var idx := GetIndex(frame, row, col, width, height);
      IndexInBounds(frame, row, col, width, height, animationLen);
      var colour := if anim[idx] == 0 then Orange else Red;
      cmds := cmds + [Rect(col * CellSize, row * CellSize, CellSize, CellSize, colour)];
    }
  }

  /** `drawGrid`: the nested row and column loops, one square per cell. */
  method DrawGrid(anim: seq<U8>, frame: nat, width: nat, height: nat, animationLen: nat) returns (cmds: seq<Rect>)
    requires width > 0 && height > 0 && frame < animationLen
    requires |anim| == width * height * animationLen
    ensures cmds == GridCommands(anim, frame, width, height, animationLen)
  {
    ghost var grid := GridCommands(anim, frame, width, height, animationLen);
    cmds := [];
    for row := 0 to height
      invariant row * width <= |grid| && cmds == grid[..row * width]
    {
      var rowCmds := DrawRow(anim, frame, row, width, height, animationLen);
      GridRow(anim, frame, row, width, height, animationLen);
      assert grid[..(row + 1) * width] == grid[..row * width] + grid[row * width..(row + 1) * width];
      cmds := cmds + rowCmds;
    }
    assert height * width == |grid|;
  }

  /** The frame drawn at tick n (counting from 1) of `renderLoop`. */
  function FrameAtTick(n: nat, animationLen: nat): nat
    requires animationLen > 0
  {
    n % animationLen
  }

  /** How many more ticks after tick n until frame f is drawn. */
  function TicksUntil(n: nat, animationLen: nat, f: nat): nat
    requires animationLen > 0 && f < animationLen
  {
    var r := n % animationLen;
    if f > r then f - r else animationLen - r + f
  }

  /** Within the next animationLen ticks every frame of the animation is drawn. */
  lemma AllFramesShown(n: nat, animationLen: nat, f: nat)
    requires animationLen > 0 && f < animationLen
    ensures 1 <= TicksUntil(n, animationLen, f) <= animationLen
    ensures FrameAtTick(n + TicksUntil(n, animationLen, f), animationLen) == f
  {
    var r := n % animationLen;
    var j := TicksUntil(n, animationLen, f);
    var q := n / animationLen;
    assert n == q * animationLen + r;
    Distribute(q, 1, animationLen);
    DivModUnique(n + j, animationLen, q + (if f > r then 0 else 1), f);
  }

  /** Advancing the counter modulo the length keeps it equal to the tick count modulo the length. */
  lemma NextFrame(ticks: nat, animationLen: nat)
    requires animationLen > 0
    ensures (FrameAtTick(ticks, animationLen) + 1) % animationLen == FrameAtTick(ticks + 1, animationLen)
  {
    var q, r := ticks / animationLen, ticks % animationLen;
    assert ticks == q * animationLen + r;
    if r + 1 == animationLen {
      Distribute(q, 1, animationLen);
      DivModUnique(ticks + 1, animationLen, q + 1, 0);
      DivModUnique(r + 1, animationLen, 1, 0);
    } else {
      DivModUnique(ticks + 1, animationLen, q, r + 1);
      DivModUnique(r + 1, animationLen, 0, r + 1);
    }
  }

  /** The module-level state of www/index.js: the canvas and the frame counter. */
  class RenderLoop {
    const width: nat
    const height: nat
    const animationLen: nat
    const canvasWidth: nat
    const canvasHeight: nat
    var currentFrame: nat
    /** The number of repaint ticks so far. */
    ghost var ticks: nat

    ghost predicate Valid()
      reads this
    {
      width > 0 && height > 0 && animationLen > 0
      && canvasWidth == CellSize * width && canvasHeight == CellSize * height
      && currentFrame == FrameAtTick(ticks, animationLen)
    }

    /** The canvas is sized to the grid and the counter starts at frame 0. */
    constructor (width: nat, height: nat, animationLen: nat)
      requires width > 0 && height > 0 && animationLen > 0
      ensures Valid() && ticks == 0 && currentFrame == 0
      ensures this.width == width && this.height == height && this.animationLen == animationLen
    {
      this.width, this.height, this.animationLen := width, height, animationLen;
      canvasHeight := CellSize * height;
      canvasWidth := CellSize * width;
      currentFrame := 0;
      ticks := 0;
    }

    /** One `renderLoop` call: advance the frame, then draw it; the first frame
        drawn is therefore 1 % animationLen, not 0. */
    method Tick(anim: seq<U8>) returns (cmds: seq<Rect>)
      requires Valid() && |anim| == width * height * animationLen
      modifies this`currentFrame, this`ticks
      ensures Valid() && ticks == old(ticks) + 1
      ensures currentFrame == (old(currentFrame) + 1) % animationLen
      ensures cmds == GridCommands(anim, currentFrame, width, height, animationLen)
    {
      NextFrame(ticks, animationLen);
      currentFrame := (currentFrame + 1) % animationLen;
      ticks := ticks + 1;
      cmds := DrawGrid(anim, currentFrame, width, height, animationLen);
    }
  }
}
