/** The framebuffer engine: clearing the 64 x 32 screen and the XOR blit of an n-row
    sprite read from memory at I, with collision reported in VF.

    The blit reduces the origin to (x % 64, y % 32). Row k of the sprite is the byte at
    I + k, bit 7 at the origin's column. A row ends after column 63; rows end after row 31,
    except that the `continue` which ends a row at column 63 also skips the row-limit test,
    so a sprite whose origin lies in the last eight columns keeps going below row 31 and
    indexes past the bottom of the screen when one of those rows has a set bit.

    The loop visits the sprite's cells (k, l) in row-major order, rows having `cols` cells;
    the functions below describe its state once the cells before (K, L) are visited. */
module Framebuffer {
  import opened Bits
  import opened Outcomes
  import opened Machine

  /** Bit l of a sprite row, counting from the most significant (column 0). */
  predicate SpriteBit(b: byte, l: nat) {
    l < 8 && TestBit(b, 7 - l)
  }

  /** The number of columns of a row drawn from column x0: up to and including column 63. */
  function Columns(x0: nat): (c: nat)
    requires x0 < WIDTH
    ensures 1 <= c <= 8 && x0 + c <= WIDTH
    ensures x0 < WIDTH - 8 ==> c == 8
    ensures x0 >= WIDTH - 8 ==> x0 + c == WIDTH
  {
    if x0 >= WIDTH - 8 then WIDTH - x0 else 8
  }

  /** The number of rows the loop visits for an n-row sprite drawn at (x0, y0). */
  function Rows(x0: nat, y0: nat, n: nat): (r: nat)
    requires x0 < WIDTH && y0 < HEIGHT
    ensures r <= n
    ensures x0 < WIDTH - 8 ==> y0 + r <= HEIGHT && (r == n || y0 + r == HEIGHT)
    ensures x0 >= WIDTH - 8 ==> r == n
  {
    if x0 >= WIDTH - 8 then n else if n <= HEIGHT - y0 then n else HEIGHT - y0
  }

  /** Cell (k, l) of the sprite comes before the loop position (K, L). */
  predicate Visited(k: nat, l: nat, K: nat, L: nat, cols: nat) {
    (k < K && l < cols) || (k == K && l < L)
  }

  /** Visiting cell (k, l) neither reads past memory nor writes past the bottom row. */
  predicate CellInBounds(mem: seq<byte>, i: nat, y0: nat, k: nat, l: nat) {
    i + k < |mem| && (y0 + k >= HEIGHT ==> !SpriteBit(mem[i + k], l))
  }

  /** Sprite cell (k, l) is set and lies below the bottom row. */
  predicate BitBelowScreen(mem: seq<byte>, i: nat, y0: nat, k: nat, l: nat) {
    i + k < |mem| && y0 + k >= HEIGHT && SpriteBit(mem[i + k], l)
  }

  /** Sprite cell (k, l) is set and lands on a lit cell of `frame`. */
  predicate CellHit(frame: seq<seq<bool>>, mem: seq<byte>, i: nat, x0: nat, y0: nat, k: nat, l: nat)
    requires IsFrame(frame)
  {
    x0 + l < WIDTH && y0 + k < HEIGHT && i + k < |mem| && SpriteBit(mem[i + k], l)
    && frame[x0 + l][y0 + k]
  }

  /** No cell before (K, L) faulted. */
  function InBoundsUpTo(mem: seq<byte>, i: nat, y0: nat, cols: nat, K: nat, L: nat): bool
    requires L <= cols
    decreases K, L
  {
    if L > 0 then
      InBoundsUpTo(mem, i, y0, cols, K, L - 1) && CellInBounds(mem, i, y0, K, L - 1)
    else if K > 0 then
      InBoundsUpTo(mem, i, y0, cols, K - 1, cols)
    else
      true
  }

  /** The screen after visiting sprite cell (k, l): the cell under it flips when its bit is set. */
  function Flip(p: seq<seq<bool>>, mem: seq<byte>, i: nat, x0: nat, y0: nat, k: nat, l: nat): (q: seq<seq<bool>>)
    requires IsFrame(p)
    ensures IsFrame(q)
  {
    if x0 + l < WIDTH && y0 + k < HEIGHT && i + k < |mem| && SpriteBit(mem[i + k], l) then
      p[x0 + l := p[x0 + l][y0 + k := !p[x0 + l][y0 + k]]]
    else
      p
  }

  /** The screen once the cells before (K, L) have been visited. */
  function Painted(f0: seq<seq<bool>>, mem: seq<byte>, i: nat, x0: nat, y0: nat, cols: nat, K: nat, L: nat): (f: seq<seq<bool>>)
    requires IsFrame(f0) && L <= cols
    ensures IsFrame(f)
    decreases K, L
  {
    if L > 0 then
      Flip(Painted(f0, mem, i, x0, y0, cols, K, L - 1), mem, i, x0, y0, K, L - 1)
    else if K > 0 then
      Painted(f0, mem, i, x0, y0, cols, K - 1, cols)
    else
      f0
  }

  /** VF once the cells before (K, L) have been visited: some visit found its cell lit. */
  function CollidedUpTo(f0: seq<seq<bool>>, mem: seq<byte>, i: nat, x0: nat, y0: nat, cols: nat, K: nat, L: nat): bool
    requires IsFrame(f0) && L <= cols
    decreases K, L
  {
    if L > 0 then
      CollidedUpTo(f0, mem, i, x0, y0, cols, K, L - 1)
      || CellHit(Painted(f0, mem, i, x0, y0, cols, K, L - 1), mem, i, x0, y0, K, L - 1)
    else if K > 0 then
      CollidedUpTo(f0, mem, i, x0, y0, cols, K - 1, cols)
    else
      false
  }

  /** Screen cell (xx, yy) lies under a set sprite cell visited before (K, L). */
  predicate Toggled(mem: seq<byte>, i: nat, x0: nat, y0: nat, cols: nat, K: nat, L: nat, xx: nat, yy: nat) {
    x0 <= xx && y0 <= yy && Visited(yy - y0, xx - x0, K, L, cols)
    && i + (yy - y0) < |mem| && SpriteBit(mem[i + (yy - y0)], xx - x0)
  }

  /** The fault condition, cell by cell. */
  lemma {:induction false} InBoundsUpToForall(mem: seq<byte>, i: nat, y0: nat, cols: nat, K: nat, L: nat)
    requires L <= cols
    ensures InBoundsUpTo(mem, i, y0, cols, K, L) <==>
      forall k: nat, l: nat :: Visited(k, l, K, L, cols) ==> CellInBounds(mem, i, y0, k, l)
    decreases K, L
  {
    if L > 0 {
      InBoundsUpToForall(mem, i, y0, cols, K, L - 1);
      if InBoundsUpTo(mem, i, y0, cols, K, L) {
        forall k: nat, l: nat | Visited(k, l, K, L, cols)
          ensures CellInBounds(mem, i, y0, k, l)
        {
          if k != K || l != L - 1 {
            assert Visited(k, l, K, L - 1, cols);
          }
        }
      } else if InBoundsUpTo(mem, i, y0, cols, K, L - 1) {
        assert Visited(K, L - 1, K, L, cols) && !CellInBounds(mem, i, y0, K, L - 1);
      } else {
        var k: nat, l: nat :| Visited(k, l, K, L - 1, cols) && !CellInBounds(mem, i, y0, k, l);
        assert Visited(k, l, K, L, cols);
      }
    } else if K > 0 {
      InBoundsUpToForall(mem, i, y0, cols, K - 1, cols);
      forall k: nat, l: nat
        ensures Visited(k, l, K, 0, cols) <==> Visited(k, l, K - 1, cols, cols)
      {
      }
    }
  }

  /** Each screen cell is its old value XOR whether a set sprite cell over it was visited. */
  lemma {:induction false} PaintedCell(f0: seq<seq<bool>>, mem: seq<byte>, i: nat, x0: nat, y0: nat, cols: nat,
                                       K: nat, L: nat, xx: nat, yy: nat)
    requires IsFrame(f0) && L <= cols && xx < WIDTH && yy < HEIGHT
    ensures Painted(f0, mem, i, x0, y0, cols, K, L)[xx][yy]
      == (f0[xx][yy] != Toggled(mem, i, x0, y0, cols, K, L, xx, yy))
    decreases K, L
  {
    if L > 0 {
      PaintedCell(f0, mem, i, x0, y0, cols, K, L - 1, xx, yy);
      assert Toggled(mem, i, x0, y0, cols, K, L, xx, yy)
        == (Toggled(mem, i, x0, y0, cols, K, L - 1, xx, yy)
            || (xx == x0 + (L - 1) && yy == y0 + K && i + K < |mem| && SpriteBit(mem[i + K], L - 1)));
    } else if K > 0 {
      PaintedCell(f0, mem, i, x0, y0, cols, K - 1, cols, xx, yy);
      assert Toggled(mem, i, x0, y0, cols, K, 0, xx, yy) == Toggled(mem, i, x0, y0, cols, K - 1, cols, xx, yy);
    }
  }

  /** VF's value: some visited set sprite cell lay on a pixel lit before the blit. */
  lemma {:induction false} CollidedUpToExists(f0: seq<seq<bool>>, mem: seq<byte>, i: nat, x0: nat, y0: nat, cols: nat,
                                              K: nat, L: nat)
    requires IsFrame(f0) && L <= cols
    ensures CollidedUpTo(f0, mem, i, x0, y0, cols, K, L) <==>
      exists k: nat, l: nat :: Visited(k, l, K, L, cols) && CellHit(f0, mem, i, x0, y0, k, l)
    decreases K, L
  {
    if L > 0 {
      CollidedUpToExists(f0, mem, i, x0, y0, cols, K, L - 1);
      var p := Painted(f0, mem, i, x0, y0, cols, K, L - 1);
      if x0 + (L - 1) < WIDTH && y0 + K < HEIGHT {
        PaintedCell(f0, mem, i, x0, y0, cols, K, L - 1, x0 + (L - 1), y0 + K);
      }
      assert CellHit(p, mem, i, x0, y0, K, L - 1) == CellHit(f0, mem, i, x0, y0, K, L - 1);
      if CollidedUpTo(f0, mem, i, x0, y0, cols, K, L) {
        if !CollidedUpTo(f0, mem, i, x0, y0, cols, K, L - 1) {
          assert Visited(K, L - 1, K, L, cols) && CellHit(f0, mem, i, x0, y0, K, L - 1);
        }
      } else {
        forall k: nat, l: nat | Visited(k, l, K, L, cols)
          ensures !CellHit(f0, mem, i, x0, y0, k, l)
        {
          if k != K || l != L - 1 {
            assert Visited(k, l, K, L - 1, cols);
          }
        }
      }
    } else if K > 0 {
      CollidedUpToExists(f0, mem, i, x0, y0, cols, K - 1, cols);
      forall k: nat, l: nat
        ensures Visited(k, l, K, 0, cols) <==> Visited(k, l, K - 1, cols, cols)
      {
      }
    }
  }

  /** The outcome of a blit: the new framebuffer and whether some pixel was erased. */
  datatype Blit = Blit(frame: seq<seq<bool>>, collision: bool)

  /** The blit of `rows` rows of `cols` cells from (x0, y0): a fault, or the painted frame. */
  function Blitted(frame: seq<seq<bool>>, mem: seq<byte>, i: nat, x0: nat, y0: nat, cols: nat, rows: nat): (r: Result<Blit>)
    requires IsFrame(frame)
    ensures r.Err? ==> r.fault == IndexOutOfBounds
    ensures r.Ok? ==> IsFrame(r.value.frame)
  {
    if InBoundsUpTo(mem, i, y0, cols, rows, 0) then
      Ok(Blit(Painted(frame, mem, i, x0, y0, cols, rows, 0), CollidedUpTo(frame, mem, i, x0, y0, cols, rows, 0)))
    else
      Err(IndexOutOfBounds)
  }

  /** The blit as the code performs it. */
  function Draw(frame: seq<seq<bool>>, mem: seq<byte>, i: nat, x: byte, y: byte, n: nat): (r: Result<Blit>)
    requires IsFrame(frame)
    ensures r.Err? ==> r.fault == IndexOutOfBounds
    ensures r.Ok? ==> IsFrame(r.value.frame)
  {
    var x0, y0 := x % WIDTH, y % HEIGHT;
    Blitted(frame, mem, i, x0, y0, Columns(x0), Rows(x0, y0, n))
  }

  /** The blit faults exactly when a visited row lies past the end of memory, or a visited
      set bit lies below row 31. */
  lemma DrawFaults(frame: seq<seq<bool>>, mem: seq<byte>, i: nat, x: byte, y: byte, n: nat)
    requires IsFrame(frame)
    ensures var x0, y0 := x % WIDTH, y % HEIGHT;
      var cols, rows := Columns(x0), Rows(x0, y0, n);
      Draw(frame, mem, i, x, y, n).Err? <==>
        (0 < rows && i + rows > |mem|)
        || exists k: nat, l: nat :: k < rows && l < cols && BitBelowScreen(mem, i, y0, k, l)
  {
    var x0, y0 := x % WIDTH, y % HEIGHT;
    var cols, rows := Columns(x0), Rows(x0, y0, n);
    InBoundsUpToForall(mem, i, y0, cols, rows, 0);
    if Draw(frame, mem, i, x, y, n).Err? {
      if !(0 < rows && i + rows > |mem|) {
        var k: nat, l: nat :| Visited(k, l, rows, 0, cols) && !CellInBounds(mem, i, y0, k, l);
        assert BitBelowScreen(mem, i, y0, k, l);
      }
    } else {
      if 0 < rows {
        assert Visited(rows - 1, 0, rows, 0, cols);
      }
      forall k: nat, l: nat | k < rows && l < cols
        ensures !BitBelowScreen(mem, i, y0, k, l)
      {
        assert Visited(k, l, rows, 0, cols);
      }
    }
  }

  /** Each screen cell ends as its old value XOR the sprite bit over it: cells inside the
      footprint flip exactly where the sprite bit is set, cells outside are unchanged. */
  lemma DrawFlipsFootprint(frame: seq<seq<bool>>, mem: seq<byte>, i: nat, x: byte, y: byte, n: nat, xx: nat, yy: nat)
    requires IsFrame(frame) && xx < WIDTH && yy < HEIGHT
    requires Draw(frame, mem, i, x, y, n).Ok?
    ensures var x0, y0 := x % WIDTH, y % HEIGHT;
      var inside := x0 <= xx < x0 + Columns(x0) && y0 <= yy < y0 + Rows(x0, y0, n);
      var after := Draw(frame, mem, i, x, y, n).value.frame[xx][yy];
      (inside ==> i + (yy - y0) < |mem| && after == (frame[xx][yy] != SpriteBit(mem[i + (yy - y0)], xx - x0)))
      && (!inside ==> after == frame[xx][yy])
  {
    var x0, y0 := x % WIDTH, y % HEIGHT;
    var cols, rows := Columns(x0), Rows(x0, y0, n);
    PaintedCell(frame, mem, i, x0, y0, cols, rows, 0, xx, yy);
    InBoundsUpToForall(mem, i, y0, cols, rows, 0);
    if x0 <= xx < x0 + cols && y0 <= yy < y0 + rows {
      assert Visited(yy - y0, xx - x0, rows, 0, cols);
    }
  }

  /** VF ends at 1 exactly when the blit turned some lit pixel off. */
  lemma CollisionIffErased(frame: seq<seq<bool>>, mem: seq<byte>, i: nat, x: byte, y: byte, n: nat)
    requires IsFrame(frame)
    requires Draw(frame, mem, i, x, y, n).Ok?
    ensures var b := Draw(frame, mem, i, x, y, n).value;
      b.collision <==> exists xx, yy :: 0 <= xx < WIDTH && 0 <= yy < HEIGHT && frame[xx][yy] && !b.frame[xx][yy]
  {
    var x0, y0 := x % WIDTH, y % HEIGHT;
    var cols, rows := Columns(x0), Rows(x0, y0, n);
    var b := Draw(frame, mem, i, x, y, n).value;
    CollidedUpToExists(frame, mem, i, x0, y0, cols, rows, 0);
    if b.collision {
      var k: nat, l: nat :| Visited(k, l, rows, 0, cols) && CellHit(frame, mem, i, x0, y0, k, l);
      PaintedCell(frame, mem, i, x0, y0, cols, rows, 0, x0 + l, y0 + k);
      assert frame[x0 + l][y0 + k] && !b.frame[x0 + l][y0 + k];
    }
    if exists xx, yy :: 0 <= xx < WIDTH && 0 <= yy < HEIGHT && frame[xx][yy] && !b.frame[xx][yy] {
      var xx, yy :| 0 <= xx < WIDTH && 0 <= yy < HEIGHT && frame[xx][yy] && !b.frame[xx][yy];
      PaintedCell(frame, mem, i, x0, y0, cols, rows, 0, xx, yy);
      assert Visited(yy - y0, xx - x0, rows, 0, cols) && CellHit(frame, mem, i, x0, y0, yy - y0, xx - x0);
    }
  }

  /** Drawing the same sprite again at the same place restores the screen. */
  lemma DrawTwiceRestores(frame: seq<seq<bool>>, mem: seq<byte>, i: nat, x: byte, y: byte, n: nat)
    requires IsFrame(frame)
    requires Draw(frame, mem, i, x, y, n).Ok?
    ensures var once := Draw(frame, mem, i, x, y, n).value.frame;
      Draw(once, mem, i, x, y, n).Ok? && Draw(once, mem, i, x, y, n).value.frame == frame
  {
    var x0, y0 := x % WIDTH, y % HEIGHT;
    var cols, rows := Columns(x0), Rows(x0, y0, n);
    var once := Draw(frame, mem, i, x, y, n).value.frame;
    var twice := Draw(once, mem, i, x, y, n).value.frame;
    forall xx, yy | 0 <= xx < WIDTH && 0 <= yy < HEIGHT
      ensures twice[xx][yy] == frame[xx][yy]
    {
      PaintedCell(frame, mem, i, x0, y0, cols, rows, 0, xx, yy);
      PaintedCell(once, mem, i, x0, y0, cols, rows, 0, xx, yy);
    }
    FrameExtensional(twice, frame);
  }

  /** No column past 63 and, when the origin is left of column 56, no row past 31 is visited. */
  lemma DrawStaysOnScreen(x: byte, y: byte, n: nat)
    ensures var x0, y0 := x % WIDTH, y % HEIGHT;
      x0 + Columns(x0) <= WIDTH && (x0 < WIDTH - 8 ==> y0 + Rows(x0, y0, n) <= HEIGHT)
  {
  }

  /** The rows visited by the blit as evidently intended: at most down to row 31, wherever
      the origin is. */
  function ClippedRows(y0: nat, n: nat): (r: nat)
    requires y0 < HEIGHT
    ensures r <= n && y0 + r <= HEIGHT && (r == n || y0 + r == HEIGHT)
  {
    if n <= HEIGHT - y0 then n else HEIGHT - y0
  }

  /** The blit with the row limit applied in every column. */
  function DrawClipped(frame: seq<seq<bool>>, mem: seq<byte>, i: nat, x: byte, y: byte, n: nat): (r: Result<Blit>)
    requires IsFrame(frame)
    ensures r.Err? ==> r.fault == IndexOutOfBounds
    ensures r.Ok? ==> IsFrame(r.value.frame)
  {
    var x0, y0 := x % WIDTH, y % HEIGHT;
    Blitted(frame, mem, i, x0, y0, Columns(x0), ClippedRows(y0, n))
  }

  /** The clipped blit faults only when the sprite's rows run past the end of memory. */
  lemma DrawClippedFaultsOnlyOnMemory(frame: seq<seq<bool>>, mem: seq<byte>, i: nat, x: byte, y: byte, n: nat)
    requires IsFrame(frame)
    ensures var rows := ClippedRows(y % HEIGHT, n);
      DrawClipped(frame, mem, i, x, y, n).Err? <==> 0 < rows && i + rows > |mem|
  {
    var x0, y0 := x % WIDTH, y % HEIGHT;
    var cols, rows := Columns(x0), ClippedRows(y0, n);
    InBoundsUpToForall(mem, i, y0, cols, rows, 0);
    if 0 < rows && i + rows > |mem| {
      assert Visited(rows - 1, 0, rows, 0, cols) && !CellInBounds(mem, i, y0, rows - 1, 0);
    }
  }

  /** Where the code's blit succeeds, it agrees with the clipped one. */
  lemma DrawClippedAgrees(frame: seq<seq<bool>>, mem: seq<byte>, i: nat, x: byte, y: byte, n: nat)
    requires IsFrame(frame)
    requires Draw(frame, mem, i, x, y, n).Ok?
    ensures DrawClipped(frame, mem, i, x, y, n) == Draw(frame, mem, i, x, y, n)
  {
    var x0, y0 := x % WIDTH, y % HEIGHT;
    var cols, rows, clipped := Columns(x0), Rows(x0, y0, n), ClippedRows(y0, n);
    var d := Draw(frame, mem, i, x, y, n).value;
    InBoundsUpToForall(mem, i, y0, cols, rows, 0);
    InBoundsUpToForall(mem, i, y0, cols, clipped, 0);
    forall k: nat, l: nat | Visited(k, l, clipped, 0, cols)
      ensures CellInBounds(mem, i, y0, k, l)
    {
      assert Visited(k, l, rows, 0, cols);
    }
    var c := DrawClipped(frame, mem, i, x, y, n).value;
    forall xx, yy | 0 <= xx < WIDTH && 0 <= yy < HEIGHT
      ensures c.frame[xx][yy] == d.frame[xx][yy]
    {
      PaintedCell(frame, mem, i, x0, y0, cols, rows, 0, xx, yy);
      PaintedCell(frame, mem, i, x0, y0, cols, clipped, 0, xx, yy);
    }
    FrameExtensional(c.frame, d.frame);
    CollidedUpToExists(frame, mem, i, x0, y0, cols, rows, 0);
    CollidedUpToExists(frame, mem, i, x0, y0, cols, clipped, 0);
    if d.collision {
      var k: nat, l: nat :| Visited(k, l, rows, 0, cols) && CellHit(frame, mem, i, x0, y0, k, l);
      assert Visited(k, l, clipped, 0, cols);
    }
    if c.collision {
      var k: nat, l: nat :| Visited(k, l, clipped, 0, cols) && CellHit(frame, mem, i, x0, y0, k, l);
      assert Visited(k, l, rows, 0, cols);
    }
  }

  /** A two-row sprite at column 56, row 31, faults in the code although the evident
      intent clips its second row. */
  lemma DrawPastBottomFaults(frame: seq<seq<bool>>, mem: seq<byte>)
    requires IsFrame(frame) && |mem| == MEMORY_SIZE
    requires mem[0x300] == 0x80 && mem[0x301] == 0x80
    ensures Draw(frame, mem, 0x300, 56, 31, 2).Err?
    ensures DrawClipped(frame, mem, 0x300, 56, 31, 2).Ok?
  {
    assert BitBelowScreen(mem, 0x300, 31, 1, 0);
    DrawFaults(frame, mem, 0x300, 56, 31, 2);
    DrawClippedFaultsOnlyOnMemory(frame, mem, 0x300, 56, 31, 2);
  }

  /** The code's `buf_clear_screen`. */
  method BufClearScreen(m: Chip8)
    requires m.Valid()
    modifies m.displayBuf
    ensures FrameOf(m.displayBuf) == BlankFrame()
  {
    for x := 0 to WIDTH
      invariant forall xx, yy :: 0 <= xx < x && 0 <= yy < HEIGHT ==> !m.displayBuf[xx, yy]
    {
      for y := 0 to HEIGHT
        invariant forall xx, yy :: 0 <= xx < x && 0 <= yy < HEIGHT ==> !m.displayBuf[xx, yy]
        invariant forall yy :: 0 <= yy < y ==> !m.displayBuf[x, yy]
      {
        m.displayBuf[x, y] := false;
      }
    }
    FrameExtensional(FrameOf(m.displayBuf), BlankFrame());
  }

  /** The array holds exactly the frame f. */
  ghost predicate Shows(d: array2<bool>, f: seq<seq<bool>>)
    reads d
  {
    d.Length0 == WIDTH && d.Length1 == HEIGHT && IsFrame(f)
    && forall xx, yy :: 0 <= xx < WIDTH && 0 <= yy < HEIGHT ==> d[xx, yy] == f[xx][yy]
  }

  /** The state of the blit loop at (K, L): no fault so far, the array shows the painted
      frame, and VF records whether a visit found its cell lit. */
  ghost predicate BlitState(m: Chip8, f0: seq<seq<bool>>, mem: seq<byte>, v0: seq<byte>, i: nat,
                            x0: nat, y0: nat, cols: nat, K: nat, L: nat)
    reads m, m.displayBuf, m.V
  {
    m.Valid() && IsFrame(f0) && |v0| == 16 && L <= cols
    && InBoundsUpTo(mem, i, y0, cols, K, L)
    && Shows(m.displayBuf, Painted(f0, mem, i, x0, y0, cols, K, L))
    && m.V[..] == v0[15 := if CollidedUpTo(f0, mem, i, x0, y0, cols, K, L) then 1 else 0]
  }

  /** One pass of the inner loop's body: read row k, test bit l with the mask, and flip the
      screen cell under it, raising VF when it was lit. */
  method BlitCell(m: Chip8, i: nat, x0: nat, y0: nat, k: nat, l: nat, mask: byte,
                  ghost f0: seq<seq<bool>>, ghost mem: seq<byte>, ghost v0: seq<byte>, ghost cols: nat)
    returns (r: Result<()>)
    requires BlitState(m, f0, mem, v0, i, x0, y0, cols, k, l)
    requires m.memory[..] == mem && l < cols && x0 + l < WIDTH && l < 8 && mask == Pow2(7 - l)
    modifies m.displayBuf, m.V
    ensures r.Err? ==> r.fault == IndexOutOfBounds && !CellInBounds(mem, i, y0, k, l)
    ensures r.Ok? ==> BlitState(m, f0, mem, v0, i, x0, y0, cols, k, l + 1)
  {
    if i + k >= MEMORY_SIZE {
      return Err(IndexOutOfBounds);
    }
    var row := m.memory[i + k];
    AndSingleBit(row, 7 - l);
    if BitAnd(row, mask) == mask {
      if y0 + k >= HEIGHT {
        return Err(IndexOutOfBounds);
      }
      if m.displayBuf[x0 + l, y0 + k] {
        m.V[15] := 1;
        m.displayBuf[x0 + l, y0 + k] := false;
      } else {
        m.displayBuf[x0 + l, y0 + k] := true;
      }
    }
    r := Ok(());
  }

  /** A fault at a visited cell makes the whole blit fault. */
  lemma FaultIsFinal(frame: seq<seq<bool>>, mem: seq<byte>, i: nat, x: byte, y: byte, n: nat, k: nat, l: nat)
    requires IsFrame(frame) && k < Rows(x % WIDTH, y % HEIGHT, n) && l < Columns(x % WIDTH)
    requires !CellInBounds(mem, i, y % HEIGHT, k, l)
    ensures Draw(frame, mem, i, x, y, n).Err?
  {
    var x0, y0 := x % WIDTH, y % HEIGHT;
    InBoundsUpToForall(mem, i, y0, Columns(x0), Rows(x0, y0, n), 0);
    assert Visited(k, l, Rows(x0, y0, n), 0, Columns(x0));
  }

  /** Reaching the end of the last visited row without a fault completes the blit. */
  lemma BlitComplete(m: Chip8, f0: seq<seq<bool>>, mem: seq<byte>, v0: seq<byte>, i: nat, x: byte, y: byte, n: nat)
    requires IsFrame(f0)
    requires BlitState(m, f0, mem, v0, i, x % WIDTH, y % HEIGHT, Columns(x % WIDTH), Rows(x % WIDTH, y % HEIGHT, n), 0)
    ensures var d := Draw(f0, mem, i, x, y, n);
      d.Ok? && FrameOf(m.displayBuf) == d.value.frame
      && m.V[..] == v0[15 := if d.value.collision then 1 else 0]
  {
    var x0, y0 := x % WIDTH, y % HEIGHT;
    FrameExtensional(FrameOf(m.displayBuf), Painted(f0, mem, i, x0, y0, Columns(x0), Rows(x0, y0, n), 0));
  }

  /** The code's `buf_draw_sprite`: VF is cleared, then the rows are blitted with the
      code's loop structure. The outcome, the screen and VF are those of `Draw`. */
  method BufDrawSprite(m: Chip8, x: byte, y: byte, n: byte) returns (r: Result<()>)
    requires m.Valid()
    modifies m.displayBuf, m.V
    ensures var spec := Draw(old(FrameOf(m.displayBuf)), m.memory[..], m.i, x, y, n);
      r.Ok? == spec.Ok? && (r.Err? ==> r.fault == spec.fault)
      && (r.Ok? ==> FrameOf(m.displayBuf) == spec.value.frame
                    && m.V[..] == old(m.V[..])[15 := if spec.value.collision then 1 else 0])
  {
    ghost var f0 := FrameOf(m.displayBuf);
    ghost var mem := m.memory[..];
    ghost var v0 := m.V[..];
    var i: nat := m.i;
    m.V[15] := 0;
    var x0: nat := x % WIDTH;
    var y0: nat := y % HEIGHT;
    ghost var cols := Columns(x0);
    var mask: byte;
    ghost var done: nat := 0;
    Pow2Table();

    label outer:
    for k := 0 to n
      invariant done == k
      invariant x0 < WIDTH - 8 ==> y0 + k < HEIGHT
      invariant BlitState(m, f0, mem, v0, i, x0, y0, cols, done, 0)
    {
      mask := 0x80;
      for l := 0 to 8
        invariant x0 + l < WIDTH
        invariant l < 8 ==> mask == Pow2(7 - l)
        invariant BlitState(m, f0, mem, v0, i, x0, y0, cols, k, l)
      {
        var res := BlitCell(m, i, x0, y0, k, l, mask, f0, mem, v0, cols);
        if res.Err? {
          FaultIsFinal(f0, mem, i, x, y, n, k, l);
          return res;
        }
        if x0 + l >= WIDTH - 1 {
          done := k + 1;
          continue outer;
        }
        if l < 7 {
          HalvePow2(7 - l);
        }
        mask := mask / 2;
      }
      done := k + 1;
      if y0 + k >= HEIGHT - 1 {
        break;
      }
    }
    assert done == Rows(x0, y0, n);
    BlitComplete(m, f0, mem, v0, i, x, y, n);
    r := Ok(());
  }
}
