/** The interpreter's state record and its life cycle: the initial state with the font in
    memory, and the copy of a program image to 0x200. The record is a class over arrays, as
    in the code; `Snapshot()` reads it as a value so that each operation can be specified by
    a function on values. */
module Machine {
  import opened Bits
  import opened Outcomes

  const MEMORY_SIZE: nat := 4096
  const WIDTH: nat := 64
  const HEIGHT: nat := 32
  const FONT_START: nat := 0x50
  const PROGRAM_START: nat := 0x200

  /** The five rows of the glyph for hexadecimal digit g; each row's high nibble is drawn. */
  function Glyph(g: nat): (r: seq<byte>)
    requires g < 16
    ensures |r| == 5 && forall j :: 0 <= j < 5 ==> r[j] != 0 && r[j] % 0x10 == 0
  {
    match g
    case 0x0 => [0xF0, 0x90, 0x90, 0x90, 0xF0]
    case 0x1 => [0x20, 0x60, 0x20, 0x20, 0x70]
    case 0x2 => [0xF0, 0x10, 0xF0, 0x80, 0xF0]
    case 0x3 => [0xF0, 0x10, 0xF0, 0x10, 0xF0]
    case 0x4 => [0x90, 0x90, 0xF0, 0x10, 0x10]
    case 0x5 => [0xF0, 0x80, 0xF0, 0x10, 0xF0]
    case 0x6 => [0xF0, 0x80, 0xF0, 0x90, 0xF0]
    case 0x7 => [0xF0, 0x10, 0x20, 0x40, 0x40]
    case 0x8 => [0xF0, 0x90, 0xF0, 0x90, 0xF0]
    case 0x9 => [0xF0, 0x90, 0xF0, 0x10, 0xF0]
    case 0xA => [0xF0, 0x90, 0xF0, 0x90, 0x90]
    case 0xB => [0xE0, 0x90, 0xE0, 0x90, 0xE0]
    case 0xC => [0xF0, 0x80, 0x80, 0x80, 0xF0]
    case 0xD => [0xE0, 0x90, 0x90, 0x90, 0xE0]
    case 0xE => [0xF0, 0x80, 0xF0, 0x80, 0xF0]
    case 0xF => [0xF0, 0x80, 0xF0, 0x80, 0x80]
  }

  /** The 80-byte font table: the sixteen glyphs one after the other. */
  const FONT: seq<byte> := seq(80, k requires 0 <= k < 80 => Glyph(k / 5)[k % 5])

  /** A framebuffer: 64 columns of 32 cells, indexed [x][y] as in the code. */
  predicate IsFrame(d: seq<seq<bool>>) {
    |d| == WIDTH && forall x :: 0 <= x < WIDTH ==> |d[x]| == HEIGHT
  }

  /** The whole machine as a value. */
  datatype State = State(
    memory: seq<byte>,
    display: seq<seq<bool>>,
    pc: u16,
    i: u16,
    stack: seq<u16>,
    delayTimer: u32,
    soundTimer: u32,
    v: seq<byte>,
    fontLocation: u16,
    drawFlag: bool,
    timersDecFlag: bool)

  predicate WellFormed(s: State) {
    |s.memory| == MEMORY_SIZE && |s.v| == 16 && IsFrame(s.display)
  }

  /** The frame with every cell off. */
  function BlankFrame(): (d: seq<seq<bool>>)
    ensures IsFrame(d)
    ensures forall x, y :: 0 <= x < WIDTH && 0 <= y < HEIGHT ==> !d[x][y]
  {
    seq(WIDTH, _ => seq(HEIGHT, _ => false))
  }

  /** Zeroed memory with the font copied in at 0x50. */
  function InitialMemory(): seq<byte> {
    seq(FONT_START, _ => 0) + FONT + seq(MEMORY_SIZE - FONT_START - |FONT|, _ => 0)
  }

  /** The machine `init` builds, with the font in place (`init_font`); its contents are
      stated by `InitialMemoryLayout` and `InitialRegisters`. */
  function InitialState(): (s: State)
    ensures WellFormed(s)
  {
    var registers: seq<byte> := seq(16, _ => 0);
    State(InitialMemory(), BlankFrame(), PROGRAM_START as u16, 0, [], 0, 0, registers,
      0x200, false, false)
  }

  /** After start-up, memory holds the font at 0x50..0x9F and zeros everywhere else. */
  lemma InitialMemoryLayout()
    ensures WellFormed(InitialState())
    ensures forall a :: 0 <= a < MEMORY_SIZE ==>
      InitialState().memory[a] == if FONT_START <= a < FONT_START + 80 then FONT[a - FONT_START] else 0
  {
    var m := InitialMemory();
    assert |FONT| == 80;
    forall a | 0 <= a < MEMORY_SIZE
      ensures m[a] == if FONT_START <= a < FONT_START + 80 then FONT[a - FONT_START] else 0
    {
      if a < FONT_START {
        assert m[a] == seq(FONT_START, _ => 0)[a];
      } else if a < FONT_START + 80 {
        assert m[a] == (seq(FONT_START, _ => 0) + FONT)[a];
      }
    }
  }

  /** After start-up the registers, timers, stack and flags are clear and pc is at 0x200. */
  lemma InitialRegisters()
    ensures var s := InitialState();
      s.pc == 0x200 && s.i == 0 && s.stack == [] && s.delayTimer == 0 && s.soundTimer == 0
      && (forall r :: 0 <= r < 16 ==> s.v[r] == 0) && !s.drawFlag
      && (forall x, y :: 0 <= x < WIDTH && 0 <= y < HEIGHT ==> !s.display[x][y])
  {
  }

  /** The font has sixteen glyphs of five bytes, glyph g at offset 5 * g. */
  lemma FontShape(g: nat)
    requires g < 16
    ensures |FONT| == 16 * 5
    ensures FONT[5 * g .. 5 * g + 5] == Glyph(g)
    ensures forall b :: b in FONT ==> b != 0
  {
  }

  /** The initial `font_location` is 0x200, where the program goes, not 0x50, where the font
      is: the byte it points at is the program's (zero before loading), not glyph 0's F0. */
  lemma FontLocationMisplaced()
    ensures InitialState().fontLocation == PROGRAM_START
    ensures InitialState().fontLocation != FONT_START
    ensures InitialState().memory[InitialState().fontLocation] == 0 != FONT[0]
  {
    InitialMemoryLayout();
  }

  /** The corrected start-up state: `font_location` points at the font. */
  function CorrectedInitialState(): State {
    InitialState().(fontLocation := FONT_START as u16)
  }

  /** In the corrected state, glyph g is found at font_location + 5 * g for every digit g. */
  lemma CorrectedFontLocation(g: nat)
    requires g < 16
    ensures var s := CorrectedInitialState();
      s.memory[s.fontLocation + 5 * g .. s.fontLocation + 5 * g + 5] == Glyph(g)
  {
    var m := InitialMemory();
    var pre := seq(FONT_START, _ => 0);
    var base := FONT_START + 5 * g;
    FontShape(g);
    forall j | base <= j < base + 5
      ensures m[j] == FONT[j - FONT_START]
    {
      assert m[j] == (pre + FONT)[j];
    }
    assert m[base .. base + 5] == FONT[5 * g .. 5 * g + 5];
  }

  /** The memory after copying a program image to 0x200; an image longer than the space
      above 0x200 makes the slice index fail. */
  function LoadImage(mem: seq<byte>, image: seq<byte>): (r: Result<seq<byte>>)
    requires |mem| == MEMORY_SIZE
    ensures r.Ok? <==> |image| <= MEMORY_SIZE - PROGRAM_START
    ensures r.Err? ==> r.fault == IndexOutOfBounds
    ensures r.Ok? ==> |r.value| == MEMORY_SIZE
    ensures r.Ok? ==> forall a :: 0 <= a < MEMORY_SIZE ==>
      r.value[a] == if PROGRAM_START <= a < PROGRAM_START + |image| then image[a - PROGRAM_START] else mem[a]
  {
    if |image| > MEMORY_SIZE - PROGRAM_START then Err(IndexOutOfBounds)
    else Ok(mem[..PROGRAM_START] + image + mem[PROGRAM_START + |image|..])
  }

  /** Loading into the initial state keeps the font intact. */
  lemma LoadKeepsFont(image: seq<byte>)
    requires |image| <= MEMORY_SIZE - PROGRAM_START
    ensures var r := LoadImage(InitialState().memory, image);
      r.Ok? && r.value[FONT_START .. FONT_START + 80] == FONT
  {
    InitialMemoryLayout();
    var mem := LoadImage(InitialState().memory, image).value;
    forall k | 0 <= k < 80
      ensures mem[FONT_START .. FONT_START + 80][k] == FONT[k]
    {
      assert mem[FONT_START + k] == InitialState().memory[FONT_START + k];
    }
  }

  /** The cells of a 64 x 32 bool array as a frame. */
  ghost function FrameOf(d: array2<bool>): (f: seq<seq<bool>>)
    requires d.Length0 == WIDTH && d.Length1 == HEIGHT
    reads d
    ensures IsFrame(f)
    ensures forall x, y :: 0 <= x < WIDTH && 0 <= y < HEIGHT ==> f[x][y] == d[x, y]
  {
    seq(WIDTH, x requires 0 <= x < WIDTH reads d => seq(HEIGHT, y requires 0 <= y < HEIGHT reads d => d[x, y]))
  }

  /** A frame is determined by its cells. */
  lemma FrameExtensional(f: seq<seq<bool>>, g: seq<seq<bool>>)
    requires IsFrame(f) && IsFrame(g)
    requires forall x, y :: 0 <= x < WIDTH && 0 <= y < HEIGHT ==> f[x][y] == g[x][y]
    ensures f == g
  {
    forall x | 0 <= x < WIDTH
      ensures f[x] == g[x]
    {
      assert forall y :: 0 <= y < HEIGHT ==> f[x][y] == g[x][y];
    }
  }

  class Chip8 {
    var memory: array<byte>
    var displayBuf: array2<bool>
    var pc: u16
    var i: u16
    var stack: seq<u16>
    var delayTimer: u32
    var soundTimer: u32
    var V: array<byte>
    var fontLocation: u16
    var drawFlag: bool
    var timersDecFlag: bool

    ghost predicate Valid()
      reads this
    {
      memory.Length == MEMORY_SIZE && V.Length == 16
      && displayBuf.Length0 == WIDTH && displayBuf.Length1 == HEIGHT
      && memory != V
    }

    /** The machine as a value. */
    ghost function Snapshot(): (s: State)
      requires Valid()
      reads this, memory, V, displayBuf
      ensures WellFormed(s)
    {
      State(memory[..], FrameOf(displayBuf), pc, i, stack, delayTimer, soundTimer, V[..],
        fontLocation, drawFlag, timersDecFlag)
    }

    /** One register write, as each arm of `execute_opcode` does it; nothing else moves. */
    method SetRegister(x: nat, b: byte)
      requires Valid() && x < 16
      modifies V
      ensures Snapshot() == old(Snapshot()).(v := old(V[..])[x := b])
    {
      V[x] := b;
      assert V[..] == old(V[..])[x := b];
    }

    /** The code's `init`: zeroed memory, registers and screen, pc at 0x200, then the font. */
    constructor Init()
      ensures Valid() && Snapshot() == InitialState()
      ensures fresh(memory) && fresh(V) && fresh(displayBuf)
    {
      memory := new byte[MEMORY_SIZE](_ => 0);
      displayBuf := new bool[WIDTH, HEIGHT]((_, _) => false);
      pc := PROGRAM_START as u16;
      i := 0;
      stack := [];
      delayTimer := 0;
      soundTimer := 0;
      V := new byte[16](_ => 0);
      fontLocation := 0x200;
      drawFlag := false;
      timersDecFlag := false;
      new;
      assert memory[..] == seq(MEMORY_SIZE, _ => 0);
      InitFont();
      assert memory[..] == InitialMemory();
      assert V[..] == seq(16, _ => 0);
      FrameExtensional(FrameOf(displayBuf), BlankFrame());
    }

    /** The code's `init_font`: copy the 80 font bytes to 0x50..0x9F. */
    method InitFont()
      requires Valid()
      modifies memory
      ensures memory[..] == old(memory[..])[..FONT_START] + FONT + old(memory[..])[FONT_START + |FONT|..]
    {
      forall a | FONT_START <= a < FONT_START + |FONT| {
        memory[a] := FONT[a - FONT_START];
      }
      assert memory[..] == old(memory[..])[..FONT_START] + FONT + old(memory[..])[FONT_START + |FONT|..];
    }

    /** The copy step of the code's `load_data`: the image goes to 0x200 verbatim. Reading
        the file is left to the caller. */
    method LoadData(image: seq<byte>) returns (r: Result<()>)
      requires Valid()
      modifies memory
      ensures var spec := LoadImage(old(memory[..]), image);
        r.Ok? == spec.Ok? && (r.Ok? ==> memory[..] == spec.value) && (r.Err? ==> r.fault == spec.fault)
    {
      if |image| > MEMORY_SIZE - PROGRAM_START {
        return Err(IndexOutOfBounds);
      }
      forall a | PROGRAM_START <= a < PROGRAM_START + |image| {
        memory[a] := image[a - PROGRAM_START];
      }
      assert memory[..] == old(memory[..])[..PROGRAM_START] + image + old(memory[..])[PROGRAM_START + |image|..];
      r := Ok(());
    }
  }
}
