/** Fetching and executing one instruction.

    `Fetch` and `Execute` say what one fetch and one instruction do to the machine as a
    value; `FetchOpcode` and `ExecuteOpcode` are the code's `fetch_opcode` and
    `execute_opcode` on the machine object, proved to agree with them. A Rust panic (index
    out of bounds, `u16` overflow in a debug build, `unwrap` on `None`) is an `Err`
    outcome, as is the one error the code returns, a return with an empty stack. */
module Executor {
  import opened Bits
  import opened Outcomes
  import opened OpCodes
  import opened Keymap
  import opened Input
  import opened Machine
  import opened Framebuffer

  /** The code's `pc += 2` for a skip taken when `cond` holds. */
  function SkipIf(s: State, cond: bool): Result<State> {
    if !cond then Ok(s)
    else if s.pc + 2 > 0xFFFF then Err(ArithmeticOverflow)
    else Ok(s.(pc := s.pc + 2))
  }

  /** Reading the instruction word at pc and advancing pc by 2, then decoding. The fetch
      fails exactly when the second byte lies past memory; otherwise it moves pc on by 2
      and changes nothing else, whether or not the word decodes. */
  function Fetch(s: State): (r: Result<(State, Option<OpCode>)>)
    requires WellFormed(s)
    ensures r.Ok? <==> s.pc + 2 <= MEMORY_SIZE
    ensures r.Err? ==> r.fault == IndexOutOfBounds
    ensures r.Ok? ==> WellFormed(r.value.0) && r.value.0 == s.(pc := s.pc + 2)
  {
    if s.pc + 1 >= MEMORY_SIZE then Err(IndexOutOfBounds)
    else Ok((s.(pc := s.pc + 2), Decode(s.memory[s.pc] as int * 0x100 + s.memory[s.pc + 1])))
  }

  /** The instruction groups, each given its own function below. */
  predicate IsControl(op: OpCode) {
    op.ClearScreen? || op.Return? || op.Jump? || op.CallSubroutine? || op.JumpToV0Plus? || op.AwaitKey?
  }

  predicate IsSkip(op: OpCode) {
    op.CondEq? || op.CondNEq? || op.CondEqReg? || op.CondNEqReg? || op.IsKeyPressed? || op.IsKeyNPressed?
  }

  predicate IsRegisterLoad(op: OpCode) {
    op.SetReg? || op.AddToReg? || op.AssignRegToReg? || op.BitwiseOr? || op.BitwiseAnd?
    || op.BitwiseXor? || op.RegRandBitwiseAnd?
  }

  predicate IsFlagArithmetic(op: OpCode) {
    op.AddRegToReg? || op.SubRegToReg? || op.StoreLSBWithShift? || op.SubRegFromReg?
    || op.StoreMSBWithShift?
  }

  predicate IsIndexOrTimer(op: OpCode) {
    op.SetI? || op.SetRegToTimer? || op.SetDelayTimer? || op.SetSoundTimer? || op.AddRegToI?
    || op.SetIToSprite? || op.DrawSprite?
  }

  predicate IsMemoryCopy(op: OpCode) {
    op.ToDecimal? || op.DumpRegs? || op.LoadRegs?
  }

  /** One instruction on the machine `s`, with keypad snapshot `h` and random byte `rnd`. */
  function Execute(s: State, op: OpCode, h: InputHandler, rnd: byte): (r: Result<State>)
    requires WellFormed(s)
    ensures r.Ok? ==> WellFormed(r.value)
  {
    if IsControl(op) then Control(s, op, h)
    else if IsSkip(op) then Skip(s, op, h)
    else if IsRegisterLoad(op) then RegisterLoad(s, op, rnd)
    else if IsFlagArithmetic(op) then FlagArithmetic(s, op)
    else if IsIndexOrTimer(op) then IndexOrTimer(s, op)
    else MemoryCopy(s, op)
  }

  /** 00E0, 00EE, 1NNN, 2NNN, BNNN and FX0A: the screen, the stack and pc. */
  function Control(s: State, op: OpCode, h: InputHandler): (r: Result<State>)
    requires WellFormed(s) && IsControl(op)
    ensures r.Ok? ==> WellFormed(r.value)
  {
    match op
    case ClearScreen => Ok(s.(display := BlankFrame(), drawFlag := true))
    case Return =>
      if |s.stack| == 0 then Err(ReturnWithEmptyStack)
      else Ok(s.(pc := s.stack[|s.stack| - 1], stack := s.stack[..|s.stack| - 1]))
    case Jump(nnn) => Ok(s.(pc := nnn))
    case CallSubroutine(nnn) => Ok(s.(stack := s.stack + [s.pc], pc := nnn))
    case JumpToV0Plus(nnn) => Ok(s.(pc := s.v[0] + nnn))
    case AwaitKey(x) =>
      match AnyKeyPressed(h)
      case Some(c) => Ok(s.(v := s.v[x := c]))
      case None => if s.pc < 2 then Err(ArithmeticOverflow) else Ok(s.(pc := s.pc - 2))
  }

  /** 3XNN, 4XNN, 5XY0, 9XY0, EX9E and EXA1: the conditional skips. */
  function Skip(s: State, op: OpCode, h: InputHandler): (r: Result<State>)
    requires WellFormed(s) && IsSkip(op)
    ensures r.Ok? ==> WellFormed(r.value)
  {
    var v := s.v;
    match op
    case CondEq(x, nn) => SkipIf(s, v[x] == nn)
    case CondNEq(x, nn) => SkipIf(s, v[x] != nn)
    case CondEqReg(x, y) => SkipIf(s, v[x] == v[y])
    case CondNEqReg(x, y) => SkipIf(s, v[x] != v[y])
    case IsKeyPressed(x) =>
      var key := KKeyFromCode(v[x]);
      if key.None? then Err(UnwrapOnNone) else SkipIf(s, IsKeyDown(h, key.value))
    case IsKeyNPressed(x) =>
      var key := KKeyFromCode(v[x]);
      if key.None? then Err(UnwrapOnNone) else SkipIf(s, IsKeyUp(h, key.value))
  }

  /** 6XNN, 7XNN, 8XY0-8XY3 and CXNN: a register set from a constant, a register or a byte
      operation; VF is not touched (unless it is VX). */
  function RegisterLoad(s: State, op: OpCode, rnd: byte): (r: Result<State>)
    requires WellFormed(s) && IsRegisterLoad(op)
    ensures r.Ok? ==> WellFormed(r.value)
  {
    var v := s.v;
    match op
    case SetReg(x, nn) => Ok(s.(v := v[x := nn]))
    case AddToReg(x, nn) => Ok(s.(v := v[x := (v[x] as int + nn) % 0x100]))
    case AssignRegToReg(x, y) => Ok(s.(v := v[x := v[y]]))
    case BitwiseOr(x, y) => ByteOps(v[x], v[y]); Ok(s.(v := v[x := BitOr(v[x], v[y])]))
    case BitwiseAnd(x, y) => ByteOps(v[x], v[y]); Ok(s.(v := v[x := BitAnd(v[x], v[y])]))
    case BitwiseXor(x, y) => ByteOps(v[x], v[y]); Ok(s.(v := v[x := BitXor(v[x], v[y])]))
    case RegRandBitwiseAnd(x, nn) => ByteOps(rnd, nn); Ok(s.(v := v[x := BitAnd(rnd, nn)]))
  }

  /** 8XY4-8XY7 and 8XYE: arithmetic that writes VX and then the carry, borrow or shifted-out
      bit to VF. */
  function FlagArithmetic(s: State, op: OpCode): (r: Result<State>)
    requires WellFormed(s) && IsFlagArithmetic(op)
    ensures r.Ok? ==> WellFormed(r.value)
  {
    var v := s.v;
    match op
    case AddRegToReg(x, y) =>
      Ok(s.(v := v[x := (v[x] as int + v[y]) % 0x100][15 := if v[x] as int + v[y] > 0xFF then 1 else 0]))
    case SubRegToReg(x, y) =>
      Ok(s.(v := v[x := (v[x] as int - v[y]) % 0x100][15 := if v[x] >= v[y] then 1 else 0]))
    case StoreLSBWithShift(x) =>
      ByteOps(v[x], 1);
      var w := v[15 := BitAnd(v[x], 1)];
      Ok(s.(v := w[x := w[x] / 2]))
    case SubRegFromReg(x, y) =>
      Ok(s.(v := v[x := (v[y] as int - v[x]) % 0x100][15 := if v[y] >= v[x] then 1 else 0]))
    case StoreMSBWithShift(x) =>
      var w := v[15 := v[x] / 0x80];
      Ok(s.(v := w[x := (w[x] as int * 2) % 0x100]))
  }

  /** ANNN, DXYN and FX07, FX15, FX18, FX1E, FX29: I, the timers and the blit. */
  function IndexOrTimer(s: State, op: OpCode): (r: Result<State>)
    requires WellFormed(s) && IsIndexOrTimer(op)
    ensures r.Ok? ==> WellFormed(r.value)
  {
    var v := s.v;
    match op
    case SetI(nnn) => Ok(s.(i := nnn))
    case DrawSprite(x, y, n) =>
      var d := Draw(s.display, s.memory, s.i, v[x], v[y], n);
      if d.Err? then Err(d.fault)
      else Ok(s.(display := d.value.frame, v := v[15 := if d.value.collision then 1 else 0], drawFlag := true))
    case SetRegToTimer(x) => Ok(s.(v := v[x := s.delayTimer % 0x100]))
    case SetDelayTimer(x) => Ok(s.(delayTimer := v[x]))
    case SetSoundTimer(x) => Ok(s.(soundTimer := v[x]))
    case AddRegToI(x) => if s.i as int + v[x] > 0xFFFF then Err(ArithmeticOverflow) else Ok(s.(i := s.i + v[x]))
    case SetIToSprite(x) =>
      var a := s.fontLocation + 5 * (v[x] % 15);
      if a > 0xFFFF then Err(ArithmeticOverflow) else Ok(s.(i := a))
  }

  /** FX33, FX55 and FX65: the copies between registers and memory at I. */
  function MemoryCopy(s: State, op: OpCode): (r: Result<State>)
    requires WellFormed(s) && IsMemoryCopy(op)
    ensures r.Ok? ==> WellFormed(r.value)
  {
    var v := s.v;
    match op
    case ToDecimal(x) =>
      if s.i + 2 >= MEMORY_SIZE then Err(IndexOutOfBounds)
      else Ok(s.(memory := s.memory[s.i := v[x] / 100][s.i + 1 := (v[x] % 100) / 10][s.i + 2 := v[x] % 10]))
    case DumpRegs(x) =>
      if s.i + x >= MEMORY_SIZE then Err(IndexOutOfBounds)
      else Ok(s.(memory := s.memory[..s.i] + v[..x + 1] + s.memory[s.i + x + 1..]))
    case LoadRegs(x) =>
      if s.i + x >= MEMORY_SIZE then Err(IndexOutOfBounds)
      else Ok(s.(v := s.memory[s.i .. s.i + x + 1] + v[x + 1..]))
  }

  // ---------------------------------------------------------------------------------------
  // Fetch

  /** The two bytes of an encoded instruction at pc fetch as that instruction. */
  lemma FetchDecodesEncoded(s: State, op: OpCode)
    requires WellFormed(s) && s.pc + 1 < MEMORY_SIZE
    requires s.memory[s.pc] == Encode(op) / 0x100 && s.memory[s.pc + 1] == Encode(op) % 0x100
    ensures Fetch(s) == Ok((s.(pc := s.pc + 2), Some(op)))
  {
    DecodeEncode(op);
    FetchReadsWord(s, Encode(op));
  }

  /** The word fetched is the big-endian join of the two bytes at pc. */
  lemma FetchReadsWord(s: State, w: u16)
    requires WellFormed(s) && s.pc + 1 < MEMORY_SIZE
    requires s.memory[s.pc] == w / 0x100 && s.memory[s.pc + 1] == w % 0x100
    ensures Fetch(s) == Ok((s.(pc := s.pc + 2), Decode(w)))
  {
    assert s.memory[s.pc] as int * 0x100 + s.memory[s.pc + 1] == w;
  }

  // ---------------------------------------------------------------------------------------
  // Arithmetic and flags

  /** 8XY4: VX and VF together hold the true sum, VF being the carry; VF is written last,
      so for X = F it holds the carry; no other register changes. */
  lemma AddRegToRegCarry(s: State, x: Reg, y: Reg, h: InputHandler, rnd: byte)
    requires WellFormed(s)
    ensures var r := Execute(s, AddRegToReg(x, y), h, rnd);
      r.Ok? && r.value == s.(v := r.value.v)
      && r.value.v[15] == (if s.v[x] as int + s.v[y] > 0xFF then 1 else 0)
      && (x != 15 ==> r.value.v[x] as int + 0x100 * (r.value.v[15] as int) == s.v[x] as int + s.v[y])
      && forall j :: 0 <= j < 16 && j != x && j != 15 ==> r.value.v[j] == s.v[j]
  {
  }

  /** 8XY5: VX - VY modulo 256 with VF = 1 exactly when no borrow (VX >= VY). */
  lemma SubRegToRegBorrow(s: State, x: Reg, y: Reg, h: InputHandler, rnd: byte)
    requires WellFormed(s)
    ensures var r := Execute(s, SubRegToReg(x, y), h, rnd);
      r.Ok? && r.value == s.(v := r.value.v)
      && r.value.v[15] == (if s.v[x] >= s.v[y] then 1 else 0)
      && (x != 15 ==> r.value.v[x] == s.v[x] as int - s.v[y] + 0x100 * (1 - r.value.v[15] as int))
      && forall j :: 0 <= j < 16 && j != x && j != 15 ==> r.value.v[j] == s.v[j]
  {
  }

  /** 8XY7: VY - VX modulo 256 into VX with VF = 1 exactly when VY >= VX. */
  lemma SubRegFromRegBorrow(s: State, x: Reg, y: Reg, h: InputHandler, rnd: byte)
    requires WellFormed(s)
    ensures var r := Execute(s, SubRegFromReg(x, y), h, rnd);
      r.Ok? && r.value == s.(v := r.value.v)
      && r.value.v[15] == (if s.v[y] >= s.v[x] then 1 else 0)
      && (x != 15 ==> r.value.v[x] == s.v[y] as int - s.v[x] + 0x100 * (1 - r.value.v[15] as int))
      && forall j :: 0 <= j < 16 && j != x && j != 15 ==> r.value.v[j] == s.v[j]
  {
  }

  /** 8XY6: VF gets bit 0 and VX is halved, so 2 * VX + VF is the old VX; for X = F the
      flag itself is shifted and VF ends at 0. */
  lemma ShiftRightFlag(s: State, x: Reg, h: InputHandler, rnd: byte)
    requires WellFormed(s)
    ensures var r := Execute(s, StoreLSBWithShift(x), h, rnd);
      r.Ok? && r.value == s.(v := r.value.v)
      && (x != 15 ==> r.value.v[15] == s.v[x] % 2 && 2 * r.value.v[x] + r.value.v[15] == s.v[x])
      && (x == 15 ==> r.value.v[15] == 0)
      && forall j :: 0 <= j < 16 && j != x && j != 15 ==> r.value.v[j] == s.v[j]
  {
    AndSingleBit(s.v[x], 0);
  }

  /** 8XYE: VF gets bit 7 and VX is doubled modulo 256, so VX + 256 * VF is twice the old
      VX; for X = F the flag itself is doubled. */
  lemma ShiftLeftFlag(s: State, x: Reg, h: InputHandler, rnd: byte)
    requires WellFormed(s)
    ensures var r := Execute(s, StoreMSBWithShift(x), h, rnd);
      r.Ok? && r.value == s.(v := r.value.v)
      && (x != 15 ==> r.value.v[x] as int + 0x100 * (r.value.v[15] as int) == 2 * s.v[x] as int)
      && (x == 15 ==> r.value.v[15] == 2 * (s.v[15] / 0x80))
      && forall j :: 0 <= j < 16 && j != x && j != 15 ==> r.value.v[j] == s.v[j]
  {
  }

  /** 7XNN: adds modulo 256 and leaves every other register, VF included, alone. */
  lemma AddToRegNoCarry(s: State, x: Reg, nn: byte, h: InputHandler, rnd: byte)
    requires WellFormed(s)
    ensures var r := Execute(s, AddToReg(x, nn), h, rnd);
      r.Ok? && r.value == s.(v := r.value.v)
      && (r.value.v[x] == s.v[x] as int + nn || r.value.v[x] == s.v[x] as int + nn - 0x100)
      && forall j :: 0 <= j < 16 && j != x ==> r.value.v[j] == s.v[j]
  {
  }

  /** 8XY3 twice with X != Y restores VX. */
  lemma XorTwiceRestores(s: State, x: Reg, y: Reg, h: InputHandler, rnd: byte)
    requires WellFormed(s) && x != y
    ensures var once := Execute(s, BitwiseXor(x, y), h, rnd);
      once.Ok? && Execute(once.value, BitwiseXor(x, y), h, rnd) == Ok(s)
  {
    XorInvolutive(s.v[x], s.v[y]);
    var once := Execute(s, BitwiseXor(x, y), h, rnd).value;
    assert once.v[x := s.v[x]] == s.v;
  }

  /** CXNN: the stored value has no bit outside NN and is below 255, the random byte's bound. */
  lemma RandomMasked(s: State, x: Reg, nn: byte, h: InputHandler, rnd: byte)
    requires WellFormed(s) && rnd < 0xFF
    ensures var r := Execute(s, RegRandBitwiseAnd(x, nn), h, rnd);
      r.Ok? && r.value == s.(v := r.value.v)
      && r.value.v[x] == BitAnd(rnd, nn) && BitAnd(r.value.v[x], nn) == r.value.v[x]
      && r.value.v[x] <= nn && r.value.v[x] < 0xFF
      && forall j :: 0 <= j < 16 && j != x ==> r.value.v[j] == s.v[j]
  {
    AndBelow(rnd, nn);
    AndMaskIdempotent(rnd, nn);
  }

  // ---------------------------------------------------------------------------------------
  // Control flow

  /** The condition under which a skip instruction skips; false for other instructions. */
  predicate SkipTaken(s: State, op: OpCode, h: InputHandler)
    requires WellFormed(s)
  {
    match op
    case CondEq(x, nn) => s.v[x] == nn
    case CondNEq(x, nn) => s.v[x] != nn
    case CondEqReg(x, y) => s.v[x] == s.v[y]
    case CondNEqReg(x, y) => s.v[x] != s.v[y]
    case IsKeyPressed(x) => s.v[x] <= 0xF && h.lastInput == Some(Key(KKeyFromCode(s.v[x]).value))
    case IsKeyNPressed(x) => s.v[x] <= 0xF && h.lastInput != Some(Key(KKeyFromCode(s.v[x]).value))
    case _ => false
  }

  /** A skip moves pc on by 2 exactly when its condition holds and changes nothing else;
      the key skips fail on a register above F, which names no key. */
  lemma SkipsOnlyMovePc(s: State, op: OpCode, h: InputHandler, rnd: byte)
    requires WellFormed(s) && IsSkip(op)
    ensures var r := Execute(s, op, h, rnd);
      (r.Err? <==> ((op.IsKeyPressed? || op.IsKeyNPressed?) && s.v[op.x] > 0xF)
                   || (SkipTaken(s, op, h) && s.pc + 2 > 0xFFFF))
      && (r.Ok? ==> r.value == s.(pc := r.value.pc)
                    && (r.value.pc == s.pc + 2 <==> SkipTaken(s, op, h))
                    && (r.value.pc == s.pc <==> !SkipTaken(s, op, h)))
  {
  }

  /** Return on an empty stack is the error the code reports. */
  lemma ReturnEmptyFaults(s: State, h: InputHandler, rnd: byte)
    requires WellFormed(s) && s.stack == []
    ensures Execute(s, Return, h, rnd) == Err(ReturnWithEmptyStack)
  {
  }

  /** A call pushes the return address (pc, already past the call) and jumps. */
  lemma CallPushesReturnAddress(s: State, nnn: Addr, h: InputHandler, rnd: byte)
    requires WellFormed(s)
    ensures var r := Execute(s, CallSubroutine(nnn), h, rnd);
      r.Ok? && r.value.stack == s.stack + [s.pc] && r.value.pc == nnn
      && r.value == s.(stack := r.value.stack, pc := r.value.pc)
  {
  }

  /** Returning straight after a call restores pc and the stack. */
  lemma ReturnUndoesCall(s: State, nnn: Addr, h: InputHandler, rnd: byte)
    requires WellFormed(s)
    ensures var called := Execute(s, CallSubroutine(nnn), h, rnd);
      called.Ok? && Execute(called.value, Return, h, rnd) == Ok(s)
  {
    var called := Execute(s, CallSubroutine(nnn), h, rnd).value;
    assert called.stack[..|called.stack| - 1] == s.stack;
  }

  /** FX0A with no keypad key: pc steps back by 2 and nothing else changes, so the next
      fetch reads the same FX0A again. */
  lemma AwaitKeyRefetches(s0: State, x: Reg, h: InputHandler, rnd: byte)
    requires WellFormed(s0) && Fetch(s0).Ok? && Fetch(s0).value.1 == Some(AwaitKey(x))
    requires AnyKeyPressed(h).None?
    ensures Execute(Fetch(s0).value.0, AwaitKey(x), h, rnd) == Ok(s0)
    ensures Fetch(Execute(Fetch(s0).value.0, AwaitKey(x), h, rnd).value) == Fetch(s0)
  {
  }

  /** FX0A with a keypad key down stores its code, at most F. */
  lemma AwaitKeyStoresKey(s: State, x: Reg, h: InputHandler, rnd: byte)
    requires WellFormed(s) && AnyKeyPressed(h).Some?
    ensures var r := Execute(s, AwaitKey(x), h, rnd);
      r.Ok? && r.value == s.(v := s.v[x := r.value.v[x]]) && r.value.v[x] <= 0xF
      && IsKeyDown(h, KKeyFromCode(r.value.v[x]).value)
  {
  }

  // ---------------------------------------------------------------------------------------
  // Timers, index and memory

  /** FX15 then FX07 reads the delay timer back. */
  lemma DelayTimerRoundTrip(s: State, x: Reg, y: Reg, h: InputHandler, rnd: byte)
    requires WellFormed(s)
    ensures var stored := Execute(s, SetDelayTimer(x), h, rnd);
      stored.Ok? && Execute(stored.value, SetRegToTimer(y), h, rnd).Ok?
      && Execute(stored.value, SetRegToTimer(y), h, rnd).value.v[y] == s.v[x]
  {
  }

  /** FX1E fails exactly on u16 overflow and otherwise adds VX to I. */
  lemma AddRegToIOverflow(s: State, x: Reg, h: InputHandler, rnd: byte)
    requires WellFormed(s)
    ensures var r := Execute(s, AddRegToI(x), h, rnd);
      (r.Err? <==> s.i + s.v[x] > 0xFFFF) && (r.Ok? ==> r.value == s.(i := s.i + s.v[x]))
  {
  }

  /** FX29 points I at glyph VX % 15 of the font at font_location: never past the 15th. */
  lemma SpriteAddressBounded(s: State, x: Reg, h: InputHandler, rnd: byte)
    requires WellFormed(s) && s.fontLocation + 70 <= 0xFFFF
    ensures var r := Execute(s, SetIToSprite(x), h, rnd);
      r.Ok? && r.value == s.(i := r.value.i)
      && r.value.i == s.fontLocation + 5 * (s.v[x] % 15)
      && s.fontLocation <= r.value.i <= s.fontLocation + 70
      && (r.value.i - s.fontLocation) % 5 == 0
  {
  }

  /** FX33 writes three decimal digits of VX at I, I+1, I+2, most significant first, and no
      other byte; it fails exactly when I+2 is past memory. */
  lemma ToDecimalDigits(s: State, x: Reg, h: InputHandler, rnd: byte)
    requires WellFormed(s)
    ensures var r := Execute(s, ToDecimal(x), h, rnd);
      (r.Err? <==> s.i + 2 >= MEMORY_SIZE)
      && (r.Ok? ==>
        var m := r.value.memory;
        r.value == s.(memory := m)
        && m[s.i] <= 9 && m[s.i + 1] <= 9 && m[s.i + 2] <= 9
        && 100 * m[s.i] + 10 * m[s.i + 1] + m[s.i + 2] == s.v[x]
        && forall a :: 0 <= a < MEMORY_SIZE && !(s.i <= a < s.i + 3) ==> m[a] == s.memory[a])
  {
  }

  /** FX55 copies V0..VX to I..I+X and changes no other byte; it fails exactly when I+X is
      past memory. */
  lemma DumpRegsCopies(s: State, x: Reg, h: InputHandler, rnd: byte)
    requires WellFormed(s)
    ensures var r := Execute(s, DumpRegs(x), h, rnd);
      (r.Err? <==> s.i + x >= MEMORY_SIZE)
      && (r.Ok? ==>
        r.value == s.(memory := r.value.memory)
        && (forall j :: 0 <= j <= x ==> r.value.memory[s.i + j] == s.v[j])
        && forall a :: 0 <= a < MEMORY_SIZE && !(s.i <= a <= s.i + x) ==> r.value.memory[a] == s.memory[a])
  {
    if s.i + x < MEMORY_SIZE {
      var m := Execute(s, DumpRegs(x), h, rnd).value.memory;
      forall j | 0 <= j <= x
        ensures m[s.i + j] == s.v[j]
      {
        assert m[s.i + j] == (s.memory[..s.i] + s.v[..x + 1])[s.i + j];
      }
      forall a | 0 <= a < MEMORY_SIZE && !(s.i <= a <= s.i + x)
        ensures m[a] == s.memory[a]
      {
        if a < s.i {
          assert m[a] == (s.memory[..s.i] + s.v[..x + 1])[a];
        }
      }
    }
  }

  /** FX65 copies I..I+X into V0..VX and changes nothing else; it fails exactly when I+X is
      past memory. */
  lemma LoadRegsCopies(s: State, x: Reg, h: InputHandler, rnd: byte)
    requires WellFormed(s)
    ensures var r := Execute(s, LoadRegs(x), h, rnd);
      (r.Err? <==> s.i + x >= MEMORY_SIZE)
      && (r.Ok? ==>
        r.value == s.(v := r.value.v)
        && (forall j :: 0 <= j <= x ==> r.value.v[j] == s.memory[s.i + j])
        && forall j :: x < j < 16 ==> r.value.v[j] == s.v[j])
  {
  }

  /** FX65 straight after FX55 with the same X and I changes nothing. */
  lemma LoadAfterDumpIsIdentity(s: State, x: Reg, h: InputHandler, rnd: byte)
    requires WellFormed(s) && s.i + x < MEMORY_SIZE
    ensures var dumped := Execute(s, DumpRegs(x), h, rnd);
      dumped.Ok? && Execute(dumped.value, LoadRegs(x), h, rnd) == dumped
  {
    DumpRegsCopies(s, x, h, rnd);
    var d := Execute(s, DumpRegs(x), h, rnd).value;
    LoadRegsCopies(d, x, h, rnd);
    var l := Execute(d, LoadRegs(x), h, rnd).value;
    assert l.v == s.v;
  }

  // ---------------------------------------------------------------------------------------
  // The whole instruction set

  /** Which instructions may fail, and when. */
  predicate Faults(s: State, op: OpCode, h: InputHandler)
    requires WellFormed(s)
  {
    match op
    case Return => s.stack == []
    case DrawSprite(x, y, n) => Draw(s.display, s.memory, s.i, s.v[x], s.v[y], n).Err?
    case AwaitKey(_) => AnyKeyPressed(h).None? && s.pc < 2
    case AddRegToI(x) => s.i + s.v[x] > 0xFFFF
    case SetIToSprite(x) => s.fontLocation + 5 * (s.v[x] % 15) > 0xFFFF
    case ToDecimal(_) => s.i + 2 >= MEMORY_SIZE
    case DumpRegs(x) => s.i + x >= MEMORY_SIZE
    case LoadRegs(x) => s.i + x >= MEMORY_SIZE
    case CondEq(_, _) => SkipTaken(s, op, h) && s.pc + 2 > 0xFFFF
    case CondNEq(_, _) => SkipTaken(s, op, h) && s.pc + 2 > 0xFFFF
    case CondEqReg(_, _) => SkipTaken(s, op, h) && s.pc + 2 > 0xFFFF
    case CondNEqReg(_, _) => SkipTaken(s, op, h) && s.pc + 2 > 0xFFFF
    case IsKeyPressed(x) => s.v[x] > 0xF || (SkipTaken(s, op, h) && s.pc + 2 > 0xFFFF)
    case IsKeyNPressed(x) => s.v[x] > 0xF || (SkipTaken(s, op, h) && s.pc + 2 > 0xFFFF)
    case _ => false
  }

  /** `r` fails exactly under `Faults`, and otherwise leaves alone what `op` does not name:
      memory outside FX33/FX55, the screen outside 00E0/DXYN, the stack outside calls and
      returns, and font_location always. */
  predicate Footprint(s: State, op: OpCode, h: InputHandler, r: Result<State>)
    requires WellFormed(s)
  {
    (r.Err? <==> Faults(s, op, h))
    && (r.Err? && op.Return? ==> r.fault == ReturnWithEmptyStack)
    && (r.Ok? ==>
      r.value.fontLocation == s.fontLocation && r.value.timersDecFlag == s.timersDecFlag
      && (!(op.ToDecimal? || op.DumpRegs?) ==> r.value.memory == s.memory)
      && (!(op.ClearScreen? || op.DrawSprite?) ==> r.value.display == s.display && r.value.drawFlag == s.drawFlag)
      && (!(op.CallSubroutine? || op.Return?) ==> r.value.stack == s.stack))
  }

  /** Every instruction keeps to its `Footprint`. */
  lemma ExecuteFootprint(s: State, op: OpCode, h: InputHandler, rnd: byte)
    requires WellFormed(s)
    ensures Footprint(s, op, h, Execute(s, op, h, rnd))
  {
    var r := Execute(s, op, h, rnd);
    if IsControl(op) {
      assert r == Control(s, op, h);
      ControlFootprint(s, op, h);
    } else if IsSkip(op) {
      SkipsOnlyMovePc(s, op, h, rnd);
      assert r == Skip(s, op, h);
      SkipFootprint(s, op, h);
    } else if IsRegisterLoad(op) {
      assert r == RegisterLoad(s, op, rnd);
    } else if IsFlagArithmetic(op) {
      assert r == FlagArithmetic(s, op);
    } else if IsIndexOrTimer(op) {
      assert r == IndexOrTimer(s, op);
      IndexOrTimerFootprint(s, op, h);
    } else {
      assert r == MemoryCopy(s, op);
    }
  }

  lemma ControlFootprint(s: State, op: OpCode, h: InputHandler)
    requires WellFormed(s) && IsControl(op)
    ensures Footprint(s, op, h, Control(s, op, h))
  {
  }

  lemma SkipFootprint(s: State, op: OpCode, h: InputHandler)
    requires WellFormed(s) && IsSkip(op)
    requires var r := Skip(s, op, h); r.Ok? ==> r.value == s.(pc := r.value.pc)
    ensures Footprint(s, op, h, Skip(s, op, h))
  {
  }

  lemma IndexOrTimerFootprint(s: State, op: OpCode, h: InputHandler)
    requires WellFormed(s) && IsIndexOrTimer(op)
    ensures Footprint(s, op, h, IndexOrTimer(s, op))
  {
  }

  /** 00E0 blanks the screen and sets the draw flag; clearing twice is clearing once. */
  lemma ClearScreenIdempotent(s: State, h: InputHandler, rnd: byte)
    requires WellFormed(s)
    ensures var once := Execute(s, ClearScreen, h, rnd);
      once.Ok? && once.value.display == BlankFrame() && once.value.drawFlag
      && Execute(once.value, ClearScreen, h, rnd) == once
  {
  }

  /** DXYN is the blit on VX, VY and I, with VF the collision flag and the draw flag set. */
  lemma DrawSpriteBlits(s: State, x: Reg, y: Reg, n: Nibble, h: InputHandler, rnd: byte)
    requires WellFormed(s)
    ensures var d := Draw(s.display, s.memory, s.i, s.v[x], s.v[y], n);
      var r := Execute(s, DrawSprite(x, y, n), h, rnd);
      r.Ok? == d.Ok?
      && (r.Ok? ==> r.value.display == d.value.frame && r.value.drawFlag
                    && r.value.v == s.v[15 := if d.value.collision then 1 else 0]
                    && r.value == s.(display := r.value.display, v := r.value.v, drawFlag := true))
  {
  }

  // ---------------------------------------------------------------------------------------
  // Findings about FX29

  /** FX29 as written takes VX % 15, so digit F gets the address of glyph 0. */
  lemma SpriteOfDigitFIsGlyphZero(s: State, x: Reg, h: InputHandler, rnd: byte)
    requires WellFormed(s) && s.v[x] == 0xF && s.fontLocation + 70 <= 0xFFFF
    ensures Execute(s, SetIToSprite(x), h, rnd).Ok?
    ensures Execute(s, SetIToSprite(x), h, rnd).value.i == s.fontLocation
    ensures Glyph(0) != Glyph(0xF)
  {
    assert Glyph(0)[4] != Glyph(0xF)[4];
  }

  /** The evidently intended FX29: glyph VX % 16, so every hexadecimal digit has its own. */
  function SpriteAddress(fontLocation: u16, vx: byte): (a: nat)
    ensures fontLocation <= a <= fontLocation + 75 && (a - fontLocation) % 5 == 0
  {
    fontLocation + 5 * (vx % 16)
  }

  /** With the font where the corrected start-up puts it, the intended FX29 points I at
      exactly the five bytes of glyph VX % 16. */
  lemma SpriteAddressFindsGlyph(vx: byte)
    ensures var s := CorrectedInitialState();
      var a := SpriteAddress(s.fontLocation, vx);
      a + 5 <= |s.memory| && s.memory[a .. a + 5] == Glyph(vx % 16)
  {
    CorrectedFontLocation(vx % 16);
    InitialMemoryLayout();
  }

  // ---------------------------------------------------------------------------------------
  // The machine object

  /** The code's `fetch_opcode`: reads the two bytes at pc, joins them with `<< 8 |`,
      advances pc by 2 and decodes. */
  method FetchOpcode(m: Chip8) returns (r: Result<Option<OpCode>>)
    requires m.Valid()
    modifies m
    ensures m.Valid() && m.memory == old(m.memory) && m.V == old(m.V) && m.displayBuf == old(m.displayBuf)
    ensures var spec := Fetch(old(m.Snapshot()));
      r.Ok? == spec.Ok? && (r.Err? ==> r.fault == spec.fault)
      && (r.Ok? ==> r.value == spec.value.1 && m.Snapshot() == spec.value.0)
  {
    if m.pc + 1 >= MEMORY_SIZE {
      return Err(IndexOutOfBounds);
    }
    var part1 := m.memory[m.pc];
    var part2 := m.memory[m.pc + 1];
    Pow2Table();
    OrShifted(part1, part2, 8);
    var opcode: u16 := BitOr(part1 as int * 0x100, part2);
    m.pc := m.pc + 2;
    r := Ok(Decode(opcode));
  }

  /** The code's `execute_opcode`. On success the machine is `Execute`'s state; a return
      with an empty stack leaves it unchanged. */
  method ExecuteOpcode(m: Chip8, op: OpCode, h: InputHandler, rnd: byte) returns (r: Result<()>)
    requires m.Valid()
    modifies m, m.memory, m.V, m.displayBuf
    ensures m.Valid() && m.memory == old(m.memory) && m.V == old(m.V) && m.displayBuf == old(m.displayBuf)
    ensures var spec := Execute(old(m.Snapshot()), op, h, rnd);
      r.Ok? == spec.Ok? && (r.Err? ==> r.fault == spec.fault)
      && (r.Ok? ==> m.Snapshot() == spec.value)
    ensures r.Err? && op.Return? ==> m.Snapshot() == old(m.Snapshot())
  {
    ghost var s0 := m.Snapshot();
    ghost var spec := Execute(s0, op, h, rnd);
    if IsControl(op) {
      assert spec == Control(s0, op, h);
      r := ControlOp(m, op, h);
    } else if IsSkip(op) {
      assert spec == Skip(s0, op, h);
      r := SkipOp(m, op, h);
    } else if IsRegisterLoad(op) {
      assert spec == RegisterLoad(s0, op, rnd);
      r := RegisterLoadOp(m, op, rnd);
    } else if IsFlagArithmetic(op) {
      assert spec == FlagArithmetic(s0, op);
      r := FlagArithmeticOp(m, op);
    } else if IsIndexOrTimer(op) {
      assert spec == IndexOrTimer(s0, op);
      r := IndexOrTimerOp(m, op);
    } else {
      assert spec == MemoryCopy(s0, op);
      r := MemoryCopyOp(m, op);
    }
  }

  /** The arms of `execute_opcode` for 00E0, 00EE, 1NNN, 2NNN, BNNN and FX0A. */
  method ControlOp(m: Chip8, op: OpCode, h: InputHandler) returns (r: Result<()>)
    requires m.Valid() && IsControl(op)
    modifies m, m.V, m.displayBuf
    ensures m.Valid() && m.memory == old(m.memory) && m.V == old(m.V) && m.displayBuf == old(m.displayBuf)
    ensures var spec := Control(old(m.Snapshot()), op, h);
      r.Ok? == spec.Ok? && (r.Err? ==> r.fault == spec.fault)
      && (r.Ok? ==> m.Snapshot() == spec.value)
    ensures r.Err? && op.Return? ==> m.Snapshot() == old(m.Snapshot())
  {
    match op {
      case ClearScreen =>
        BufClearScreen(m);
        m.drawFlag := true;
      case Return =>
        if |m.stack| == 0 {
          return Err(ReturnWithEmptyStack);
        }
        m.pc := m.stack[|m.stack| - 1];
        m.stack := m.stack[..|m.stack| - 1];
      case Jump(nnn) =>
        m.pc := nnn;
      case CallSubroutine(nnn) =>
        m.stack := m.stack + [m.pc];
        m.pc := nnn;
      case JumpToV0Plus(nnn) =>
        m.pc := m.V[0] + nnn;
      case AwaitKey(x) =>
        var key := AnyKeyPressed(h);
        match key {
          case Some(c) =>
            m.V[x] := c;
          case None =>
            if m.pc < 2 {
              return Err(ArithmeticOverflow);
            }
            m.pc := m.pc - 2;
        }
    }
    r := Ok(());
  }

  /** The arms for 3XNN, 4XNN, 5XY0, 9XY0, EX9E and EXA1; the key skips unwrap the key
      named by VX. */
  method SkipOp(m: Chip8, op: OpCode, h: InputHandler) returns (r: Result<()>)
    requires m.Valid() && IsSkip(op)
    modifies m
    ensures m.Valid() && m.memory == old(m.memory) && m.V == old(m.V) && m.displayBuf == old(m.displayBuf)
    ensures var spec := Skip(old(m.Snapshot()), op, h);
      r.Ok? == spec.Ok? && (r.Err? ==> r.fault == spec.fault)
      && (r.Ok? ==> m.Snapshot() == spec.value)
  {
    match op {
      case CondEq(x, nn) =>
        r := SkipNext(m, m.V[x] == nn);
      case CondNEq(x, nn) =>
        r := SkipNext(m, m.V[x] != nn);
      case CondEqReg(x, y) =>
        r := SkipNext(m, m.V[x] == m.V[y]);
      case CondNEqReg(x, y) =>
        r := SkipNext(m, m.V[x] != m.V[y]);
      case IsKeyPressed(x) =>
        var key := KKeyFromCode(m.V[x]);
        if key.None? {
          return Err(UnwrapOnNone);
        }
        r := SkipNext(m, IsKeyDown(h, key.value));
      case IsKeyNPressed(x) =>
        var key := KKeyFromCode(m.V[x]);
        if key.None? {
          return Err(UnwrapOnNone);
        }
        r := SkipNext(m, IsKeyUp(h, key.value));
    }
  }

  /** The arms for 6XNN, 7XNN, 8XY0-8XY3 and CXNN. */
  method RegisterLoadOp(m: Chip8, op: OpCode, rnd: byte) returns (r: Result<()>)
    requires m.Valid() && IsRegisterLoad(op)
    modifies m.V
    ensures var spec := RegisterLoad(old(m.Snapshot()), op, rnd);
      r.Ok? == spec.Ok? && (r.Ok? ==> m.Snapshot() == spec.value)
  {
    match op {
      case SetReg(x, nn) =>
        m.SetRegister(x, nn);
      case AddToReg(x, nn) =>
        m.SetRegister(x, (m.V[x] as int + nn) % 0x100);
      case AssignRegToReg(x, y) =>
        m.SetRegister(x, m.V[y]);
      case BitwiseOr(x, y) =>
        ByteOps(m.V[x], m.V[y]);
        m.SetRegister(x, BitOr(m.V[x], m.V[y]));
      case BitwiseAnd(x, y) =>
        ByteOps(m.V[x], m.V[y]);
        m.SetRegister(x, BitAnd(m.V[x], m.V[y]));
      case BitwiseXor(x, y) =>
        ByteOps(m.V[x], m.V[y]);
        m.SetRegister(x, BitXor(m.V[x], m.V[y]));
      case RegRandBitwiseAnd(x, nn) =>
        ByteOps(rnd, nn);
        m.SetRegister(x, BitAnd(rnd, nn));
    }
    r := Ok(());
  }

  /** The arms for 8XY4-8XY7 and 8XYE, with VX and VF written in the code's order. */
  method FlagArithmeticOp(m: Chip8, op: OpCode) returns (r: Result<()>)
    requires m.Valid() && IsFlagArithmetic(op)
    modifies m.V
    ensures var spec := FlagArithmetic(old(m.Snapshot()), op);
      r.Ok? == spec.Ok? && (r.Ok? ==> m.Snapshot() == spec.value)
  {
    match op {
      case AddRegToReg(x, y) =>
        var sum := m.V[x] as int + m.V[y];
        m.SetRegister(x, sum % 0x100);
        m.SetRegister(15, if sum > 0xFF then 1 else 0);
      case SubRegToReg(x, y) =>
        var noBorrow := m.V[x] >= m.V[y];
        m.SetRegister(x, (m.V[x] as int - m.V[y]) % 0x100);
        m.SetRegister(15, if noBorrow then 1 else 0);
      case StoreLSBWithShift(x) =>
        ByteOps(m.V[x], 1);
        m.SetRegister(15, BitAnd(m.V[x], 1));
        m.SetRegister(x, m.V[x] / 2);
      case SubRegFromReg(x, y) =>
        var noBorrow := m.V[y] >= m.V[x];
        m.SetRegister(x, (m.V[y] as int - m.V[x]) % 0x100);
        m.SetRegister(15, if noBorrow then 1 else 0);
      case StoreMSBWithShift(x) =>
        m.SetRegister(15, m.V[x] / 0x80);
        m.SetRegister(x, (m.V[x] as int * 2) % 0x100);
    }
    r := Ok(());
  }

  /** The arms for ANNN, DXYN, FX07, FX15, FX18, FX1E and FX29. */
  method IndexOrTimerOp(m: Chip8, op: OpCode) returns (r: Result<()>)
    requires m.Valid() && IsIndexOrTimer(op)
    modifies m, m.V, m.displayBuf
    ensures m.Valid() && m.memory == old(m.memory) && m.V == old(m.V) && m.displayBuf == old(m.displayBuf)
    ensures var spec := IndexOrTimer(old(m.Snapshot()), op);
      r.Ok? == spec.Ok? && (r.Err? ==> r.fault == spec.fault)
      && (r.Ok? ==> m.Snapshot() == spec.value)
  {
    match op {
      case SetI(nnn) =>
        m.i := nnn;
      case DrawSprite(x, y, n) =>
        r := BufDrawSprite(m, m.V[x], m.V[y], n);
        if r.Err? {
          return;
        }
        m.drawFlag := true;
      case SetRegToTimer(x) =>
        m.V[x] := m.delayTimer % 0x100;
      case SetDelayTimer(x) =>
        m.delayTimer := m.V[x];
      case SetSoundTimer(x) =>
        m.soundTimer := m.V[x];
      case AddRegToI(x) =>
        if m.i as int + m.V[x] > 0xFFFF {
          return Err(ArithmeticOverflow);
        }
        m.i := m.i + m.V[x];
      case SetIToSprite(x) =>
        var a := m.fontLocation + 5 * (m.V[x] % 15);
        if a > 0xFFFF {
          return Err(ArithmeticOverflow);
        }
        m.i := a;
    }
    r := Ok(());
  }

  /** The arms for FX33, FX55 and FX65. */
  method MemoryCopyOp(m: Chip8, op: OpCode) returns (r: Result<()>)
    requires m.Valid() && IsMemoryCopy(op)
    modifies m.memory, m.V
    ensures var spec := MemoryCopy(old(m.Snapshot()), op);
      r.Ok? == spec.Ok? && (r.Err? ==> r.fault == spec.fault)
      && (r.Ok? ==> m.Snapshot() == spec.value)
  {
    match op {
      case ToDecimal(x) =>
        r := StoreDecimal(m, x);
      case DumpRegs(x) =>
        r := DumpRegisters(m, x);
      case LoadRegs(x) =>
        r := LoadRegisters(m, x);
    }
  }

  /** The code's `pc += 2` when a skip is taken. */
  method SkipNext(m: Chip8, cond: bool) returns (r: Result<()>)
    requires m.Valid()
    modifies m
    ensures m.Valid() && m.memory == old(m.memory) && m.V == old(m.V) && m.displayBuf == old(m.displayBuf)
    ensures var spec := SkipIf(old(m.Snapshot()), cond);
      r.Ok? == spec.Ok? && (r.Err? ==> r.fault == spec.fault)
      && (r.Ok? ==> m.Snapshot() == spec.value)
  {
    if cond {
      if m.pc + 2 > 0xFFFF {
        return Err(ArithmeticOverflow);
      }
      m.pc := m.pc + 2;
    }
    r := Ok(());
  }

  /** FX33's three writes; the first index past memory panics. */
  method StoreDecimal(m: Chip8, x: Reg) returns (r: Result<()>)
    requires m.Valid()
    modifies m.memory
    ensures var spec := MemoryCopy(old(m.Snapshot()), ToDecimal(x));
      r.Ok? == spec.Ok? && (r.Err? ==> r.fault == spec.fault)
      && (r.Ok? ==> m.Snapshot() == spec.value)
  {
    var i: nat := m.i;
    if i >= MEMORY_SIZE {
      return Err(IndexOutOfBounds);
    }
    m.memory[i] := m.V[x] / 100;
    if i + 1 >= MEMORY_SIZE {
      return Err(IndexOutOfBounds);
    }
    m.memory[i + 1] := (m.V[x] % 100) / 10;
    if i + 2 >= MEMORY_SIZE {
      return Err(IndexOutOfBounds);
    }
    m.memory[i + 2] := m.V[x] % 10;
    r := Ok(());
  }

  /** Writing w[j] at base + j extends the copied prefix of `w` by one. */
  lemma SpliceStep<T>(a: seq<T>, w: seq<T>, base: nat, j: nat)
    requires j < |w| && base + j < |a|
    ensures (a[..base] + w[..j] + a[base + j..])[base + j := w[j]] == a[..base] + w[..j + 1] + a[base + j + 1..]
  {
    var lhs := (a[..base] + w[..j] + a[base + j..])[base + j := w[j]];
    var rhs := a[..base] + w[..j + 1] + a[base + j + 1..];
    forall k | 0 <= k < |a|
      ensures lhs[k] == rhs[k]
    {
      if k < base {
      } else if k < base + j + 1 {
        assert rhs[k] == w[k - base];
      } else {
        assert rhs[k] == a[k];
      }
    }
  }

  /** FX55's copy loop: V[j] to memory[I + j] for j = 0..=X; an index past memory panics. */
  method DumpRegisters(m: Chip8, x: Reg) returns (r: Result<()>)
    requires m.Valid()
    modifies m.memory
    ensures var spec := MemoryCopy(old(m.Snapshot()), DumpRegs(x));
      r.Ok? == spec.Ok? && (r.Err? ==> r.fault == spec.fault)
      && (r.Ok? ==> m.Snapshot() == spec.value)
  {
    ghost var s0 := m.Snapshot();
    var base: nat := m.i;
    for j := 0 to x + 1
      invariant j == 0 ==> m.memory[..] == s0.memory
      invariant j > 0 ==>
        base + j <= MEMORY_SIZE
        && m.memory[..] == s0.memory[..base] + s0.v[..j] + s0.memory[base + j..]
    {
      if base + j >= MEMORY_SIZE {
        return Err(IndexOutOfBounds);
      }
      SpliceStep(s0.memory, s0.v, base, j);
      m.memory[base + j] := m.V[j];
    }
    assert m.Snapshot() == s0.(memory := m.memory[..]);
    r := Ok(());
  }

  /** FX65's copy loop: memory[I + j] to V[j] for j = 0..=X; an index past memory panics. */
  method LoadRegisters(m: Chip8, x: Reg) returns (r: Result<()>)
    requires m.Valid()
    modifies m.V
    ensures var spec := MemoryCopy(old(m.Snapshot()), LoadRegs(x));
      r.Ok? == spec.Ok? && (r.Err? ==> r.fault == spec.fault)
      && (r.Ok? ==> m.Snapshot() == spec.value)
  {
    var base: nat := m.i;
    for j := 0 to x + 1
      invariant j == 0 ==> m.V[..] == old(m.V[..])
      invariant j > 0 ==>
        base + j <= MEMORY_SIZE
        && m.V[..] == m.memory[base .. base + j] + old(m.V[..])[j..]
    {
      if base + j >= MEMORY_SIZE {
        return Err(IndexOutOfBounds);
      }
      m.V[j] := m.memory[base + j];
    }
    r := Ok(());
  }
}
