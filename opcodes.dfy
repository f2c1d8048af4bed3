/** The CHIP-8 instruction set and its decoder: a closed variant type, the nibble helpers
    that cut a 16-bit instruction word into fields, and the pure map from words to
    instructions. Rust's `>>` on unsigned words is floor division by a power of two. */
module OpCodes {
  import opened Bits
  import opened Outcomes

  /** A register index (V0..VF), a 4-bit literal and a 12-bit address: the ranges the
      decoder's fields always fall in. */
  type Reg = x: nat | x < 16
  type Nibble = x: nat | x < 16
  type Addr = x: nat | x < 0x1000

  /** One instruction. `x` and `y` name registers, `n` is a 4-bit literal, `nn` an 8-bit
      literal and `nnn` a 12-bit address. */
  datatype OpCode =
    | ClearScreen
    | Return
    | Jump(nnn: Addr)
    | CallSubroutine(nnn: Addr)
    | CondEq(x: Reg, nn: byte)
    | CondNEq(x: Reg, nn: byte)
    | CondEqReg(x: Reg, y: Reg)
    | SetReg(x: Reg, nn: byte)
    | AddToReg(x: Reg, nn: byte)
    | AssignRegToReg(x: Reg, y: Reg)
    | BitwiseOr(x: Reg, y: Reg)
    | BitwiseAnd(x: Reg, y: Reg)
    | BitwiseXor(x: Reg, y: Reg)
    | AddRegToReg(x: Reg, y: Reg)
    | SubRegToReg(x: Reg, y: Reg)
    | StoreLSBWithShift(x: Reg)
    | SubRegFromReg(x: Reg, y: Reg)
    | StoreMSBWithShift(x: Reg)
    | CondNEqReg(x: Reg, y: Reg)
    | SetI(nnn: Addr)
    | JumpToV0Plus(nnn: Addr)
    | RegRandBitwiseAnd(x: Reg, nn: byte)
    | DrawSprite(x: Reg, y: Reg, n: Nibble)
    | IsKeyPressed(x: Reg)
    | IsKeyNPressed(x: Reg)
    | SetRegToTimer(x: Reg)
    | AwaitKey(x: Reg)
    | SetDelayTimer(x: Reg)
    | SetSoundTimer(x: Reg)
    | AddRegToI(x: Reg)
    | SetIToSprite(x: Reg)
    | ToDecimal(x: Reg)
    | DumpRegs(x: Reg)
    | LoadRegs(x: Reg)

  /** Hexadecimal digit n of the word, counting from the most significant; 0 for n > 3. */
  function NthNibble(n: byte, opcode: u16): (r: u16)
    ensures r <= 0xF
    ensures n == 0 ==> r == opcode / 0x1000
    ensures n == 1 ==> r == (opcode / 0x100) % 0x10
    ensures n == 2 ==> r == (opcode / 0x10) % 0x10
    ensures n == 3 ==> r == opcode % 0x10
    ensures n > 3 ==> r == 0
  {
    match n
    case 0 => opcode / 0x1000
    case 1 =>
      NibbleField(opcode, 12, 8);
      BitAnd(opcode, 0x0F00) / 0x100
    case 2 =>
      NibbleField(opcode, 8, 4);
      BitAnd(opcode, 0x00F0) / 0x10
    case 3 =>
      NibbleField(opcode, 4, 0);
      BitAnd(opcode, 0x000F)
    case _ => 0x0
  }

  /** The masks the nibble helpers use, read as bit fields. */
  lemma NibbleField(w: nat, a: nat, b: nat)
    requires (a, b) in {(12, 8), (8, 4), (4, 0)}
    ensures a == 12 ==> BitAnd(w, 0x0F00) / 0x100 == (w / 0x100) % 0x10
    ensures a == 8 ==> BitAnd(w, 0x00F0) / 0x10 == (w / 0x10) % 0x10
    ensures a == 4 ==> BitAnd(w, 0x000F) == w % 0x10
  {
    Pow2Table();
    ExtractBits(w, a, b);
  }

  /** Hexadecimal digits start..end-1 of the word as one number: the meaning of the code's
      `range_nibble(start, end, opcode)`, which is empty (0) when start >= end. */
  function NibbleRange(start: nat, end: nat, opcode: u16): (r: nat)
    requires end <= 4
    ensures start <= end ==> r < Pow16(end - start)
  {
    if start <= end then (opcode / Pow16(4 - end)) % Pow16(end - start) else 0
  }

  /** The code's `range_nibble`: build a mask of the requested digits one digit at a time,
      then mask and shift. Two steps panic in a debug build: `4 - i - 1` underflows once the
      loop reaches i = 4, and the final shift underflows `4 - end` for end > 4 or shifts the
      16-bit word by 16 for end == 0. Every call site in the program passes end == 4. */
  method RangeNibble(start: byte, end: byte, opcode: u16) returns (r: Result<u16>)
    ensures r.Err? <==> end == 0 || end > 4
    ensures r.Err? ==> r.fault == ArithmeticOverflow
    ensures r.Ok? ==> r.value == NibbleRange(start, end, opcode)
  {
    var mask: u16 := 0;
    var i := start;
    while i < end
      invariant start <= i && (start < end ==> i <= end) && (start >= end ==> i == start)
      invariant MaskSoFar(start, i, mask)
    {
      if i >= 4 {
        return Err(ArithmeticOverflow);
      }
      MaskStep(start, i, mask);
      mask := BitOr(mask, 0xF * Pow16(4 - i - 1));
      i := i + 1;
    }
    if end == 0 || end > 4 {
      return Err(ArithmeticOverflow);
    }
    assert start < end ==> i == end;
    MaskedDigits(start, end, opcode, mask);
    var masked := BitAnd(opcode, mask);
    r := Ok(masked / Pow16(4 - end));
  }

  /** The loop's mask after digits start..i-1 have been or-ed in. */
  predicate MaskSoFar(start: nat, i: nat, mask: nat) {
    if i == start then mask == 0 else start < i <= 4 && mask == RangeMask(16 - 4 * start, 16 - 4 * i)
  }

  /** One turn of the mask loop: or-ing in `0xF << 4 * (4 - i - 1)` extends the mask of
      digits start..i-1 to digits start..i, and the mask stays a 16-bit value. */
  lemma MaskStep(start: nat, i: nat, mask: nat)
    requires start <= i < 4 && MaskSoFar(start, i, mask)
    ensures BitOr(mask, 0xF * Pow16(4 - i - 1)) < 0x1_0000
    ensures MaskSoFar(start, i + 1, BitOr(mask, 0xF * Pow16(4 - i - 1)))
  {
    var a, b, c := 16 - 4 * start, 16 - 4 * i, 16 - 4 * (i + 1);
    var digit := 0xF * Pow16(4 - i - 1);
    DigitMask(4 - i - 1);
    assert digit == RangeMask(b, c);
    if start < i {
      OrAdjacentMasks(a, b, c);
    }
    assert BitOr(mask, digit) == RangeMask(a, c);
    RangeMaskBelow16(a, c);
  }

  lemma RangeMaskBelow16(a: nat, b: nat)
    requires b <= a <= 16
    ensures RangeMask(a, b) < 0x1_0000
  {
    Pow2Monotone(a, 16);
    Pow2Table();
  }

  /** Masking a word with the loop's final mask and shifting by 4 * (4 - end) reads digits
      start..end-1. */
  lemma MaskedDigits(start: nat, end: nat, w: u16, mask: nat)
    requires end <= 4 && (start < end ==> MaskSoFar(start, end, mask))
    requires start >= end ==> mask == 0
    ensures BitAnd(w, mask) / Pow16(4 - end) == NibbleRange(start, end, w)
    ensures NibbleRange(start, end, w) < 0x1_0000
  {
    if start <= end {
      Pow2Monotone(4 * (end - start), 16);
      Pow2Table();
    }
    if start < end {
      var a, b := 16 - 4 * start, 16 - 4 * end;
      ExtractBits(w, a, b);
      assert b == 4 * (4 - end) && a - b == 4 * (end - start);
      assert Pow2(b) == Pow16(4 - end) && Pow2(a - b) == Pow16(end - start);
    } else {
      assert BitAnd(w, 0) == 0;
      if start == end {
        assert Pow16(0) == 1;
      }
    }
  }

  /** `0xF << 4 * k` is the mask of digit k. */
  lemma DigitMask(k: nat)
    ensures 0xF * Pow16(k) == RangeMask(4 * k + 4, 4 * k)
  {
    Pow2Add(4 * k, 4);
    assert Pow2(4) == 16;
  }

  /** The operand fields the decoder cuts from a word. */
  lemma NibbleRangeFields(w: u16)
    ensures NibbleRange(2, 4, w) == w % 0x100
    ensures NibbleRange(1, 4, w) == w % 0x1000
    ensures NibbleRange(0, 4, w) == w
  {
    Pow2Table();
  }

  /** Map a word onto an instruction; None for words outside the instruction set. The
      operand fields are cut exactly as the code cuts them, before the match. */
  function Decode(opcode: u16): (r: Option<OpCode>)
    ensures r.None? ==> opcode / 0x1000 in {0x0, 0x5, 0x9, 0xE, 0xF}
  {
    NibbleRangeFields(opcode);
    DecodeFields(opcode, NthNibble(0, opcode), NthNibble(1, opcode), NthNibble(2, opcode),
      NthNibble(3, opcode), NibbleRange(2, 4, opcode), NibbleRange(1, 4, opcode))
  }

  /** The decoder's match on the leading digit `kind`, given the operand fields. */
  function DecodeFields(opcode: u16, kind: nat, X: Reg, Y: Reg, N: Nibble, NN: byte, NNN: Addr)
    : Option<OpCode>
  {
    match kind
    case 0x0 =>
      if opcode == 0x00E0 then Some(ClearScreen)
      else if opcode == 0x00EE then Some(Return)
      else None
    case 0x1 => Some(Jump(NNN))
    case 0x2 => Some(CallSubroutine(NNN))
    case 0x3 => Some(CondEq(X, NN))
    case 0x4 => Some(CondNEq(X, NN))
    case 0x5 => if N == 0x0 then Some(CondEqReg(X, Y)) else None
    case 0x6 => Some(SetReg(X, NN))
    case 0x7 => Some(AddToReg(X, NN))
    case 0x8 =>
      // the code's last arm binds any other N (a variable pattern, not the literal 0xE)
      (match N
      case 0 => Some(AssignRegToReg(X, Y))
      case 1 => Some(BitwiseOr(X, Y))
      case 2 => Some(BitwiseAnd(X, Y))
      case 3 => Some(BitwiseXor(X, Y))
      case 4 => Some(AddRegToReg(X, Y))
      case 5 => Some(SubRegToReg(X, Y))
      case 6 => Some(StoreLSBWithShift(X))
      case 7 => Some(SubRegFromReg(X, Y))
      case _ => Some(StoreMSBWithShift(X)))
    case 0x9 => if N == 0x0 then Some(CondNEqReg(X, Y)) else None
    case 0xA => Some(SetI(NNN))
    case 0xB => Some(JumpToV0Plus(NNN))
    case 0xC => Some(RegRandBitwiseAnd(X, NN))
    case 0xD => Some(DrawSprite(X, Y, N))
    case 0xE =>
      if NN == 0x9E then Some(IsKeyPressed(X))
      else if NN == 0xA1 then Some(IsKeyNPressed(X))
      else None
    case 0xF =>
      if NN == 0x07 then Some(SetRegToTimer(X))
      else if NN == 0x0A then Some(AwaitKey(X))
      else if NN == 0x15 then Some(SetDelayTimer(X))
      else if NN == 0x18 then Some(SetSoundTimer(X))
      else if NN == 0x1E then Some(AddRegToI(X))
      else if NN == 0x29 then Some(SetIToSprite(X))
      else if NN == 0x33 then Some(ToDecimal(X))
      else if NN == 0x55 then Some(DumpRegs(X))
      else if NN == 0x65 then Some(LoadRegs(X))
      else None
    case _ => None
  }

  /** The word with hexadecimal digits a b c d, most significant first. */
  function Word(a: Nibble, b: Nibble, c: Nibble, d: Nibble): u16
  {
    0x1000 * a + 0x100 * b + 0x10 * c + d
  }

  /** The nibble helpers read back the digits a word was built from. */
  lemma WordFields(a: Nibble, b: Nibble, c: Nibble, d: Nibble)
    ensures NthNibble(0, Word(a, b, c, d)) == a && NthNibble(1, Word(a, b, c, d)) == b
    ensures NthNibble(2, Word(a, b, c, d)) == c && NthNibble(3, Word(a, b, c, d)) == d
    ensures NibbleRange(2, 4, Word(a, b, c, d)) == 0x10 * c + d
    ensures NibbleRange(1, 4, Word(a, b, c, d)) == 0x100 * b + 0x10 * c + d
  {
    var w := Word(a, b, c, d);
    NibbleRangeFields(w);
    DivModUnique(w, 0x1000, a, 0x100 * b + 0x10 * c + d);
    DivModUnique(w, 0x100, 0x10 * a + b, 0x10 * c + d);
    DivModUnique(0x10 * a + b, 0x10, a, b);
    DivModUnique(w, 0x10, 0x100 * a + 0x10 * b + c, d);
    DivModUnique(0x100 * a + 0x10 * b + c, 0x10, 0x10 * a + b, c);
  }

  /** Every word is the word of its own digits, and the byte and address fields are made of
      its low digits. */
  lemma FieldsOf(w: u16)
    ensures w == Word(NthNibble(0, w), NthNibble(1, w), NthNibble(2, w), NthNibble(3, w))
    ensures NibbleRange(2, 4, w) == 0x10 * NthNibble(2, w) + NthNibble(3, w)
    ensures NibbleRange(1, 4, w) == 0x100 * NthNibble(1, w) + NibbleRange(2, 4, w)
  {
    NibbleRangeFields(w);
    MixedRadix(w, 0x10, 0x10);
    MixedRadix(w, 0x100, 0x10);
  }

  /** The low byte values under 0xF that name an instruction. */
  predicate IsTimerMemoryCode(nn: nat) {
    nn in {0x07, 0x0A, 0x15, 0x18, 0x1E, 0x29, 0x33, 0x55, 0x65}
  }

  /** The exact set of words the decoder refuses. */
  lemma DecodeNoneExactly(w: u16)
    ensures Decode(w).None? <==>
      || (w / 0x1000 == 0x0 && w != 0x00E0 && w != 0x00EE)
      || (w / 0x1000 == 0x5 && w % 0x10 != 0)
      || (w / 0x1000 == 0x9 && w % 0x10 != 0)
      || (w / 0x1000 == 0xE && w % 0x100 != 0x9E && w % 0x100 != 0xA1)
      || (w / 0x1000 == 0xF && !IsTimerMemoryCode(w % 0x100))
  {
    NibbleRangeFields(w);
  }

  /** The 8XYN family never fails: N from 8 to 15 all mean a left shift of VX. */
  lemma ArithmeticFamilyCatchAll(w: u16)
    requires w / 0x1000 == 0x8 && w % 0x10 >= 8
    ensures Decode(w) == Some(StoreMSBWithShift((w / 0x100) % 0x10))
  {
  }

  /** The evidently intended decoder: the 8XYN family names an instruction only for N in
      0-7 and E, as the opcode table lists; every other word decodes as before. */
  function DecodeIntended(w: u16): Option<OpCode>
  {
    if w / 0x1000 == 0x8 && w % 0x10 >= 8 && w % 0x10 != 0xE then None else Decode(w)
  }

  /** The intended decoder refuses the listed words and, in the 8XYN family, N from 8 to D
      and F; it agrees with the code on every other word. */
  lemma DecodeIntendedNoneExactly(w: u16)
    ensures DecodeIntended(w).None? <==>
      || (w / 0x1000 == 0x0 && w != 0x00E0 && w != 0x00EE)
      || (w / 0x1000 == 0x5 && w % 0x10 != 0)
      || (w / 0x1000 == 0x8 && w % 0x10 >= 8 && w % 0x10 != 0xE)
      || (w / 0x1000 == 0x9 && w % 0x10 != 0)
      || (w / 0x1000 == 0xE && w % 0x100 != 0x9E && w % 0x100 != 0xA1)
      || (w / 0x1000 == 0xF && !IsTimerMemoryCode(w % 0x100))
    ensures DecodeIntended(w).Some? ==> DecodeIntended(w) == Decode(w)
  {
    DecodeNoneExactly(w);
  }

  /** The four hexadecimal digits of an instruction word, most significant first. */
  datatype Nibbles = Nibbles(kind: Nibble, x: Nibble, y: Nibble, n: Nibble)

  /** The digits of the canonical word of an instruction, following the opcode table (the
      two shifts get Y = 0, and the left shift N = 0xE). */
  function Canonical(op: OpCode): Nibbles
  {
    match op
    case ClearScreen => Nibbles(0x0, 0x0, 0xE, 0x0)
    case Return => Nibbles(0x0, 0x0, 0xE, 0xE)
    case Jump(nnn) => Nibbles(0x1, nnn / 0x100, (nnn / 0x10) % 0x10, nnn % 0x10)
    case CallSubroutine(nnn) => Nibbles(0x2, nnn / 0x100, (nnn / 0x10) % 0x10, nnn % 0x10)
    case CondEq(x, nn) => Nibbles(0x3, x, nn / 0x10, nn % 0x10)
    case CondNEq(x, nn) => Nibbles(0x4, x, nn / 0x10, nn % 0x10)
    case CondEqReg(x, y) => Nibbles(0x5, x, y, 0x0)
    case SetReg(x, nn) => Nibbles(0x6, x, nn / 0x10, nn % 0x10)
    case AddToReg(x, nn) => Nibbles(0x7, x, nn / 0x10, nn % 0x10)
    case AssignRegToReg(x, y) => Nibbles(0x8, x, y, 0x0)
    case BitwiseOr(x, y) => Nibbles(0x8, x, y, 0x1)
    case BitwiseAnd(x, y) => Nibbles(0x8, x, y, 0x2)
    case BitwiseXor(x, y) => Nibbles(0x8, x, y, 0x3)
    case AddRegToReg(x, y) => Nibbles(0x8, x, y, 0x4)
    case SubRegToReg(x, y) => Nibbles(0x8, x, y, 0x5)
    case StoreLSBWithShift(x) => Nibbles(0x8, x, 0x0, 0x6)
    case SubRegFromReg(x, y) => Nibbles(0x8, x, y, 0x7)
    case StoreMSBWithShift(x) => Nibbles(0x8, x, 0x0, 0xE)
    case CondNEqReg(x, y) => Nibbles(0x9, x, y, 0x0)
    case SetI(nnn) => Nibbles(0xA, nnn / 0x100, (nnn / 0x10) % 0x10, nnn % 0x10)
    case JumpToV0Plus(nnn) => Nibbles(0xB, nnn / 0x100, (nnn / 0x10) % 0x10, nnn % 0x10)
    case RegRandBitwiseAnd(x, nn) => Nibbles(0xC, x, nn / 0x10, nn % 0x10)
    case DrawSprite(x, y, n) => Nibbles(0xD, x, y, n)
    case IsKeyPressed(x) => Nibbles(0xE, x, 0x9, 0xE)
    case IsKeyNPressed(x) => Nibbles(0xE, x, 0xA, 0x1)
    case SetRegToTimer(x) => Nibbles(0xF, x, 0x0, 0x7)
    case AwaitKey(x) => Nibbles(0xF, x, 0x0, 0xA)
    case SetDelayTimer(x) => Nibbles(0xF, x, 0x1, 0x5)
    case SetSoundTimer(x) => Nibbles(0xF, x, 0x1, 0x8)
    case AddRegToI(x) => Nibbles(0xF, x, 0x1, 0xE)
    case SetIToSprite(x) => Nibbles(0xF, x, 0x2, 0x9)
    case ToDecimal(x) => Nibbles(0xF, x, 0x3, 0x3)
    case DumpRegs(x) => Nibbles(0xF, x, 0x5, 0x5)
    case LoadRegs(x) => Nibbles(0xF, x, 0x6, 0x5)
  }

  /** The canonical word of an instruction. */
  function Encode(op: OpCode): u16
  {
    var d := Canonical(op);
    Word(d.kind, d.x, d.y, d.n)
  }

  /** The intended decoder still reads every instruction back from its canonical word. */
  lemma DecodeIntendedEncode(op: OpCode)
    ensures DecodeIntended(Encode(op)) == Some(op)
  {
    DecodeEncode(op);
    var d := Canonical(op);
    WordFields(d.kind, d.x, d.y, d.n);
  }

  /** Decoding the canonical word gives the instruction back. */
  lemma DecodeEncode(op: OpCode)
    ensures Decode(Encode(op)) == Some(op)
  {
    var d := Canonical(op);
    DecodeWord(d.kind, d.x, d.y, d.n);
    if op.Jump? || op.CallSubroutine? || op.SetI? || op.JumpToV0Plus? {
      AddressDigits(op.nnn);
    }
    CanonicalDecodes(op, d);
  }

  /** The decoder's match, fed the canonical digits of an instruction, picks that instruction. */
  lemma CanonicalDecodes(op: OpCode, d: Nibbles)
    requires d == Canonical(op)
    requires (op.Jump? || op.CallSubroutine? || op.SetI? || op.JumpToV0Plus?) ==>
      0x100 * (op.nnn / 0x100) + 0x10 * ((op.nnn / 0x10) % 0x10) + op.nnn % 0x10 == op.nnn
    ensures DecodeFields(Word(d.kind, d.x, d.y, d.n), d.kind, d.x, d.y, d.n, 0x10 * d.y + d.n,
      0x100 * d.x + 0x10 * d.y + d.n) == Some(op)
  {
  }

  /** Decoding a word built from digits a b c d. */
  lemma DecodeWord(a: Nibble, b: Nibble, c: Nibble, d: Nibble)
    ensures Decode(Word(a, b, c, d))
         == DecodeFields(Word(a, b, c, d), a, b, c, d, 0x10 * c + d, 0x100 * b + 0x10 * c + d)
  {
    WordFields(a, b, c, d);
  }

  /** A 12-bit address is the number its three digits spell. */
  lemma AddressDigits(nnn: nat)
    requires nnn <= 0xFFF
    ensures 0x100 * (nnn / 0x100) + 0x10 * ((nnn / 0x10) % 0x10) + nnn % 0x10 == nnn
    ensures nnn / 0x100 <= 0xF
  {
    MixedRadix(nnn, 0x10, 0x10);
  }

  /** Decoding loses nothing except the ignored Y field of the two shifts and the exact N
      of the left shift: every other decoded word is the canonical word of its instruction. */
  lemma EncodeDecode(w: u16)
    requires Decode(w).Some?
    requires !Decode(w).value.StoreLSBWithShift? && !Decode(w).value.StoreMSBWithShift?
    ensures Encode(Decode(w).value) == w
  {
    var a, b, c, d := NthNibble(0, w), NthNibble(1, w), NthNibble(2, w), NthNibble(3, w);
    FieldsOf(w);
    DecodeWord(a, b, c, d);
    FieldDigits(b, c, d);
    if a < 8 {
      EncodeFieldsLow(w, a, b, c, d);
    } else if a == 8 {
      EncodeFieldsArith(w, a, b, c, d);
    } else if a <= 0xD {
      EncodeFieldsHigh(w, a, b, c, d);
    } else {
      EncodeFieldsSystem(w, a, b, c, d);
    }
  }

  /** Re-encoding the instruction the match picks for digits a b c d, for a below 8. */
  lemma EncodeFieldsLow(w: u16, a: Nibble, b: Nibble, c: Nibble, d: Nibble)
    requires w == Word(a, b, c, d) && a < 8
    requires var nnn := 0x100 * b + 0x10 * c + d;
      nnn / 0x100 == b && (nnn / 0x10) % 0x10 == c && nnn % 0x10 == d
    requires (0x10 * c + d) / 0x10 == c && (0x10 * c + d) % 0x10 == d
    requires DecodeFields(w, a, b, c, d, 0x10 * c + d, 0x100 * b + 0x10 * c + d).Some?
    requires var op := DecodeFields(w, a, b, c, d, 0x10 * c + d, 0x100 * b + 0x10 * c + d).value;
      !op.StoreLSBWithShift? && !op.StoreMSBWithShift?
    ensures Encode(DecodeFields(w, a, b, c, d, 0x10 * c + d, 0x100 * b + 0x10 * c + d).value) == w
  {
  }

  /** Re-encoding the instruction the match picks for digits a b c d, for the 8XYN family. */
  lemma EncodeFieldsArith(w: u16, a: Nibble, b: Nibble, c: Nibble, d: Nibble)
    requires w == Word(a, b, c, d) && a == 8
    requires var nnn := 0x100 * b + 0x10 * c + d;
      nnn / 0x100 == b && (nnn / 0x10) % 0x10 == c && nnn % 0x10 == d
    requires (0x10 * c + d) / 0x10 == c && (0x10 * c + d) % 0x10 == d
    requires DecodeFields(w, a, b, c, d, 0x10 * c + d, 0x100 * b + 0x10 * c + d).Some?
    requires var op := DecodeFields(w, a, b, c, d, 0x10 * c + d, 0x100 * b + 0x10 * c + d).value;
      !op.StoreLSBWithShift? && !op.StoreMSBWithShift?
    ensures Encode(DecodeFields(w, a, b, c, d, 0x10 * c + d, 0x100 * b + 0x10 * c + d).value) == w
  {
  }

  /** Re-encoding the instruction the match picks for digits a b c d, for a from 9 to 0xD. */
  lemma EncodeFieldsHigh(w: u16, a: Nibble, b: Nibble, c: Nibble, d: Nibble)
    requires w == Word(a, b, c, d) && 9 <= a <= 0xD
    requires var nnn := 0x100 * b + 0x10 * c + d;
      nnn / 0x100 == b && (nnn / 0x10) % 0x10 == c && nnn % 0x10 == d
    requires (0x10 * c + d) / 0x10 == c && (0x10 * c + d) % 0x10 == d
    requires DecodeFields(w, a, b, c, d, 0x10 * c + d, 0x100 * b + 0x10 * c + d).Some?
    requires var op := DecodeFields(w, a, b, c, d, 0x10 * c + d, 0x100 * b + 0x10 * c + d).value;
      !op.StoreLSBWithShift? && !op.StoreMSBWithShift?
    ensures Encode(DecodeFields(w, a, b, c, d, 0x10 * c + d, 0x100 * b + 0x10 * c + d).value) == w
  {
  }

  /** Re-encoding the instruction the match picks for digits a b c d, for the EXNN and FXNN families. */
  lemma EncodeFieldsSystem(w: u16, a: Nibble, b: Nibble, c: Nibble, d: Nibble)
    requires w == Word(a, b, c, d) && a >= 0xE
    requires var nnn := 0x100 * b + 0x10 * c + d;
      nnn / 0x100 == b && (nnn / 0x10) % 0x10 == c && nnn % 0x10 == d
    requires (0x10 * c + d) / 0x10 == c && (0x10 * c + d) % 0x10 == d
    requires DecodeFields(w, a, b, c, d, 0x10 * c + d, 0x100 * b + 0x10 * c + d).Some?
    requires var op := DecodeFields(w, a, b, c, d, 0x10 * c + d, 0x100 * b + 0x10 * c + d).value;
      !op.StoreLSBWithShift? && !op.StoreMSBWithShift?
    ensures Encode(DecodeFields(w, a, b, c, d, 0x10 * c + d, 0x100 * b + 0x10 * c + d).value) == w
  {
  }

  /** The digits of the byte and address fields. */
  lemma FieldDigits(b: Nibble, c: Nibble, d: Nibble)
    ensures var nnn := 0x100 * b + 0x10 * c + d;
      nnn / 0x100 == b && (nnn / 0x10) % 0x10 == c && nnn % 0x10 == d
    ensures (0x10 * c + d) / 0x10 == c && (0x10 * c + d) % 0x10 == d
  {
    var nnn := 0x100 * b + 0x10 * c + d;
    DivModUnique(nnn, 0x100, b, 0x10 * c + d);
    DivModUnique(nnn, 0x10, 0x10 * b + c, d);
    DivModUnique(0x10 * b + c, 0x10, b, c);
    DivModUnique(0x10 * c + d, 0x10, c, d);
  }

  /** The nibble helpers on the word of the code's own tests. */
  lemma NibbleHelpersOnSample()
    ensures NthNibble(0, 0x2FA3) == 0x2 && NthNibble(1, 0x2FA3) == 0xF
    ensures NthNibble(2, 0x2FA3) == 0xA && NthNibble(3, 0x2FA3) == 0x3
    ensures NibbleRange(0, 1, 0x2FA3) == 0x2 && NibbleRange(2, 4, 0x2FA3) == 0xA3
    ensures NibbleRange(0, 4, 0x2FA3) == 0x2FA3
  {
    assert 0x2FA3 == Word(0x2, 0xF, 0xA, 0x3);
    WordFields(0x2, 0xF, 0xA, 0x3);
    NibbleRangeFields(0x2FA3);
    Pow2Table();
    assert 0x2FA3 / Pow16(3) == 0x2;
  }
}
