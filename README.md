# CHIP-8 interpreter core in Dafny

This project models the core of a small CHIP-8 interpreter written in Rust, and proves properties of the model. It covers:

- the instruction decoder and the fetch step;
- the executor for the 34 instructions;
- the XOR sprite blit with collision detection and clipping on the 64 x 32 screen;
- the machine's start-up state, font table and program loading;
- the keypad snapshot;
- the logic of the host's main loop: the two pacing counters, the 60 Hz timer tick with its beep, and the draw-flag handshake.

The model has two layers.

- **Values.** A `State` datatype holds memory, screen, registers, stack, timers and flags. Each operation is a function on `State`: `Fetch`, `Execute` (split into instruction groups), `Draw`, `LoadImage` and `Cycle`. Most lemmas are about these functions.
- **Objects.** The interpreter object is the class `Machine.Chip8`. It keeps the code's in-place representation:
  - memory, `V` and the screen are arrays;
  - the stack is a sequence field that methods reassign.

  Its methods keep the code's loops and branches, for example the labelled blit loops, the mask loop of `range_nibble` and the register copy loops. Each method is proved to leave behind exactly the state that the value-level function computes from the old state, read through `Snapshot()`.

Modules follow the source files:

| Module | Source |
|---|---|
| `OpCodes` | decoder, `src/opcodes.rs` |
| `Keymap` | key maps, `src/opcodes.rs` |
| `Input` | `src/input.rs` |
| `Machine` | `src/chip8.rs` |
| `Framebuffer` | `src/display.rs` |
| `Executor` | fetch and `execute_opcode`, `src/opcodes.rs` |
| `Host` | `src/main.rs` |

Two modules are shared: `Bits` (bytes as bounded integers, with `&`, `|`, `^` as recursive functions) and `Outcomes` (Option/Result and the fault kinds).

A Rust panic is modelled as an explicit `Err(fault)` outcome, as in a debug build. The panics are:

- an index outside memory or the screen;
- a `u16` overflow or underflow;
- an `unwrap` on `None`.

The instruction errors that `execute_opcode` itself returns use the same outcome. Arithmetic the code wraps on purpose (`wrapping_add`, `overflowing_add` and `overflowing_sub`, the `<<=` on a `u8`, the `as u8` truncation of the delay timer) is written out modulo 256.

The source does not compile as written. The model follows its evident intent:

- `src/display.rs:18` and `:30` write `self.v` for the register file `V` (`src/chip8.rs:13`). The model uses `V[15]`.
- `execute_opcode` takes a `&Display` (`src/opcodes.rs:202`), but the call at `src/main.rs:59` passes the input handler, and the keypad queries are `InputHandler` methods. The model passes the keypad snapshot `InputHandler`.

The random byte of CXNN is a parameter `rnd`. `Execute` accepts any byte. The bound the code's `gen_range(0..255)` gives (`rnd < 255`) is a hypothesis only where a lemma needs it.

The executor and the start-up state keep the code's behaviour, including the four defects listed under "## Findings". The corrected definitions stand beside them, each with its intended property proved.

## Model

| member | source | states |
|---|---|---|
| OpCodes.NthNibble | src/opcodes.rs:53-61 | hex digit n of the word counting from the most significant (n = 0..3), always at most 15, and 0 for n > 3 |
| OpCodes.RangeNibble | src/opcodes.rs:64-70 | fails with an overflow exactly when end = 0 (a shift of the 16-bit word by 16) or end > 4 (`4 - i - 1` or `4 - end` underflows); otherwise the mask loop yields exactly `NibbleRange`: digits start..end-1 of the word as one number, `(w / 16^(4-end)) % 16^(end-start)`, and 0 when start >= end |
| OpCodes.NibbleHelpersOnSample | src/opcodes.rs:353-378 | the values the code's own tests expect for 0x2FA3: digits 2, F, A, 3 and ranges 0x2, 0xA3, 0x2FA3 |
| OpCodes.Decode | src/opcodes.rs:127-198 | only words of the families 0, 5, 9, E and F can be refused; every word of the other families decodes (the exact refusal set is `DecodeNoneExactly`) |
| OpCodes.WordFields | src/opcodes.rs:127-131 | the operand fields X, Y, N, NN, NNN cut from a word are its digits and low digits |
| OpCodes.DecodeNoneExactly | src/opcodes.rs:133-198 | the decoder refuses exactly these words: 0??? other than 00E0 and 00EE; 5XYN and 9XYN with N != 0; EXNN with NN not 9E or A1; FXNN with NN outside the nine listed values |
| OpCodes.ArithmeticFamilyCatchAll | src/opcodes.rs:153-165 | every 8XYN with N >= 8 decodes to the left shift of VX |
| OpCodes.DecodeEncode | src/opcodes.rs:133-198 | every instruction, with operands in range (X, Y, N <= 15, NNN <= 0xFFF), is decoded back from its canonical word |
| OpCodes.EncodeDecode | src/opcodes.rs:133-198 | every decoded word other than the two shifts is the canonical word of its instruction, so decoding loses nothing else |
| OpCodes.DecodeIntendedNoneExactly | src/opcodes.rs:153-165 | the intended decoder also refuses 8XYN for N in 8..D and F, and agrees with the code on every word it accepts |
| OpCodes.DecodeIntendedEncode | src/opcodes.rs:153-165 | the intended decoder still reads every instruction back from its canonical word |
| Keymap.KKeyFromCode | src/opcodes.rs:73-93 | no key exactly for codes above 15; every key it returns is a character key that maps back to the same code |
| Keymap.CodeFromKKey | src/opcodes.rs:96-117 | returns only codes at most 15, and only for character keys |
| Keymap.KeyMapsInverse | src/opcodes.rs:73-117 | a key that maps to a code is the key of that code, so the two maps are mutually inverse on 0..15 |
| Keymap.KKeyFromCodeInjective | src/opcodes.rs:73-93 | distinct codes have distinct keys |
| Input.NewInputHandler | src/input.rs:10-12 | a new handler has seen no event, so it reports no key pressed and no quit |
| Input.IsKeyDown | src/input.rs:25-27 | a key is down exactly when the last reported event is that key |
| Input.ShouldQuit | src/input.rs:20-23 | the quit test is the key-down test of Ctrl-C |
| Input.IsKeyUp | src/input.rs:29-31 | a key is up exactly when it is not down |
| Input.AnyKeyPressed | src/input.rs:33-39 | a code is returned only for a key event, is at most 15 and is the code of the key that is down; every mapped key event yields one |
| Input.AtMostOneKeyDown | src/input.rs:25-27 | two keys down in one snapshot are the same key |
| Input.QuitIsNoKeypadKey | src/input.rs:20-39 | when Ctrl-C is the last event, no keypad key is pressed or down |
| Input.PressedKeyIsTheKeyDown | src/input.rs:25-39 | `any_key_pressed` reports code c exactly when c's key is down |
| Machine.InitialState | src/chip8.rs:22-39 | the start-up state is well formed: 4096 bytes of memory, 16 registers and a 64 x 32 screen |
| Machine.InitialMemoryLayout | src/chip8.rs:22-62 | after start-up, 0x50..0x9F holds the 80 font bytes in order and every other byte is 0 |
| Machine.InitialRegisters | src/chip8.rs:22-35 | after start-up pc is 0x200, I is 0, the stack is empty, V and both timers are 0, the draw flag is clear and the screen is dark |
| Machine.FontShape | src/chip8.rs:42-59 | the font has 16 glyphs of 5 bytes, glyph g at offset 5g, and no font byte is 0 |
| Machine.FontLocationMisplaced | src/chip8.rs:32 | `font_location` starts at 0x200, not 0x50: it points at a zero byte, not at glyph 0 |
| Machine.CorrectedFontLocation | src/chip8.rs:61 | with `font_location` at 0x50, glyph g is exactly the five bytes at font_location + 5g |
| Machine.LoadImage | src/chip8.rs:67 | loading succeeds exactly when the image fits above 0x200; it puts the image at 0x200 and leaves every other byte unchanged |
| Machine.LoadKeepsFont | src/chip8.rs:61-67 | loading any image that fits keeps the font intact |
| Machine.Chip8.Init | src/chip8.rs:22-39 | the constructed machine is the start-up state |
| Machine.Chip8.InitFont | src/chip8.rs:41-62 | memory becomes the old memory with the font at 0x50..0x9F |
| Machine.Chip8.LoadData | src/chip8.rs:64-70 | the copy step gives the memory, or the fault, that `LoadImage` describes |
| Framebuffer.BufClearScreen | src/display.rs:7-13 | every one of the 64 x 32 cells ends false |
| Framebuffer.Draw | src/display.rs:15-43 | the blit's only failure is an out-of-bounds index, and a successful blit leaves a 64 x 32 screen |
| Framebuffer.DrawFaults | src/display.rs:23-42 | the blit fails exactly when a visited row lies past the end of memory, or a visited set bit lies below row 31 |
| Framebuffer.DrawFlipsFootprint | src/display.rs:23-36 | each footprint cell becomes its old value XOR the sprite bit (bit 7 of memory[I+k] at column x); every other cell is unchanged |
| Framebuffer.CollisionIffErased | src/display.rs:18-31 | VF ends at 1 exactly when some lit pixel was turned off |
| Framebuffer.DrawTwiceRestores | src/display.rs:26-36 | drawing the same sprite again at the same place restores the screen exactly |
| Framebuffer.DrawStaysOnScreen | src/display.rs:19-41 | with the origin reduced to (x % 64, y % 32), no column past 63 is visited, and no row past 31 when x % 64 < 56 |
| Framebuffer.ClippedRows | src/display.rs:41 | the intended row count stops at row 31 and at n rows, whichever comes first |
| Framebuffer.DrawClippedFaultsOnlyOnMemory | src/display.rs:38-41 | the clipped blit fails only when its rows run past the end of memory |
| Framebuffer.DrawClippedAgrees | src/display.rs:15-43 | wherever the code's blit succeeds, the clipped blit gives the same screen and flag |
| Framebuffer.DrawPastBottomFaults | src/display.rs:38-41 | a two-row sprite of 0x80 bytes at (56, 31) makes the code's blit index row 32, while the clipped blit succeeds |
| Framebuffer.BufDrawSprite | src/display.rs:15-43 | the labelled loops give the outcome, screen and VF of `Draw`, and no other register changes |
| Executor.Fetch | src/opcodes.rs:120-125 | the fetch fails, with an index fault, exactly when pc + 1 lies past memory; otherwise it moves pc on by 2 and changes nothing else, whether or not the word decodes |
| Executor.FetchReadsWord | src/opcodes.rs:121-123 | the word decoded is memory[pc] * 256 + memory[pc + 1] |
| Executor.FetchDecodesEncoded | src/opcodes.rs:380-389 | an instruction stored big-endian at pc is fetched as itself, with pc + 2 |
| Executor.FetchOpcode | src/opcodes.rs:120-199 | the method's result and new state are those of `Fetch` |
| Executor.Execute | src/opcodes.rs:202-345 | every instruction that succeeds leaves the machine well formed; what it changes is `ExecuteFootprint` and the per-instruction lemmas below |
| Executor.Control | src/opcodes.rs:204-220 | 00E0, 00EE, 1NNN, 2NNN, BNNN and FX0A keep the machine well formed when they succeed |
| Executor.Skip | src/opcodes.rs:221-235 | the six skips keep the machine well formed when they succeed |
| Executor.RegisterLoad | src/opcodes.rs:236-253 | 6XNN, 7XNN, 8XY0-8XY3 and CXNN keep the machine well formed |
| Executor.FlagArithmetic | src/opcodes.rs:254-276 | 8XY4-8XY7 and 8XYE keep the machine well formed |
| Executor.IndexOrTimer | src/opcodes.rs:282-327 | ANNN, DXYN and the timer and I instructions keep the machine well formed when they succeed |
| Executor.MemoryCopy | src/opcodes.rs:328-342 | FX33, FX55 and FX65 keep the machine well formed when they succeed |
| Executor.ExecuteFootprint | src/opcodes.rs:202-345 | an instruction fails exactly under `Faults` (empty-stack return, blit fault, u16 overflow, index past memory, unmapped key), and leaves memory, screen, stack and font_location alone unless it is an instruction that writes them |
| Executor.AddRegToRegCarry | src/opcodes.rs:254-258 | 8XY4 stores the sum modulo 256 with VF = 1 exactly when the true sum exceeds 255; VF is written last; no other register changes |
| Executor.SubRegToRegBorrow | src/opcodes.rs:259-263 | 8XY5 stores VX - VY modulo 256 with VF = 1 exactly when VX >= VY; no other register changes |
| Executor.SubRegFromRegBorrow | src/opcodes.rs:268-272 | 8XY7 stores VY - VX modulo 256 with VF = 1 exactly when VY >= VX; no other register changes |
| Executor.ShiftRightFlag | src/opcodes.rs:264-267 | 8XY6 puts bit 0 in VF and halves VX, so 2 VX + VF is the old VX; for X = F, VF ends at 0 |
| Executor.ShiftLeftFlag | src/opcodes.rs:273-276 | 8XYE puts bit 7 in VF and doubles VX modulo 256, so VX + 256 VF is twice the old VX; for X = F, VF ends at twice its top bit |
| Executor.AddToRegNoCarry | src/opcodes.rs:239-241 | 7XNN adds modulo 256 and leaves every other register, VF included, unchanged |
| Executor.XorTwiceRestores | src/opcodes.rs:251-253 | 8XY3 applied twice with X != Y restores the machine |
| Executor.RandomMasked | src/opcodes.rs:288-291 | CXNN stores rnd & NN, which has no bit outside NN (masking it with NN again changes nothing), is at most NN and is below 255; nothing else changes |
| Executor.SkipsOnlyMovePc | src/opcodes.rs:221-235 | the six skips move pc on by 2 exactly when their comparison or key test holds, and change nothing else. The key skips fail on a VX above F. The skip fails on u16 overflow of pc. |
| Executor.ReturnEmptyFaults | src/opcodes.rs:208-213 | a return on an empty stack is the code's error |
| Executor.CallPushesReturnAddress | src/opcodes.rs:217-220 | a call pushes the already advanced pc and jumps; nothing else changes |
| Executor.ReturnUndoesCall | src/opcodes.rs:208-220 | a return straight after a call restores pc and the stack |
| Executor.AwaitKeyRefetches | src/opcodes.rs:309-313 | FX0A with no key pressed steps pc back by 2 and nothing else, so the next fetch yields the same FX0A |
| Executor.AwaitKeyStoresKey | src/opcodes.rs:309-313 | FX0A with a key pressed stores that key's code (at most F) in VX and nothing else |
| Executor.DelayTimerRoundTrip | src/opcodes.rs:306-317 | FX15 followed by FX07 reads back the value stored |
| Executor.AddRegToIOverflow | src/opcodes.rs:322-324 | FX1E fails exactly on u16 overflow and otherwise adds VX to I |
| Executor.SpriteAddressBounded | src/opcodes.rs:325-327 | FX29 sets I to font_location + 5 (VX % 15), so a multiple of 5 above font_location and at most font_location + 70, and changes nothing else |
| Executor.ToDecimalDigits | src/opcodes.rs:328-332 | FX33 writes three digits d0, d1, d2, each at most 9, with 100 d0 + 10 d1 + d2 = VX, at I..I+2 and nowhere else; it fails exactly when I + 2 is past memory |
| Executor.DumpRegsCopies | src/opcodes.rs:333-337 | FX55 copies V0..VX to memory[I..I+X] and changes no other byte; it fails exactly when I + X is past memory |
| Executor.LoadRegsCopies | src/opcodes.rs:338-342 | FX65 copies memory[I..I+X] to V0..VX and changes nothing else; it fails exactly when I + X is past memory |
| Executor.LoadAfterDumpIsIdentity | src/opcodes.rs:333-342 | FX55 followed by FX65 with the same X leaves V unchanged |
| Executor.ClearScreenIdempotent | src/opcodes.rs:204-207 | 00E0 blanks the screen and sets the draw flag; clearing twice is clearing once |
| Executor.DrawSpriteBlits | src/opcodes.rs:292-295 | DXYN is the blit on VX, VY and I; VF is the collision flag, the draw flag is set, and nothing else changes |
| Executor.SpriteOfDigitFIsGlyphZero | src/opcodes.rs:325-327 | FX29 with VX = F points I at glyph 0, which differs from glyph F |
| Executor.SpriteAddressFindsGlyph | src/opcodes.rs:325-327 | the intended FX29 (VX % 16) with the font where the corrected start-up puts it points I at exactly the five bytes of glyph VX % 16 |
| Executor.ExecuteOpcode | src/opcodes.rs:202-345 | the method's outcome and new state are those of `Execute`; a failed return leaves the machine unchanged |
| Executor.ControlOp | src/opcodes.rs:204-220 | 00E0, 00EE, 1NNN, 2NNN (and BNNN, FX0A) as the method arms give `Control`'s state |
| Executor.SkipOp | src/opcodes.rs:221-235 | the skip arms give `Skip`'s outcome and state |
| Executor.RegisterLoadOp | src/opcodes.rs:236-253 | 6XNN, 7XNN, 8XY0-8XY3 (and CXNN) give `RegisterLoad`'s state |
| Executor.FlagArithmeticOp | src/opcodes.rs:254-276 | 8XY4-8XY7 and 8XYE, with VX and VF written in the code's order, give `FlagArithmetic`'s state |
| Executor.IndexOrTimerOp | src/opcodes.rs:282-327 | ANNN, DXYN and the timer and I instructions give `IndexOrTimer`'s outcome and state |
| Executor.MemoryCopyOp | src/opcodes.rs:328-342 | the FX33, FX55 and FX65 arms give `MemoryCopy`'s outcome and state |
| Executor.StoreDecimal | src/opcodes.rs:328-332 | FX33's three writes give the state, or the fault, of `MemoryCopy` |
| Executor.DumpRegisters | src/opcodes.rs:333-337 | FX55's loop gives the state, or the fault, of `MemoryCopy` |
| Executor.LoadRegisters | src/opcodes.rs:338-342 | FX65's loop gives the state, or the fault, of `MemoryCopy` |
| Host.TickTimers | src/main.rs:76-80 | one tick keeps the machine well formed |
| Host.TimerTick | src/main.rs:76-84 | both timers tick as `TickTimers` says, and the beep is reported exactly when the sound timer was 1 |
| Host.BeepExactlyAtOne | src/main.rs:79-84 | a tick beeps exactly when the sound timer goes from 1 to 0 |
| Host.CountDown | src/main.rs:76-78 | k ticks take a timer t to t - k, stopping at 0, so it never underflows |
| Host.BeepsOnce | src/main.rs:79-84 | in k ticks a sound timer set to t beeps once if 1 <= t <= k and never otherwise |
| Host.Advance | src/main.rs:89-90 | a counter that fired goes to its period minus 1, any other goes down by 1; from at most its period it stays below it |
| Host.FiresPeriodically | src/main.rs:46-90 | a counter starting at t <= its period fires on iteration k exactly when k >= t and k - t is a multiple of the period |
| Host.RunInstruction | src/main.rs:53-68 | after an executed instruction the draw flag is clear |
| Host.InstructionBlock | src/main.rs:51-68 | the quit check, fetch, execute and draw-flag handshake give `RunInstruction`'s outcome and state |
| Host.TimerPhase | src/main.rs:73-90 | the timer block and the decrements keep the machine well formed |
| Host.Cycle | src/main.rs:46-90 | one iteration of the loop keeps the machine well formed |
| Host.TimerBlock | src/main.rs:73-90 | the timer block and the decrements give `TimerPhase`'s verdict and state |
| Host.LoopIteration | src/main.rs:46-93 | one iteration of the main loop gives `Cycle`'s verdict and, unless it halts, its state |
| Host.CycleAdvancesCounters | src/main.rs:48-90 | both counters move as `Advance` says and stay below their periods, so neither decrement underflows |
| Host.IdleCycleChangesNothing | src/main.rs:48-90 | an iteration in which neither counter fires changes the machine not at all and only counts down |
| Host.CycleTicksTimers | src/main.rs:73-85 | on an iteration whose instruction counter does not fire, a fired timer counter ticks both timers, beeping exactly when the sound timer was 1; otherwise the timers are unchanged and there is no beep |
| Host.CycleDrawHandshake | src/main.rs:48-85 | with the instruction counter at 0: Ctrl-C quits before the fetch; the loop goes on exactly when fetch, decode and execute succeed; the screen is refreshed exactly when the instruction set the draw flag, which is then clear; when the timer counter fires on the same iteration, both timers tick after the instruction and the beep sounds exactly when the instruction left the sound timer at 1 |

## Left out

- Terminal rendering (`Display::new`, `draw_point`, `update`, `src/display.rs:47-104`) wraps an external renderer and is not part of this model. A screen refresh is the `refreshed` event of `Host.Events`.
- `InputHandler::update` (`src/input.rs:14-17`) polls the terminal. The keypad snapshot is a parameter of the executor and of the loop iteration. The `eprintln!` diagnostics are left out.
- `std::fs::read` in `load_data` (`src/chip8.rs:65`) is file I/O. `Machine.Chip8.LoadData` takes the image bytes.
- `rand::thread_rng()` (`src/opcodes.rs:289`) is ambient randomness. The random byte is a parameter.
- `beep_sound` (`src/chip8.rs:72-74`) is empty. The beep is the `beeped` event.
- The start-up part of `main` is not modelled as one method: the argument check, `init`, `load_data`, the first screen update and the `sleep` pacing (`src/main.rs:17-37, 91`). It is OS interaction apart from `init` and the copy step of `load_data`, which are modelled. `std::process::exit` and the panics end the program; in the model they are the `Halt` verdict.
- Host.LoopIteration: the unbounded `'main: loop` is modelled one iteration at a time. Its behaviour across iterations is stated through `Host.AdvanceBy` and `Host.FiresPeriodically`. The main loop's keypad snapshots and random bytes are parameters of each iteration.
- Executor.ExecuteOpcode: after a failure other than an empty-stack return, the machine state left behind is not stated, because the program exits on every such failure (`src/main.rs:58-62`, and the panics). The same holds for Framebuffer.BufDrawSprite, Executor.FetchOpcode, Host.InstructionBlock and Host.LoopIteration after a fault.
- Release builds wrap `u16` arithmetic instead of panicking. The model follows the debug build, where `pc += 2`, `pc -= 2`, `i += VX` and the FX29 address panic on overflow.
- `timers_dec_flag` is never read or written by the code. It is carried unchanged in the state.
- The stack is an unbounded sequence, as a `Vec` is. `with_capacity(32)` does not bound it.

## Findings

| source | as written | input that shows it | evidently intended | confidence | as-written member | corrected member |
|---|---|---|---|---|---|---|
| src/chip8.rs:32 | `font_location` starts at 0x200 while `init_font` stores the font at 0x50 | the start-up state: `memory[font_location]` is 0 (then the program's first byte), not glyph 0's F0 | `font_location` = 0x50 | high; not executed | Machine.FontLocationMisplaced | Machine.CorrectedFontLocation |
| src/opcodes.rs:326 | FX29 takes `VX % 15` | VX = 0xF points I at glyph 0 | `VX % 16`, one glyph per hexadecimal digit | high; not executed | Executor.SpriteOfDigitFIsGlyphZero | Executor.SpriteAddressFindsGlyph |
| src/display.rs:38 | `continue 'outer` ends a row at column 63 and also skips the row-limit test at line 41 | x = 56, y = 31, n = 2, memory[I] = memory[I+1] = 0x80: row 32 is indexed and the blit panics | rows stop after row 31 wherever the origin is | high; not executed | Framebuffer.DrawPastBottomFaults | Framebuffer.DrawClippedFaultsOnlyOnMemory |
| src/opcodes.rs:163 | `E =>` binds a new variable, so it matches every N from 8 to 15 | 0x8128 decodes as the left shift of V1 | only N = 0xE, with other N refused | high; not executed | OpCodes.ArithmeticFamilyCatchAll | OpCodes.DecodeIntendedNoneExactly |

For each row, the executor and the start-up state keep the code's behaviour. The corrected definitions are `Machine.CorrectedInitialState`, `Executor.SpriteAddress`, `Framebuffer.DrawClipped` and `OpCodes.DecodeIntended`. Lemmas connect each to the code's version:

- glyphs are found through the corrected font location (`Machine.CorrectedFontLocation`, `Executor.SpriteAddressFindsGlyph`);
- the clipped blit agrees with the code's blit wherever the code's blit succeeds (`Framebuffer.DrawClippedAgrees`);
- the intended decoder agrees with `Decode` on every other word and still round-trips every instruction (`OpCodes.DecodeIntendedEncode`).
