/** The terminal key events the interpreter sees and the fixed map between them and the
    sixteen CHIP-8 keys (an AZERTY layout: the keypad's rows 1 2 3 C / 4 5 6 D / 7 8 9 E /
    A 0 B F sit on & é " ' / a z e r / q s d f / w x c v). */
module Keymap {
  import opened Bits
  import opened Outcomes

  /** Key events of the terminal library: a printable character, a control chord, or any
      other key (arrows, function keys, ...), which the interpreter never matches. */
  datatype KeyEvent = Char(c: char) | Ctrl(c: char) | OtherKey(code: nat)

  /** Events of the terminal library: a key, or anything else (mouse, resize, ...). */
  datatype InputEvent = Key(key: KeyEvent) | OtherEvent(code: nat)

  const E_ACUTE: char := '\U{00E9}'

  /** The terminal key that stands for CHIP-8 key `code`; no key for codes above 15. */
  function KKeyFromCode(code: byte): (r: Option<KeyEvent>)
    ensures r.None? <==> code > 0xF
    ensures r.Some? ==> r.value.Char? && CodeFromKKey(r.value) == Some(code)
  {
    match code
    case 0x1 => Some(Char('&'))
    case 0x2 => Some(Char(E_ACUTE))
    case 0x3 => Some(Char('"'))
    case 0xC => Some(Char('\''))
    case 0x4 => Some(Char('a'))
    case 0x5 => Some(Char('z'))
    case 0x6 => Some(Char('e'))
    case 0xD => Some(Char('r'))
    case 0x7 => Some(Char('q'))
    case 0x8 => Some(Char('s'))
    case 0x9 => Some(Char('d'))
    case 0xE => Some(Char('f'))
    case 0xA => Some(Char('w'))
    case 0x0 => Some(Char('x'))
    case 0xB => Some(Char('c'))
    case 0xF => Some(Char('v'))
    case _ => None
  }

  /** The CHIP-8 key a terminal key stands for, if any. */
  function CodeFromKKey(key: KeyEvent): (r: Option<byte>)
    ensures r.Some? ==> r.value <= 0xF && key.Char?
  {
    match key
    case Char('&') => Some(0x1)
    case Char('\U{00E9}') => Some(0x2)
    case Char('"') => Some(0x3)
    case Char('\'') => Some(0xC)
    case Char('a') => Some(0x4)
    case Char('z') => Some(0x5)
    case Char('e') => Some(0x6)
    case Char('r') => Some(0xD)
    case Char('q') => Some(0x7)
    case Char('s') => Some(0x8)
    case Char('d') => Some(0x9)
    case Char('f') => Some(0xE)
    case Char('w') => Some(0xA)
    case Char('x') => Some(0x0)
    case Char('c') => Some(0xB)
    case Char('v') => Some(0xF)
    case _ => None
  }

  /** The two maps are mutually inverse: every key that maps to a code is the key of that code. */
  lemma KeyMapsInverse(key: KeyEvent)
    ensures CodeFromKKey(key).Some? ==> KKeyFromCode(CodeFromKKey(key).value) == Some(key)
  {
  }

  /** Distinct codes have distinct keys. */
  lemma KKeyFromCodeInjective(c1: byte, c2: byte)
    requires c1 <= 0xF && c2 <= 0xF && c1 != c2
    ensures KKeyFromCode(c1) != KKeyFromCode(c2)
  {
    assert CodeFromKKey(KKeyFromCode(c1).value) == Some(c1);
  }
}
