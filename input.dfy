/** The keyboard snapshot the executor consults: the last event the terminal reported.
    Polling the terminal is left to the host; a snapshot is a value. */
module Input {
  import opened Bits
  import opened Outcomes
  import opened Keymap

  datatype InputHandler = InputHandler(lastInput: Option<InputEvent>)

  /** A fresh handler has seen nothing: no key is pressed and no quit is asked for. */
  function NewInputHandler(): (h: InputHandler)
    ensures !h.lastInput.Some?
    ensures AnyKeyPressed(h).None? && !ShouldQuit(h)
  {
    InputHandler(None)
  }

  /** A key is down when it is the event the terminal last reported. */
  predicate IsKeyDown(h: InputHandler, key: KeyEvent): (r: bool)
    ensures r <==> h.lastInput.Some? && h.lastInput.value.Key? && h.lastInput.value.key == key
  {
    Some(Key(key)) == h.lastInput
  }

  /** Ctrl-C asks the host to stop: the quit test is the key-down test of Ctrl-C. */
  predicate ShouldQuit(h: InputHandler): (r: bool)
    ensures r <==> IsKeyDown(h, Ctrl('c'))
  {
    Some(Key(Ctrl('c'))) == h.lastInput
  }

  /** A key is up exactly when it is not down. */
  predicate IsKeyUp(h: InputHandler, key: KeyEvent): (r: bool)
    ensures r <==> !IsKeyDown(h, key)
  {
    Some(Key(key)) != h.lastInput
  }

  /** The CHIP-8 key of the last event, when it was a key of the keypad. */
  function AnyKeyPressed(h: InputHandler): (r: Option<byte>)
    ensures r.Some? ==> r.value <= 0xF && h.lastInput.Some? && h.lastInput.value.Key?
    ensures r.Some? ==> IsKeyDown(h, KKeyFromCode(r.value).value)
    ensures (h.lastInput.Some? && h.lastInput.value.Key? && CodeFromKKey(h.lastInput.value.key).Some?) ==> r.Some?
  {
    if h.lastInput.Some? && h.lastInput.value.Key? then
      CodeFromKKey(h.lastInput.value.key)
    else
      None
  }

  /** A snapshot holds at most one key down. */
  lemma AtMostOneKeyDown(h: InputHandler, k1: KeyEvent, k2: KeyEvent)
    requires IsKeyDown(h, k1) && IsKeyDown(h, k2)
    ensures k1 == k2
  {
  }

  /** When the host is asked to stop, no keypad key is reported pressed. */
  lemma QuitIsNoKeypadKey(h: InputHandler)
    requires ShouldQuit(h)
    ensures AnyKeyPressed(h) == None
    ensures forall c: byte :: c <= 0xF ==> !IsKeyDown(h, KKeyFromCode(c).value)
  {
  }

  /** The key reported pressed is the one whose terminal key is down, and no other is. */
  lemma PressedKeyIsTheKeyDown(h: InputHandler, c: byte)
    requires c <= 0xF
    ensures AnyKeyPressed(h) == Some(c) <==> IsKeyDown(h, KKeyFromCode(c).value)
  {
    if IsKeyDown(h, KKeyFromCode(c).value) {
      assert h.lastInput == Some(Key(KKeyFromCode(c).value));
    }
  }
}
