/** Translation of the terminal library's key codes into editor events (src/terminal/event.rs). */
module Events {

  /** The library's key codes; `Other` stands for every code the editor does not handle. */
  datatype KeyCode = Char(c: char) | Backspace | Enter | Left | Right | Up | Down | Tab | Esc | Other

  datatype Key = Char(c: char) | Backspace | Enter | LeftArrow | RightArrow | UpArrow | DownArrow | Tab | Esc

  datatype Event = KeyPressed(key: Key) | CtrlKeyPressed(key: Key) | WindowResized(cols: nat, rows: nat) | Unknown

  /** The key code each key is read from: the reverse of the mapping below. */
  function CodeOf(k: Key): (code: KeyCode)
    ensures !code.Other?
  {
    match k
    case Char(c) => KeyCode.Char(c)
    case Backspace => KeyCode.Backspace
    case Enter => KeyCode.Enter
    case LeftArrow => KeyCode.Left
    case RightArrow => KeyCode.Right
    case UpArrow => KeyCode.Up
    case DownArrow => KeyCode.Down
    case Tab => KeyCode.Tab
    case Esc => KeyCode.Esc
  }

  /**
   * A key pressed alone: each handled code becomes the key of the same name
   * (a char keeps its char), every other code is `Unknown`.
   */
  function SingleKeyPressed(code: KeyCode): (e: Event)
    ensures e.KeyPressed? <==> !code.Other?
    ensures e.Unknown? <==> code.Other?
    ensures e.KeyPressed? ==> CodeOf(e.key) == code
    ensures !e.WindowResized? && !e.CtrlKeyPressed?
  {
    match code
    case Char(c) => KeyPressed(Key.Char(c))
    case Backspace => KeyPressed(Key.Backspace)
    case Enter => KeyPressed(Key.Enter)
    case Left => KeyPressed(LeftArrow)
    case Right => KeyPressed(RightArrow)
    case Up => KeyPressed(UpArrow)
    case Down => KeyPressed(DownArrow)
    case Tab => KeyPressed(Key.Tab)
    case Esc => KeyPressed(Key.Esc)
    case Other => Unknown
  }

  /** The same translation for a key pressed with Ctrl. */
  function KeyPressedWithControl(code: KeyCode): (e: Event)
    ensures e.CtrlKeyPressed? <==> !code.Other?
    ensures e.Unknown? <==> code.Other?
    ensures e.CtrlKeyPressed? ==> CodeOf(e.key) == code
    ensures !e.WindowResized? && !e.KeyPressed?
  {
    match code
    case Char(c) => CtrlKeyPressed(Key.Char(c))
    case Backspace => CtrlKeyPressed(Key.Backspace)
    case Enter => CtrlKeyPressed(Key.Enter)
    case Left => CtrlKeyPressed(LeftArrow)
    case Right => CtrlKeyPressed(RightArrow)
    case Up => CtrlKeyPressed(UpArrow)
    case Down => CtrlKeyPressed(DownArrow)
    case Tab => CtrlKeyPressed(Key.Tab)
    case Esc => CtrlKeyPressed(Key.Esc)
    case Other => Unknown
  }

  /** Every key is produced, from its own code, by both translations. */
  lemma EveryKeyIsReachable(k: Key)
    ensures SingleKeyPressed(CodeOf(k)) == KeyPressed(k)
    ensures KeyPressedWithControl(CodeOf(k)) == CtrlKeyPressed(k)
  {
  }

  /** The Ctrl translation wraps the same key, and is `Unknown` exactly when the plain one is. */
  lemma ControlMirrorsSingle(code: KeyCode)
    ensures SingleKeyPressed(code).Unknown? <==> KeyPressedWithControl(code).Unknown?
    ensures SingleKeyPressed(code).KeyPressed? ==>
      KeyPressedWithControl(code) == CtrlKeyPressed(SingleKeyPressed(code).key)
  {
  }
}
