/** The parts of crossterm's key events that the program looks at. */
module Keys {

  /** A key code; `Other` stands for every code the program does not bind. */
  datatype KeyCode = Char(ch: char) | Up | Down | Other(name: string)

  datatype KeyEventKind = Press | Repeat | Release

  /** A key event; modifiers and lock state are not read by the program. */
  datatype KeyEvent = KeyEvent(code: KeyCode, kind: KeyEventKind)
}
