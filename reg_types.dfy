/** Types shared by the dialog model: optional values, registry value kinds,
    Windows error codes, and the keys the dialogs read from the terminal. */
module RegTypes {

  datatype Option<T> = None | Some(value: T)

  /** The registry value kinds the editor can show and store. */
  datatype RegType = RegDword | RegSz | RegExpandSz | RegMultiSz | RegBinary

  /** The WERROR values the editor produces itself, plus any error reported
      by the registry backend. */
  datatype WError = WerrOk | WerrNomem | WerrFileExists | StoreError(code: int)

  /** A key read with wgetch: the named ncurses codes the dialogs dispatch on,
      and Other for every code none of them handles by name (printable
      characters included). Other never carries the code of a named key:
      '\n' is always Newline, never Other(10). */
  datatype Key =
    | Enter         // KEY_ENTER
    | Newline       // '\n'
    | Tab           // '\t'
    | BackTab       // KEY_BTAB
    | Up            // KEY_UP
    | Down          // KEY_DOWN
    | Left          // KEY_LEFT
    | Right         // KEY_RIGHT
    | Backspace     // '\b'
    | KeyBackspace  // KEY_BACKSPACE
    | Other(code: int)

  /** Both spellings of "confirm" that a menu accepts. */
  predicate IsConfirm(k: Key) {
    k == Enter || k == Newline
  }

  /** An octet of a value's data blob (uint8_t). */
  newtype byte = x: int | 0 <= x < 256

  function Min(a: int, b: int): int {
    if a <= b then a else b
  }
}
