/** The key translation regedit_dialog.c does before handing a key to a
    curses form (handle_form_input) or to the hex editor
    (handle_hexedit_input), and the validation a form field performs on
    REQ_VALIDATION. What the form and the hex editor then do with a request
    belongs to those libraries; the dialogs receive it as a function. */
module Widgets {
  import opened RegTypes
  import opened Text
  import opened Dword

  /** The form_driver requests handle_form_input issues; ReqKey passes the
      key code itself (character insertion, or a code the form ignores). */
  datatype FormRequest =
    | ReqNewLine | ReqUpChar | ReqDownChar | ReqDelPrev | ReqLeftChar | ReqRightChar
    | ReqKey(key: Key)

  /** handle_form_input: '\n' starts a new line (KEY_ENTER does not), both
      backspace codes delete backwards, the arrows move the cursor, and any
      other key is passed to the form unchanged. */
  function HandleFormInput(k: Key): (r: FormRequest)
    ensures r.ReqKey? <==> k !in {Newline, Up, Down, Backspace, KeyBackspace, Left, Right}
    ensures r.ReqKey? ==> r.key == k
    ensures r == ReqDelPrev <==> (k == Backspace || k == KeyBackspace)
  {
    match k
    case Newline => ReqNewLine
    case Up => ReqUpChar
    case Down => ReqDownChar
    case Backspace => ReqDelPrev
    case KeyBackspace => ReqDelPrev
    case Left => ReqLeftChar
    case Right => ReqRightChar
    case _ => ReqKey(k)
  }

  /** The hexedit_driver requests handle_hexedit_input issues. */
  datatype HexRequest = CursorUp | CursorDown | CursorLeft | CursorRight | HexKey(key: Key)

  /** handle_hexedit_input: the arrows move the hex cursor, any other key
      goes to the hex editor unchanged. */
  function HandleHexeditInput(k: Key): (r: HexRequest)
    ensures r.HexKey? <==> k !in {Up, Down, Left, Right}
    ensures r.HexKey? ==> r.key == k
  {
    match k
    case Up => CursorUp
    case Down => CursorDown
    case Left => CursorLeft
    case Right => CursorRight
    case _ => HexKey(k)
  }

  /** The two translations agree on the arrows: an arrow moves the cursor
      the same way in a text field and in the hex editor, and neither passes
      it on as a key. */
  lemma ArrowsMoveTheCursorInBothWidgets(k: Key)
    requires k in {Up, Down, Left, Right}
    ensures !HandleFormInput(k).ReqKey? && !HandleHexeditInput(k).HexKey?
    ensures HandleFormInput(k) == ReqUpChar <==> HandleHexeditInput(k) == CursorUp
    ensures HandleFormInput(k) == ReqDownChar <==> HandleHexeditInput(k) == CursorDown
    ensures HandleFormInput(k) == ReqLeftChar <==> HandleHexeditInput(k) == CursorLeft
    ensures HandleFormInput(k) == ReqRightChar <==> HandleHexeditInput(k) == CursorRight
  {
  }

  /** A curses FIELD: its buffer (field_buffer) and whether the user has
      changed it (field_status). */
  datatype Field = Field(buffer: string, changed: bool)

  /** A field's type: none, or the REG_DWORD regular expression. */
  datatype FieldType = Untyped | DwordRegexp

  /** REQ_VALIDATION answers E_OK: an untyped field always validates, a
      REG_DWORD field when its buffer is blank (O_NULLOK, on by default and
      never turned off by the dialogs, skips the check) or matches the
      pattern. */
  predicate Validates(f: Field, ty: FieldType): (ok: bool)
    ensures ty == Untyped ==> ok
    ensures ty == DwordRegexp ==>
              (ok <==> f.buffer == Blanks(|f.buffer|) || DwordPattern(f.buffer))
  {
    TrimEmptyIffBlank(f.buffer);
    ty == Untyped || Trim(f.buffer) == "" || DwordPattern(f.buffer)
  }

  /** What form_driver does with a request on the current field. */
  type FormDriver = (Field, FormRequest) -> Field
  /** What hexedit_driver does with a request on the hex editor's bytes. */
  type HexDriver = (seq<byte>, HexRequest) -> seq<byte>

  /** The data section of the edit dialog: a text field, or (REG_BINARY
      only) the hex editor over the value's bytes. Never both. */
  datatype DataWidget = TextData(field: Field) | HexData(bytes: seq<byte>)

  /** dialog_edit_value picks the widget from the value's kind. */
  predicate WidgetFits(t: RegType, d: DataWidget) {
    (t == RegBinary) == d.HexData?
  }

  /** The data field's type: the REG_DWORD field carries the pattern. */
  function DataFieldType(t: RegType): FieldType {
    if t == RegDword then DwordRegexp else Untyped
  }
}
