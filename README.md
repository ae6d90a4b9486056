# Registry editor dialogs, modelled in Dafny

This project models the decision logic of the curses dialogs in Samba's registry editor,
`source3/utils/regedit_dialog.c`, and proves properties of it. It covers:

- **Geometry.** `center_dialog_above_window` clamps a dialog to the window below and places it. The
  message width rule comes from `dialog_msg_new`. The edit dialog's layout depends on the value's kind.
- **Menus.** `handle_menu_input` turns a key into "nothing yet" (-1) or the current item's tag.
  `dialog_choice_new` sets each item's tag to its index. `dialog_notice` and `dialog_edit_value`
  choose their choice lists.
- **Key translation.** `handle_form_input` and `handle_hexedit_input` map keys to requests for the
  form and the hex editor.
- **Modal loops.** `modal_loop` (used by `dialog_notice`) and `dialog_input` read keys until the menu
  answers.
- **The edit dialog.** `dialog_edit_value` is a class with a focus state (`section_down`,
  `section_up`). Its main loop is given as a function of the keys (`EditRun`, one pass being
  `EditStep`), and the class's methods are proved to follow it. The loop commits through the
  corrected `set_value` (`CommitFor`, see Findings), shows an alert on WERR_FILE_EXISTS, resizes
  the hex buffer through `dialog_input`, or cancels.
- **The value codec.** `fill_value_buffer` renders a stored value into the data field. `set_value`
  reads the field back and encodes it, for each kind:
  - REG_DWORD: `0x%x` text, a `strtoul` parse, four little-endian bytes;
  - REG_SZ and REG_EXPAND_SZ: the trimmed text;
  - REG_MULTI_SZ: one trimmed entry per field row for storage. The source displays one entry per
    line, which does not read back (see Findings); the model displays one entry per row;
  - REG_BINARY: the hex editor's bytes.
- **Trimming.** `string_trim` and `string_trim_n`.
- **Teardown.** The release calls made by `dialog_free`, `edit_dialog_free` and the clean-up at the end
  of `dialog_input`.

Keys come from a given sequence in place of `wgetch`. A dialog that runs out of keys is still open.
Everything this file reaches outside itself is a parameter:

- the curses form and hex-editor drivers (`FormDriver`, `HexDriver`);
- the UTF-16 helpers `pull_reg_sz`, `push_reg_sz`, `pull_reg_multi_sz` and `push_reg_multi_sz`
  (`StringCodec`, where `None` is an allocation failure);
- `value_exists`, as a function of the `reg_val_set` calls made so far, and `reg_val_set` (fields of
  `EditValue.Env`);
- whether a nested dialog could be created (the `built` flags).

Modules, one per component: `RegTypes` (shared types and keys), `Text`, `Dword`, `Geometry`, `Menus`,
`Widgets`, `ValueCodec`, `Dialogs`, `EditValue`, `Teardown`.

Where the code does something other than its names suggest, the model follows the code:

- A dialog smaller than half the window below is not centred. Its bottom edge sits on the window's
  centre line.
- REG_MULTI_SZ storage keeps a blank row that comes before a non-blank one as an empty entry.
  Trailing blank rows are not modelled (see Left out).
- A blank typed field passes REQ_VALIDATION, because O_NULLOK stays on. Tab therefore leaves a
  blank REG_DWORD field, and Ok then stores 0.
- `fill_value_buffer` shows REG_SZ text untrimmed. Only `set_value` trims.
- The edit loop raises the "Value exists" alert for any WERR_FILE_EXISTS from `set_value`. That
  includes one returned by `reg_val_set` after it has written. The model therefore records every
  `reg_val_set` call the dialog makes, the alerted ones included, and `value_exists` answers
  according to the calls already made.

## Model

| member | source | states |
|---|---|---|
| Text.Trim | source3/utils/regedit_dialog.c:42-53 | string_trim's result is no longer than its input and has no space at either end |
| Text.TrimFrames | source3/utils/regedit_dialog.c:42-53 | string_trim removes only spaces: the input is the result with the leading and trailing spaces it removed put back around it |
| Text.TrimN | source3/utils/regedit_dialog.c:29-40 | string_trim_n's result is at most n characters long and has no outer space |
| Text.TrimOfPadded | source3/utils/regedit_dialog.c:42-53 | the converse: any text without outer spaces, padded by spaces on either side, trims back to itself |
| Text.TrimIdempotent | source3/utils/regedit_dialog.c:42-53 | trimming twice gives what trimming once gives |
| Text.TrimEmptyIffBlank | source3/utils/regedit_dialog.c:42-53 | a text trims to the empty string exactly when it is all spaces |
| Geometry.CenterAbove | source3/utils/regedit_dialog.c:120-146 | the size is clamped to the window below (min of request and window); the origin is non-negative and the dialog fits inside the window; in each direction a dialog under half the window ends on the centre line, any other starts at 0 |
| Geometry.MessageWidth | source3/utils/regedit_dialog.c:310-313 | the width is max(message length + 2, 20) |
| Geometry.EditLines | source3/utils/regedit_dialog.c:721-726 | the edit dialog is 9 rows high, 13 exactly for REG_MULTI_SZ and 19 exactly for REG_BINARY |
| Geometry.DataRows | source3/utils/regedit_dialog.c:765-769 | the data field has 5 rows exactly for REG_MULTI_SZ and 1 otherwise |
| Geometry.TextLayoutFits | source3/utils/regedit_dialog.c:765-774 | for a text kind the data field lies below the name field and ends inside the form window, above the button row |
| Menus.Menu.Prev | source3/utils/regedit_dialog.c:232-234 | KEY_LEFT keeps the items and leaves a valid current item |
| Menus.Menu.Next | source3/utils/regedit_dialog.c:235-237 | KEY_RIGHT keeps the items and leaves a valid current item |
| Menus.ChoiceTags | source3/utils/regedit_dialog.c:176-193 | the counting loop and the item loop give one tag per label, each item's tag being its index |
| Menus.HandleMenuInput | source3/utils/regedit_dialog.c:227-245 | KEY_ENTER and '\n' answer the current item's tag; every other key answers -1; the menu keeps its items and a valid current item |
| Menus.ChoiceMenuSelectsOnlyOnConfirm | source3/utils/regedit_dialog.c:227-245 | on a dialog_choice_new menu a key selects something exactly when it confirms, and what it selects is an item index in [0, nchoices) |
| Menus.NoConfirmNoSelection | source3/utils/regedit_dialog.c:284-289 | along a run of keys none of which confirms, every answer is -1, so the modal loop never ends on them |
| Widgets.HandleFormInput | source3/utils/regedit_dialog.c:247-273 | '\n', the arrows and both backspaces become their form requests (both backspaces, and only they, delete backwards); every other key, KEY_ENTER included, is passed on unchanged |
| Widgets.HandleHexeditInput | source3/utils/regedit_dialog.c:671-692 | the four arrows, and only they, become cursor moves; every other key is passed on unchanged |
| Widgets.Validates | source3/utils/regedit_dialog.c:781-787 | REQ_VALIDATION (lines 379, 621, 632) passes an untyped field always, and the REG_DWORD data field exactly when it is blank (O_NULLOK stays on) or matches the pattern |
| Widgets.ArrowsMoveTheCursorInBothWidgets | source3/utils/regedit_dialog.c:671-692 | an arrow moves the cursor the same way in the form and in the hex editor, and neither passes it on |
| Dword.FromLEOfToLE | source3/utils/regedit_dialog.c:570-571 | reading back (IVAL) the n little-endian bytes SIVAL writes of any v < 256^n gives v |
| Dword.ToLEOfFromLE | source3/utils/regedit_dialog.c:484-485 | writing back the number IVAL reads gives the same bytes |
| Dword.DwordOf | source3/utils/regedit_dialog.c:483-486 | the displayed DWORD is below 2^32 (IVAL of the first four bytes, 0 when fewer) |
| Dword.HexValue | source3/utils/regedit_dialog.c:487 | the "%x" digits read back in base 16 give the number |
| Dword.Strtoul | source3/utils/regedit_dialog.c:569 | strtoul's result never exceeds ULONG_MAX |
| Dword.ParseDwordAsWritten | source3/utils/regedit_dialog.c:562-569 | the source's parse: the base is 16 only when buf[0..1] is "0x"/"0X"; the stored value is below 2^32 |
| Dword.ParseDword | source3/utils/regedit_dialog.c:562-569 | the corrected parse, which looks for the prefix after the leading spaces; the value is below 2^32 |
| Dword.DwordBytes | source3/utils/regedit_dialog.c:570-571 | a REG_DWORD is stored as exactly four bytes |
| Dword.ParseDwordMatchesPattern | source3/utils/regedit_dialog.c:785-788 | every text the data field's pattern admits is parsed to the value the pattern says it denotes (decimal or hex, saturated, truncated to 32 bits) |
| Dword.ParseDwordAgreesWithoutLeadingSpace | source3/utils/regedit_dialog.c:565-569 | without a leading space the source's parse and the corrected one agree |
| Dword.DwordTextMatchesPattern | source3/utils/regedit_dialog.c:482-491 | the text fill_value_buffer writes, with any field padding, passes the data field's pattern and trims back to itself |
| Dword.DwordRoundTrip | source3/utils/regedit_dialog.c:482-494 | parsing the rendered text (padded or not) gives the displayed value, the source's parse agrees, and the stored bytes are the value's first four bytes (four zeros when it had fewer) |
| Dword.DwordPattern | source3/utils/regedit_dialog.c:786-787 | the data field's regexp, a decimal or 0x literal between runs of spaces: a matching text trims to a literal that starts with a decimal digit and ends with a hex digit |
| Dword.DwordPatternIsFramedLiteral | source3/utils/regedit_dialog.c:786-787 | a text matches the pattern exactly when it is a decimal or 0x literal framed by spaces on both sides |
| Dword.LeadingSpaceHexParsesAsZero | source3/utils/regedit_dialog.c:565-569 | " 0x1A" passes the pattern as 26, the source's parse gives 0, the corrected parse 26 |
| ValueCodec.JoinLines | source3/utils/regedit_dialog.c:512-521 | the append loop builds every entry followed by "\n", in order |
| ValueCodec.LinesRoundTrip | source3/utils/regedit_dialog.c:505-523 | splitting the source's REG_MULTI_SZ display at its newlines gives back the entries, when none holds a newline (set_value does not split there) |
| ValueCodec.JoinRows | source3/utils/regedit_dialog.c:512-521 | (corrected) the append loop builds every entry padded to the end of its row, in order |
| ValueCodec.FillValueBuffer | source3/utils/regedit_dialog.c:476-531 | fill_value_buffer shows each kind's text (or WERR_NOMEM when decoding fails) as DisplayText defines it; REG_MULTI_SZ one entry per row (corrected) |
| ValueCodec.DisplayMatchesKind | source3/utils/regedit_dialog.c:481-528 | the hex editor is used exactly for REG_BINARY, a REG_DWORD always renders, and WERR_NOMEM comes only from a failed decode |
| ValueCodec.TrimmedRows | source3/utils/regedit_dialog.c:596-599 | one entry per cols-wide row of the buffer, each at most cols long and without outer spaces |
| ValueCodec.SplitRows | source3/utils/regedit_dialog.c:596-599 | the row loop collects exactly the trimmed rows, and its index stays below the row count (the SMB_ASSERT holds) |
| ValueCodec.ChunkCount | source3/utils/regedit_dialog.c:591-599 | the buffer holds as many rows as its length divided by the width, rounded up |
| ValueCodec.TrimmedRowsOfPadded | source3/utils/regedit_dialog.c:596-599 | entries laid out one per row, each without outer spaces and no wider than a row, are read back exactly |
| ValueCodec.CommitAsWritten | source3/utils/regedit_dialog.c:545-615 | set_value as written: nothing is written exactly for an untouched value, WERR_FILE_EXISTS exactly for a touched new value whose trimmed name exists, never WERR_NOMEM; a write goes under the trimmed name with the dialog's kind, the hex bytes for REG_BINARY and four bytes for REG_DWORD |
| ValueCodec.SetValue | source3/utils/regedit_dialog.c:545-615 | set_value (corrected) decides what CommitFor decides |
| ValueCodec.CommitExits | source3/utils/regedit_dialog.c:552-557 | nothing is written exactly when an existing non-binary value's field is unchanged (WERR_OK) or a new value's trimmed name exists (WERR_FILE_EXISTS) |
| ValueCodec.CommitStoresUnderTrimmedName | source3/utils/regedit_dialog.c:550-612 | a write goes under the trimmed name with the dialog's kind, never for an untouched value or over an existing one when creating; WERR_NOMEM arises exactly from a failed encoding |
| ValueCodec.DwordCommitDecodes | source3/utils/regedit_dialog.c:560-573 | (corrected) a REG_DWORD whose text matches the pattern is stored as four bytes reading back as the pattern's value |
| ValueCodec.DwordCommitRoundTrip | source3/utils/regedit_dialog.c:560-573 | confirming a touched REG_DWORD shown as fill_value_buffer rendered it stores its first four bytes again |
| ValueCodec.SzCommitRoundTrip | source3/utils/regedit_dialog.c:575-583 | a REG_SZ/REG_EXPAND_SZ string without outer spaces, shown and confirmed, is stored as the bytes it was read from when the codec round-trips |
| ValueCodec.MultiSzCommitRoundTrip | source3/utils/regedit_dialog.c:585-603 | (corrected display) a REG_MULTI_SZ list is shown one entry per row, and confirmed it is stored as the bytes it came from when the codec round-trips and every entry fits a row without outer spaces |
| ValueCodec.MultiSzPaddedFieldAddsEmptyEntries | source3/utils/regedit_dialog.c:585-603 | a field holding the entries one per row followed by k blank rows is read back as the entries followed by k empty ones, and stored so; in the five-row field ["a", "b"] comes back as ["a", "b", "", "", ""] |
| ValueCodec.MultiSzLinesStoredAsOneEntry | source3/utils/regedit_dialog.c:512-600 | the source's display of ["a", "b"] is "a\nb\n", which set_value as written (and corrected) stores as the single entry "a\nb\n"; laid out per row it is stored as ["a", "b"] |
| ValueCodec.CommitAgreesWithSource | source3/utils/regedit_dialog.c:545-615 | the source's set_value and the corrected one agree unless encoding fails or the DWORD text starts with a space |
| ValueCodec.EncodingFailureStillWritesAsWritten | source3/utils/regedit_dialog.c:580-612 | as written, a failed string encoding still reaches reg_val_set with the unset blob; the corrected version answers WERR_NOMEM |
| ValueCodec.LeadingSpaceDwordStoredAsZero | source3/utils/regedit_dialog.c:560-571 | " 0x1A" is stored as 0 by the source and as 26 by the corrected set_value |
| Dialogs.NoticeChoices | source3/utils/regedit_dialog.c:423-431 | "Ok" is the first choice; an alert offers only it, a confirmation also "Cancel" |
| Dialogs.EditChoices | source3/utils/regedit_dialog.c:698-730 | "Ok" and "Cancel" at 0 and 1; "Resize" is offered, at 2, exactly for REG_BINARY |
| Dialogs.ChoicesBoundSelections | source3/utils/regedit_dialog.c:698-730 | a confirmed choice is a label index: an alert answers only DIALOG_OK, and only a REG_BINARY edit dialog can answer DIALOG_RESIZE |
| Dialogs.ModalLoop | source3/utils/regedit_dialog.c:275-294 | the loop answers the first key's answer that is not -1, having read keys up to it; when the keys run out every answer was -1 |
| Dialogs.ModalLoopEndsAtFirstConfirm | source3/utils/regedit_dialog.c:284-289 | on a choice menu the loop ends exactly at the first confirming key, answering an item index |
| Dialogs.UntilConfirmIs | source3/utils/regedit_dialog.c:284-289 | UntilConfirm counts the keys up to and including the first confirming one, or all of them when none confirms |
| Dialogs.DialogNotice | source3/utils/regedit_dialog.c:417-441 | -1 reading nothing when the dialog cannot be built; otherwise it reads UntilConfirm of the keys, and a non--1 answer is the choice menu's answer at that confirming key (DIALOG_OK only, for an alert); -1 when no key confirms |
| Dialogs.InputStep | source3/utils/regedit_dialog.c:377-398 | one key of dialog_input's loop keeps the Ok/Cancel menu's items and a valid current item |
| Dialogs.InputStepAnswers | source3/utils/regedit_dialog.c:377-398 | a key ends dialog_input exactly when the menu has the focus and the key confirms, answering an item index |
| Dialogs.TabTogglesFocus | source3/utils/regedit_dialog.c:377-388 | Tab leaves the field for the menu's first item, and a second Tab returns to the field with its text unchanged |
| Dialogs.DialogInput | source3/utils/regedit_dialog.c:325-415 | the answer, *output and the keys read are InputRun's: -1 with *output untouched when the dialog cannot be built; otherwise the answer is InputStep's first non--1 answer, at a confirming key, every earlier key answering -1; *output holds text exactly when the answer is DIALOG_OK, and then it is the trimmed field text after the keys before it |
| EditValue.MovesOnlyWhenLeftSectionValidates | source3/utils/regedit_dialog.c:617-669 | section_down and section_up move exactly when the section left passes its guard (the menu always does), down along NAME→DATA→MENU→NAME and up the reverse |
| EditValue.UpUndoesDown | source3/utils/regedit_dialog.c:617-669 | when both guards pass, section_up undoes section_down and section_down undoes section_up |
| EditValue.FailedGuardHoldsFocus | source3/utils/regedit_dialog.c:617-669 | a failing guard keeps the focus in both directions |
| EditValue.Resized | source3/utils/regedit_dialog.c:853-854 | the resized buffer has the requested length, keeps the old bytes that fit, and zero-fills the rest |
| EditValue.EditDialog.constructor | source3/utils/regedit_dialog.c:710-814 | (corrected display) a new value starts with blank fields (eight zero bytes for REG_BINARY); an existing one shows its name and its data as the corrected fill_value_buffer renders it (a REG_MULTI_SZ one entry per row); the focus is on the name, the menu on "Ok" |
| EditValue.EditDialog.SectionDown | source3/utils/regedit_dialog.c:617-642 | the new section is StepDown of the old under the name and data guards; entering the menu resets it to its first item; the fields are unchanged |
| EditValue.EditDialog.SectionUp | source3/utils/regedit_dialog.c:644-669 | the new section is StepUp of the old under the same guards; entering the menu resets it to its first item; the fields are unchanged |
| EditValue.EditRun | source3/utils/regedit_dialog.c:816-866 | the main loop over the keys ends only at a confirming key with the focus on the menu, and is still open exactly when the keys run out; an existing value's name is never edited |
| EditValue.EditRunCalls | source3/utils/regedit_dialog.c:835-845 | (corrected) over a run, the reg_val_set calls are the earlier ones, then calls that each answered WERR_FILE_EXISTS, then on a commit its own call; a commit is set_value's decision for the final fields with value_exists seeing the calls before it, never the name conflict, and answers its result, never WERR_FILE_EXISTS |
| EditValue.MenuStep | source3/utils/regedit_dialog.c:835-861 | (corrected) a menu key keeps the name and the focus on the menu; the dialog ends only on a confirming key, reading no further key and keeping the data; a commit is the corrected set_value's decision for the current fields and its reg_val_set result, never the name conflict or WERR_FILE_EXISTS |
| EditValue.MenuStepCalls | source3/utils/regedit_dialog.c:835-845 | a menu key makes set_value's call exactly when it selects "Ok"; the dialog stays open after that call only on WERR_FILE_EXISTS; "Cancel" follows no "Ok" |
| EditValue.EditStepCalls | source3/utils/regedit_dialog.c:818-862 | a pass that leaves the dialog open adds only calls answering WERR_FILE_EXISTS; "Cancel" adds none; a commit adds its own call and keeps the fields |
| EditValue.EditStepOffMenu | source3/utils/regedit_dialog.c:818-833 | Tab and BackTab run section_down and section_up, any other key off the menu goes to the focused widget, each reading one key |
| EditValue.EditStepOnOk | source3/utils/regedit_dialog.c:835-845 | (corrected) "Ok" confirmed records set_value's call and ends the pass with its decision, or, on WERR_FILE_EXISTS, keeps the fields and reads the alert's keys |
| EditValue.CancelEndsTheDialog | source3/utils/regedit_dialog.c:858-861 | "Cancel" confirmed on the menu ends the loop at once with the state unchanged |
| EditValue.OkCommits | source3/utils/regedit_dialog.c:835-845 | (corrected) "Ok" confirmed ends the loop with set_value's decision and result, its call recorded, when that result is not WERR_FILE_EXISTS |
| EditValue.OkAlerts | source3/utils/regedit_dialog.c:838-842 | (corrected) on WERR_FILE_EXISTS from the corrected set_value the loop reads the alert's keys up to its confirmation and goes on with the same fields and focus, the call that answered WERR_FILE_EXISTS recorded |
| EditValue.EditDialog.Run | source3/utils/regedit_dialog.c:816-866 | (corrected) the final state, the outcome and the keys read are EditRun's from the initial state; the loop ends only at a confirming key on the menu, and the calls grow by calls that answered WERR_FILE_EXISTS and, on a commit, its own; a commit is set_value's decision for the final fields, never WERR_FILE_EXISTS |
| EditValue.EditDialog.HandleKey | source3/utils/regedit_dialog.c:818-862 | one pass of the loop changes the dialog as EditStep says: Tab and BackTab move the focus, a menu key goes to MenuKey, any other key to the focused widget |
| EditValue.EditDialog.WidgetKey | source3/utils/regedit_dialog.c:826-833 | the focused name or data field becomes the form driver applied to handle_form_input's request, the hex buffer the hex driver applied to handle_hexedit_input's; an existing value's name ignores the key; focus and menu are unchanged |
| EditValue.EditDialog.MenuKey | source3/utils/regedit_dialog.c:835-861 | (corrected) the menu moves as handle_menu_input says; the dialog ends exactly on a confirmed "Cancel", or on "Ok" when set_value does not answer WERR_FILE_EXISTS, committing its decision and result; "Ok" records set_value's call; WERR_FILE_EXISTS shows the alert and keeps the dialog open; the name never changes and the data only on "Resize" |
| EditValue.EditDialog.ResizeData | source3/utils/regedit_dialog.c:846-857 | the prompt runs as InputRun says on the keys; when it answers Ok with text, the hex buffer is resized to strtoul(text, 10); otherwise it is unchanged |
| EditValue.DialogEditValue | source3/utils/regedit_dialog.c:694-872 | (corrected) WERR_NOMEM when the dialog cannot be built; otherwise EditRun from the initial state decides: "Cancel" answers WERR_OK, a commit answers set_value's result for its decision, and running out of keys leaves the dialog open; the calls returned are the reg_val_set calls made, none when not built: calls that answered WERR_FILE_EXISTS, then on a commit its own; the answer is never WERR_FILE_EXISTS; an existing value is written under its own trimmed name and kind |
| EditValue.CommittedDwordMatchesPattern | source3/utils/regedit_dialog.c:785-788 | (corrected) a REG_DWORD committed from a validating field stores four bytes that read back as the pattern's value, or as 0 when the field is blank |
| Teardown.DialogFree | source3/utils/regedit_dialog.c:55-78 | dialog_free makes the calls DialogFreeCalls lists: each present handle released in order, then the items up to the first NULL slot |
| Teardown.FrontItemsAreLeading | source3/utils/regedit_dialog.c:178-190 | for a choice_items array filled from the front, the items before the first NULL are exactly the created ones |
| Teardown.DialogFreeFreesCreatedItems | source3/utils/regedit_dialog.c:55-78 | every created item is freed, no other, and only after the menu is freed |
| Teardown.DialogFreeDeletesParentFirst | source3/utils/regedit_dialog.c:57-62 | the dialog's window is deleted before its derived sub-window |
| Teardown.EditDialogFree | source3/utils/regedit_dialog.c:460-474 | edit_dialog_free makes the calls EditFreeCalls lists |
| Teardown.EditFreeLeavesFormAllocated | source3/utils/regedit_dialog.c:460-474 | edit_dialog_free never frees its form, while dialog_input's clean-up does, and it calls delwin even on a NULL input window |

## Left out

- Drawing, windows and panels are not modelled. This covers `newwin`, `derwin`, `box`, `waddstr`, `mvwprintw`, `update_panels`, `doupdate`, `keypad`, `set_menu_*` and `set_form_*`. They produce no decision the dialogs depend on.
- `dialog_new`, `dialog_center_new`, `dialog_choice_new` and `dialog_choice_center_new` allocate and create curses objects. They are modelled only by their results: the tag loop (`ChoiceTags`), the placement (`CenterAbove`), and a `built` flag for failure.
- Allocation failures are not modelled one by one. A failing talloc call is modelled only as a `None` from the codec or as a `built` flag that is false. The `talloc_zero_array` failure at line 592 is one of those left out.
- `form_driver`, `menu_driver` and `hexedit_driver` belong to libraries. The form and hex-editor drivers are function parameters.
  - Menu movement is modelled as clamped at both ends.
  - A field buffer is modelled without its trailing padding. A blank field is "".
  - `set_field_buffer` is taken not to set `field_status`.
- `hexedit_resize_buffer` lives in the hex editor, which is not part of this model. `Resized` takes it to truncate or zero-extend.
- `hexedit_new` is not part of this model. A new REG_BINARY value starts with eight zero bytes.
- The registry backend and the UTF-16 helpers are parameters: `reg_val_set`, `reg_key_get_value_by_name` (through `value_exists`), `pull_reg_sz`, `push_reg_sz`, `pull_reg_multi_sz` and `push_reg_multi_sz`.
- `fill_value_buffer` switches on the stored value's own type. The model uses the dialog's kind, which callers pass as that same type.
- `dialog_select_type` is not part of this model. Its type tags come from `regtype_by_string`, which is not shown.
- `talloc_vasprintf` formatting is not modelled. A message's length is a parameter of `MessageWidth`.
- Constants whose header is not shown are inferred from the choice arrays: DIALOG_OK = 0 and DIALOG_CANCEL = 1. `unsigned long` is taken to be 64 bits wide.
- `input` at lines 336/402 is read uninitialised when `dialog_input` fails before `new_form`. This is undefined behaviour, so the model frees nothing for it (`InputFreeCalls` is given the flags).
- `list` and `item` at lines 890-891/967-971 can be read uninitialised. They belong to `dialog_select_type`, which is not modelled.
- `n` at lines 847/850-853 is read uninitialised when `dialog_input` fails early. `Dialogs.DialogInput` returns `Unset` then, and `ResizeData` treats that as no resize.
- Line 471: `edit_dialog_free` calls `delwin` without a NULL check. `EditFreeCalls` records that call with `present` false.
- `dialog_free` deletes the parent window before its sub-window, and never deletes `menu_window` (lines 57-75). The model keeps that order and proves the first half in `DialogFreeDeletesParentFirst`.
- The REG_MULTI_SZ case at lines 524-525 has no `break` and falls into the empty REG_BINARY case. This is harmless, and `FillValueBuffer` ends that case with the same state.
- `dialog_edit_value` ignores `fill_value_buffer`'s result (line 794). On failure the field is left blank.
- An empty REG_MULTI_SZ list leaves `buf` NULL. `set_field_buffer(NULL)` then leaves the field blank, which the model shows as "".
- ValueCodec.CommitFor and ValueCodec.SplitRows: the field buffer is modelled without the spaces curses adds to fill all its rows, so trailing blank rows give no entries. A blank new REG_MULTI_SZ field is stored as an empty list, where the program stores five empty entries.
- ValueCodec.MultiSzCommitRoundTrip: holds for the field without the trailing blank rows curses pads it with. In the program's five-row field, unused rows come back as extra "" entries, as `MultiSzPaddedFieldAddsEmptyEntries` proves.
- ValueCodec.FillValueBuffer: shows a REG_MULTI_SZ one entry per row (corrected). The source's newline-joined display is kept in `Lines` and `JoinLines` (see Findings).
- EditValue.EditDialog.Run: starts from the corrected display of an existing REG_MULTI_SZ (one entry per row), and commits through the corrected `set_value` (`CommitFor`). It differs from the program on a DWORD text with a leading space and on a failed string encoding. `CommitAgreesWithSource` states where the two agree.
- EditValue.EditDialog.MenuKey: commits through the corrected `set_value`, as for `Run`.
- EditValue.MenuStep: commits through the corrected `set_value` (`OkDecision` is `CommitFor`), as for `Run`.
- EditValue.EditDialog.constructor: shows an existing REG_MULTI_SZ one entry per row, as `FillValueBuffer` does, where the program shows the entries joined by newlines (see Findings). `InitialState` starts from the same display.
- EditValue.DialogEditValue: starts the run from the corrected REG_MULTI_SZ display and answers the corrected `set_value`'s result, as for `Run`.
- ValueCodec.DwordCommitDecodes: is about the corrected parse. The source stores 0 for a pattern-matching text with a leading space (see Findings).
- EditValue.CommittedDwordMatchesPattern: is about the corrected parse, as for `DwordCommitDecodes`.
- Dword.DwordOf: only the bound is stated in its contract. Its round trip is proved by `DwordRoundTrip` and `ToLEOfFromLE`.
- Dword.Strtoul: covers bases 10 and 16 only, the two `set_value` and the resize prompt use. `errno` is not modelled.

## Findings

| source | as written | input that shows it | evidently intended | confidence | as-written member | corrected member |
|---|---|---|---|---|---|---|
| source3/utils/regedit_dialog.c:565 | the 0x test looks at `buf[0]`, but the data field's pattern (line 787) lets the text start with spaces, so a spaced hex literal is parsed in base 10 | data text " 0x1A": the pattern accepts it, `strtoul(" 0x1A", NULL, 10)` stops at the `x`, and 0 is stored | look for the prefix after the leading spaces, so that " 0x1A" stores 26 | not executed | ValueCodec.LeadingSpaceDwordStoredAsZero | Dword.ParseDwordMatchesPattern |
| source3/utils/regedit_dialog.c:512-521 | fill_value_buffer joins the REG_MULTI_SZ entries with "\n", but set_value (lines 596-600) cuts the field into 46-column rows and never splits at newlines | the list ["a", "b"]: it is shown as "a\nb\n", which fits in the first row, so Ok stores the single entry "a\nb\n" | lay each entry out on a row of its own, so that a shown list is stored back as the same entries (followed by an empty entry per unused row of the five-row field) | not executed | ValueCodec.MultiSzLinesStoredAsOneEntry | ValueCodec.MultiSzCommitRoundTrip |
| source3/utils/regedit_dialog.c:612 | `rv = reg_val_set(...)` runs after a failed `push_reg_sz` or `push_reg_multi_sz` set WERR_NOMEM (lines 581, 602); the failure is overwritten and the uninitialised `blob` is written | a REG_SZ edit whose encoding fails: `reg_val_set` is called with the unset blob and its result is returned | return WERR_NOMEM without calling `reg_val_set` | not executed | ValueCodec.EncodingFailureStillWritesAsWritten | ValueCodec.CommitStoresUnderTrimmedName |
