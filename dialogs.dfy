/** The modal dialogs of regedit_dialog.c: the choice lists dialog_notice
    and dialog_edit_value configure, modal_loop (used by dialog_notice),
    and dialog_input's loop, which switches between a text field and the
    Ok/Cancel menu. Keys come from a given sequence in place of wgetch; a
    dialog that runs out of keys is still open. */
module Dialogs {
  import opened RegTypes
  import opened Text
  import opened Menus
  import opened Widgets

  /** The choice indices the callers compare against. */
  const DIALOG_OK: int := 0
  const DIALOG_CANCEL: int := 1
  const DIALOG_RESIZE: int := 2

  // ---------------------------------------------------------------------
  // Choice configuration

  datatype NoticeKind = Alert | Confirm

  /** dialog_notice's choices: "Ok" and "Cancel", the second cut off by the
      NULL an alert writes over it. */
  function NoticeChoices(kind: NoticeKind): (labels: seq<string>)
    ensures 0 < |labels| && labels[DIALOG_OK] == "Ok"
    ensures |labels| == 1 <==> kind == Alert
    ensures kind == Confirm ==> labels[DIALOG_CANCEL] == "Cancel"
  {
    var choices := ["Ok", "Cancel"];
    if kind == Alert then choices[..1] else choices
  }

  /** dialog_edit_value's choices: "Ok", "Cancel" and "Resize", the last
      cut off unless the value is REG_BINARY. */
  function EditChoices(t: RegType): (labels: seq<string>)
    ensures 1 < |labels|
    ensures labels[DIALOG_OK] == "Ok" && labels[DIALOG_CANCEL] == "Cancel"
    ensures "Resize" in labels <==> t == RegBinary
    ensures t == RegBinary ==> labels[DIALOG_RESIZE] == "Resize"
  {
    var choices := ["Ok", "Cancel", "Resize"];
    if t != RegBinary then choices[..2] else choices
  }

  /** What a confirmed choice in a dialog_choice_new menu can be: the index
      of one of its labels, so an alert answers only DIALOG_OK and only a
      REG_BINARY edit dialog can answer DIALOG_RESIZE. */
  lemma ChoicesBoundSelections(labels: seq<string>, m: Menu, k: Key)
    requires m.Valid() && IndexTags(m.tags) && |m.tags| == |labels|
    requires IsConfirm(k)
    ensures 0 <= HandleMenuInput(m, k).1 < |labels|
    ensures labels == NoticeChoices(Alert) ==> HandleMenuInput(m, k).1 == DIALOG_OK
    ensures (exists t :: labels == EditChoices(t) && t != RegBinary) ==>
              HandleMenuInput(m, k).1 != DIALOG_RESIZE
  {
  }

  // ---------------------------------------------------------------------
  // modal_loop

  /** What handle_menu_input answers for the j-th key of a run. */
  function MenuAnswer(m: Menu, keys: seq<Key>, j: nat): int
    requires m.Valid() && j < |keys|
  {
    HandleMenuInput(AfterKeys(m, keys[..j]), keys[j]).1
  }

  lemma AfterOneMore(m: Menu, keys: seq<Key>, j: nat)
    requires m.Valid() && j < |keys|
    ensures AfterKeys(m, keys[..j + 1]) == HandleMenuInput(AfterKeys(m, keys[..j]), keys[j]).0
  {
    assert keys[..j + 1][..j] == keys[..j];
  }

  /** modal_loop: feed keys to handle_menu_input until it answers something
      other than -1. The answer is the first key's answer that is not -1;
      when the keys run out first, the dialog is still open (-1). */
  method ModalLoop(m: Menu, keys: seq<Key>) returns (selection: int, used: nat)
    requires m.Valid()
    ensures used <= |keys|
    ensures forall j :: 0 <= j < used - 1 ==> MenuAnswer(m, keys, j) == NO_SELECTION
    ensures selection != NO_SELECTION ==> 0 < used && selection == MenuAnswer(m, keys, used - 1)
    ensures selection == NO_SELECTION ==>
              used == |keys| && forall j :: 0 <= j < |keys| ==> MenuAnswer(m, keys, j) == NO_SELECTION
  {
    var menu := m;
    selection := NO_SELECTION;
    used := 0;
    while selection == NO_SELECTION && used < |keys|
      invariant used <= |keys|
      invariant menu == AfterKeys(m, keys[..used])
      invariant forall j :: 0 <= j < used - 1 ==> MenuAnswer(m, keys, j) == NO_SELECTION
      invariant selection == NO_SELECTION ==>
                  forall j :: 0 <= j < used ==> MenuAnswer(m, keys, j) == NO_SELECTION
      invariant selection != NO_SELECTION ==> 0 < used && selection == MenuAnswer(m, keys, used - 1)
    {
      AfterOneMore(m, keys, used);
      var r := HandleMenuInput(menu, keys[used]);
      menu, selection := r.0, r.1;
      used := used + 1;
    }
  }

  /** On a menu built by dialog_choice_new the modal loop ends exactly at
      the first confirming key, answering an item index. */
  lemma ModalLoopEndsAtFirstConfirm(m: Menu, keys: seq<Key>, j: nat)
    requires m.Valid() && IndexTags(m.tags) && j < |keys|
    ensures MenuAnswer(m, keys, j) != NO_SELECTION <==> IsConfirm(keys[j])
    ensures IsConfirm(keys[j]) ==> 0 <= MenuAnswer(m, keys, j) < |m.tags|
  {
    ChoiceMenuSelectsOnlyOnConfirm(AfterKeys(m, keys[..j]), keys[j]);
  }

  /** How many keys a confirming run reads: up to and including the first
      confirming key, or all of them when none confirms. */
  function UntilConfirm(keys: seq<Key>): (n: nat)
    ensures n <= |keys|
    decreases |keys|
  {
    if |keys| == 0 then 0 else if IsConfirm(keys[0]) then 1 else 1 + UntilConfirm(keys[1..])
  }

  /** The count is pinned by where the first confirming key is. */
  lemma {:induction false} UntilConfirmIs(keys: seq<Key>, n: nat)
    requires n <= |keys|
    requires forall j :: 0 <= j < n - 1 ==> !IsConfirm(keys[j])
    requires (0 < n && IsConfirm(keys[n - 1])) ||
             (n == |keys| && forall j :: 0 <= j < |keys| ==> !IsConfirm(keys[j]))
    ensures UntilConfirm(keys) == n
    decreases n
  {
    if 0 < |keys| && !IsConfirm(keys[0]) {
      var rest := keys[1..];
      forall j | 0 <= j < n - 2
        ensures !IsConfirm(rest[j])
      {
        assert rest[j] == keys[j + 1];
      }
      if IsConfirm(keys[n - 1]) {
        assert rest[n - 2] == keys[n - 1];
      } else {
        forall j | 0 <= j < |rest|
          ensures !IsConfirm(rest[j])
        {
          assert rest[j] == keys[j + 1];
        }
      }
      UntilConfirmIs(rest, n - 1);
    }
  }

  /** The menu dialog_notice builds for its choices. */
  function NoticeMenu(kind: NoticeKind): (m: Menu)
    ensures m.Valid() && IndexTags(m.tags) && |m.tags| == |NoticeChoices(kind)|
  {
    ChoiceMenu(Indices(|NoticeChoices(kind)|))
  }

  /** dialog_notice: build the message dialog (built is false when
      dialog_msg_new fails, which answers -1) and run the modal loop on its
      choices. The loop reads keys up to the first confirming one and
      answers the menu's current choice there. */
  method DialogNotice(kind: NoticeKind, keys: seq<Key>, built: bool) returns (rv: int, used: nat)
    ensures used == if built then UntilConfirm(keys) else 0
    ensures !built ==> rv == -1
    ensures rv != -1 ==> 0 < used && IsConfirm(keys[used - 1]) &&
                         rv == MenuAnswer(NoticeMenu(kind), keys, used - 1)
    ensures 0 <= rv < |NoticeChoices(kind)| || rv == -1
    ensures kind == Alert ==> rv == DIALOG_OK || rv == -1
    ensures built && rv == -1 ==> used == |keys| && forall j :: 0 <= j < |keys| ==> !IsConfirm(keys[j])
  {
    if !built {
      return -1, 0;
    }
    var tags := ChoiceTags(NoticeChoices(kind));
    assert tags == Indices(|NoticeChoices(kind)|);
    var m := ChoiceMenu(tags);
    rv, used := ModalLoop(m, keys);
    forall j | 0 <= j < used - 1
      ensures !IsConfirm(keys[j])
    {
      ModalLoopEndsAtFirstConfirm(m, keys, j);
    }
    if rv != -1 {
      ModalLoopEndsAtFirstConfirm(m, keys, used - 1);
    } else {
      forall j | 0 <= j < |keys|
        ensures !IsConfirm(keys[j])
      {
        ModalLoopEndsAtFirstConfirm(m, keys, j);
      }
    }
    UntilConfirmIs(keys, used);
  }

  // ---------------------------------------------------------------------
  // dialog_input

  /** dialog_input's state: which half has the focus, the text field, and
      the Ok/Cancel menu. */
  datatype InputState = InputState(inField: bool, field: Field, menu: Menu)

  /** One key of dialog_input's loop, with handle_menu_input's answer (-1
      while the dialog stays open). Tab and BackTab both switch halves;
      leaving the field needs REQ_VALIDATION, which an untyped field always
      passes, and puts the menu on its first item. */
  function InputStep(s: InputState, k: Key, drive: FormDriver): (r: (InputState, int))
    requires s.menu.Valid()
    ensures r.0.menu.Valid() && r.0.menu.tags == s.menu.tags
  {
    if k == Tab || k == BackTab then
      if s.inField then
        if Validates(s.field, Untyped) then (s.(inField := false, menu := s.menu.First()), NO_SELECTION)
        else (s, NO_SELECTION)
      else (s.(inField := true), NO_SELECTION)
    else if s.inField then
      (s.(field := drive(s.field, HandleFormInput(k))), NO_SELECTION)
    else
      var (menu, sel) := HandleMenuInput(s.menu, k);
      (s.(menu := menu), sel)
  }

  /** The state after the keys, in order. */
  function InputAfter(s: InputState, keys: seq<Key>, drive: FormDriver): (r: InputState)
    requires s.menu.Valid()
    ensures r.menu.Valid() && r.menu.tags == s.menu.tags
    decreases |keys|
  {
    if |keys| == 0 then s
    else InputStep(InputAfter(s, keys[..|keys| - 1], drive), keys[|keys| - 1], drive).0
  }

  /** A key ends dialog_input exactly when the menu has the focus and the
      key confirms; the field's keys never do. */
  lemma InputStepAnswers(s: InputState, k: Key, drive: FormDriver)
    requires s.menu.Valid() && IndexTags(s.menu.tags)
    ensures InputStep(s, k, drive).1 != NO_SELECTION <==> !s.inField && IsConfirm(k)
    ensures InputStep(s, k, drive).1 != NO_SELECTION ==>
              0 <= InputStep(s, k, drive).1 < |s.menu.tags|
  {
  }

  /** Tab leaves the field for the menu's first item, and a second Tab
      comes back to the field with its text as it was. */
  lemma TabTogglesFocus(s: InputState, drive: FormDriver)
    requires s.menu.Valid() && s.inField
    ensures InputStep(s, Tab, drive).0 == s.(inField := false, menu := s.menu.First())
    ensures InputStep(InputStep(s, Tab, drive).0, Tab, drive).0.inField
    ensures InputStep(InputStep(s, Tab, drive).0, Tab, drive).0.field == s.field
  {
  }

  /** What dialog_input leaves in *output: not written at all when it fails
      before clearing it, NULL, or the trimmed text. */
  datatype Output = Unset | Null | Text(text: string)

  /** dialog_input's state once it is built: the focus in the blank field,
      the Ok/Cancel menu on "Ok". */
  function InputStart(): (s: InputState)
    ensures s.menu.Valid() && IndexTags(s.menu.tags) && |s.menu.tags| == 2
  {
    InputState(true, Field("", false), ChoiceMenu(Indices(2)))
  }

  /** What handle_menu_input answers in dialog_input's loop for the j-th
      key (always -1 while the field has the focus). */
  function InputAnswer(s: InputState, keys: seq<Key>, j: nat, drive: FormDriver): int
    requires s.menu.Valid() && j < |keys|
  {
    InputStep(InputAfter(s, keys[..j], drive), keys[j], drive).1
  }

  /** dialog_input's loop from state s: the answer, what *output holds, and
      how many keys it read. It stops at the first key the menu answers; Ok
      hands back the field's text trimmed. */
  function InputFrom(s: InputState, keys: seq<Key>, drive: FormDriver): (r: (int, Output, nat))
    requires s.menu.Valid()
    ensures r.2 <= |keys|
    decreases |keys|
  {
    if |keys| == 0 then (NO_SELECTION, Null, 0)
    else
      var (next, answer) := InputStep(s, keys[0], drive);
      if answer != NO_SELECTION then
        (answer, if answer == DIALOG_OK then Text(Trim(next.field.buffer)) else Null, 1)
      else
        var r := InputFrom(next, keys[1..], drive);
        (r.0, r.1, r.2 + 1)
  }

  /** dialog_input as a whole: -1 with *output unwritten when it cannot be
      built, the loop from its starting state otherwise. */
  function InputRun(keys: seq<Key>, built: bool, drive: FormDriver): (r: (int, Output, nat))
    ensures r.2 <= |keys|
  {
    if !built then (NO_SELECTION, Unset, 0) else InputFrom(InputStart(), keys, drive)
  }

  /** dialog_input's loop invariant: the state is the start state after
      the keys read so far; while nothing is answered, what the whole loop
      yields is what the rest of it yields from here; every key but the
      last answered -1, and the last one's answer and the text are those
      of the run. */
  ghost predicate InputSoFar(s0: InputState, keys: seq<Key>, drive: FormDriver,
                             st: InputState, rv: int, output: Output, used: nat)
    requires s0.menu.Valid()
  {
    used <= |keys| && st.menu.Valid() &&
    st == InputAfter(s0, keys[..used], drive) &&
    (rv == NO_SELECTION ==>
       output == Null &&
       InputFrom(s0, keys, drive) == var r := InputFrom(st, keys[used..], drive); (r.0, r.1, r.2 + used)) &&
    (rv != NO_SELECTION ==> (rv, output, used) == InputFrom(s0, keys, drive)) &&
    (forall j :: 0 <= j < used - 1 ==> InputAnswer(s0, keys, j, drive) == NO_SELECTION) &&
    (rv == NO_SELECTION ==> forall j :: 0 <= j < used ==> InputAnswer(s0, keys, j, drive) == NO_SELECTION) &&
    (rv != NO_SELECTION ==> 0 < used && rv == InputAnswer(s0, keys, used - 1, drive)) &&
    (output.Text? ==> 0 < used && output.text == Trim(InputAfter(s0, keys[..used - 1], drive).field.buffer))
  }

  /** One more key keeps the loop invariant. */
  lemma InputKeyKeeps(s0: InputState, keys: seq<Key>, drive: FormDriver, st: InputState, used: nat)
    requires s0.menu.Valid() && used < |keys|
    requires InputSoFar(s0, keys, drive, st, NO_SELECTION, Null, used)
    ensures var (next, answer) := InputStep(st, keys[used], drive);
            InputSoFar(s0, keys, drive, next, answer,
                       if answer == DIALOG_OK then Text(Trim(st.field.buffer)) else Null, used + 1)
  {
    assert keys[..used + 1][..used] == keys[..used];
    assert keys[used..][0] == keys[used] && keys[used..][1..] == keys[used + 1..];
    assert InputAnswer(s0, keys, used, drive) == InputStep(st, keys[used], drive).1;
  }

  /** dialog_input: a blank field and an Ok/Cancel menu (built is false when
      the dialog, its input window or its field cannot be created: the
      answer is -1 and *output is never written). The loop runs until the
      menu answers; Ok hands back the field's text trimmed, Cancel leaves
      *output NULL. */
  method DialogInput(keys: seq<Key>, built: bool, drive: FormDriver)
    returns (rv: int, output: Output, used: nat)
    ensures (rv, output, used) == InputRun(keys, built, drive)
    ensures used <= |keys|
    ensures !built ==> rv == -1 && output == Unset && used == 0
    ensures built ==> output != Unset
    ensures rv == DIALOG_OK <==> output.Text?
    ensures output.Text? ==> Trimmed(output.text)
    ensures rv == -1 || rv == DIALOG_OK || rv == DIALOG_CANCEL
    ensures rv != -1 ==> 0 < used && IsConfirm(keys[used - 1])
    ensures built && rv == -1 ==> used == |keys|
    ensures built ==> forall j :: 0 <= j < used - 1 ==> InputAnswer(InputStart(), keys, j, drive) == NO_SELECTION
    ensures built && rv == NO_SELECTION ==>
              forall j :: 0 <= j < |keys| ==> InputAnswer(InputStart(), keys, j, drive) == NO_SELECTION
    ensures rv != NO_SELECTION ==> rv == InputAnswer(InputStart(), keys, used - 1, drive)
    ensures output.Text? ==> output.text == Trim(InputAfter(InputStart(), keys[..used - 1], drive).field.buffer)
  {
    if !built {
      return -1, Unset, 0;
    }
    var tags := ChoiceTags(["Ok", "Cancel"]);
    assert tags == Indices(2);
    ghost var s0 := InputStart();
    var inField := true;
    var field := Field("", false);
    var menu := ChoiceMenu(tags);
    output := Null;
    rv := -1;
    used := 0;
    assert keys[0..] == keys;
    while rv == -1 && used < |keys|
      invariant menu.tags == tags
      invariant InputSoFar(s0, keys, drive, InputState(inField, field, menu), rv, output, used)
      invariant output != Unset
      invariant rv == DIALOG_OK <==> output.Text?
      invariant output.Text? ==> Trimmed(output.text)
      invariant rv == -1 || rv == DIALOG_OK || rv == DIALOG_CANCEL
      invariant rv != -1 ==> 0 < used && IsConfirm(keys[used - 1])
    {
      var c := keys[used];
      ghost var before := InputState(inField, field, menu);
      ghost var step := InputStep(before, c, drive);
      InputStepAnswers(before, c, drive);
      InputKeyKeeps(s0, keys, drive, before, used);
      used := used + 1;
      if c == Tab || c == BackTab {
        if inField {
          if Validates(field, Untyped) {
            inField := false;
            menu := menu.First();
          }
        } else {
          inField := true;
        }
      } else if inField {
        field := drive(field, HandleFormInput(c));
      } else {
        var r := HandleMenuInput(menu, c);
        menu, rv := r.0, r.1;
        if rv == DIALOG_OK {
          output := Text(Trim(field.buffer));
        }
      }
      assert InputState(inField, field, menu) == step.0 && rv == step.1;
    }
  }
}
