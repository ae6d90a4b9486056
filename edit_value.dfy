/** dialog_edit_value: the edit dialog's focus machine (section_down,
    section_up), its setup, and its main loop, which commits through
    set_value (the corrected one, CommitFor), reports a name conflict with
    an alert, resizes the hex buffer through dialog_input, or cancels. The
    loop is given first as a function of the keys (EditRun), then as the
    class whose methods change the dialog in place. */
module EditValue {
  import opened RegTypes
  import opened Text
  import opened Dword
  import opened Menus
  import opened Widgets
  import opened ValueCodec
  import opened Dialogs

  // ---------------------------------------------------------------------
  // The focus machine

  /** enum input_section. */
  datatype Section = InName | InData | InMenu

  /** section_down (Tab): name to data when the name field validates, data
      to menu when the data widget is the hex editor or its field validates,
      menu to name always. */
  function StepDown(s: Section, nameOk: bool, dataOk: bool): Section {
    match s
    case InName => if nameOk then InData else InName
    case InData => if dataOk then InMenu else InData
    case InMenu => InName
  }

  /** section_up (BackTab): the same guards, the other direction. */
  function StepUp(s: Section, nameOk: bool, dataOk: bool): Section {
    match s
    case InName => if nameOk then InMenu else InName
    case InData => if dataOk then InName else InData
    case InMenu => InData
  }

  /** Each move happens exactly when the section being left passes its
      guard; the menu can always be left. */
  lemma MovesOnlyWhenLeftSectionValidates(s: Section, nameOk: bool, dataOk: bool)
    ensures StepDown(s, nameOk, dataOk) != s <==>
              s == InMenu || (s == InName && nameOk) || (s == InData && dataOk)
    ensures StepUp(s, nameOk, dataOk) != s <==>
              s == InMenu || (s == InName && nameOk) || (s == InData && dataOk)
    ensures StepDown(s, nameOk, dataOk) != s ==> StepDown(s, nameOk, dataOk) == NextSection(s)
    ensures StepUp(s, nameOk, dataOk) != s ==> NextSection(StepUp(s, nameOk, dataOk)) == s
  {
  }

  /** The Tab order: name, data, menu, name. */
  function NextSection(s: Section): Section {
    match s
    case InName => InData
    case InData => InMenu
    case InMenu => InName
  }

  /** When both guards pass, BackTab undoes Tab and Tab undoes BackTab. */
  lemma UpUndoesDown(s: Section, nameOk: bool, dataOk: bool)
    requires nameOk && dataOk
    ensures StepUp(StepDown(s, nameOk, dataOk), nameOk, dataOk) == s
    ensures StepDown(StepUp(s, nameOk, dataOk), nameOk, dataOk) == s
  {
  }

  /** A guard that fails makes both directions stay put. */
  lemma FailedGuardHoldsFocus(s: Section, nameOk: bool, dataOk: bool)
    requires (s == InName && !nameOk) || (s == InData && !dataOk)
    ensures StepDown(s, nameOk, dataOk) == s && StepUp(s, nameOk, dataOk) == s
  {
  }

  // ---------------------------------------------------------------------
  // Collaborators

  /** Everything the edit dialog reaches outside this file: the form and
      hex-editor drivers, the UTF-16 codec, the registry key (value_exists,
      whose answer may depend on the reg_val_set calls the dialog has
      already made, and reg_val_set), and whether the nested dialogs can be
      created. */
  datatype Env = Env(
    formDrive: FormDriver,
    hexDrive: HexDriver,
    codec: StringCodec,
    exists_: seq<Commit> -> (string -> bool),
    regValSet: (string, RegType, seq<byte>) -> WError,
    noticeBuilt: bool,
    inputBuilt: bool)

  /** The WERROR set_value answers for each of its decisions. */
  function CommitResult(c: Commit, regValSet: (string, RegType, seq<byte>) -> WError): WError {
    match c
    case Unchanged => WerrOk
    case NameExists => WerrFileExists
    case OutOfMemory => WerrNomem
    case Store(name, kind, blob) => regValSet(name, kind, blob)
  }

  /** The reg_val_set calls a decision of set_value makes: one for a
      write, none for the early exits and a failed encoding. */
  function Calls(c: Commit): seq<Commit> {
    if c.Store? then [c] else []
  }

  /** A reg_val_set call that answered WERR_FILE_EXISTS: the call was made,
      yet the loop shows the alert and goes on. */
  predicate Alerted(c: Commit, env: Env) {
    c.Store? && CommitResult(c, env.regValSet) == WerrFileExists
  }

  /** value_exists as set_value sees it after the given calls. */
  function ExistsAfter(env: Env, calls: seq<Commit>): string -> bool {
    env.exists_(calls)
  }

  /** The calls grew from before to after by calls that each answered
      WERR_FILE_EXISTS, followed by last. */
  ghost predicate CallsBetween(before: seq<Commit>, after: seq<Commit>, last: seq<Commit>, env: Env) {
    |before| + |last| <= |after| &&
    after[..|before|] == before && after[|after| - |last|..] == last &&
    forall i :: |before| <= i < |after| - |last| ==> Alerted(after[i], env)
  }

  lemma CallsBetweenTrans(a: seq<Commit>, b: seq<Commit>, c: seq<Commit>, last: seq<Commit>, env: Env)
    requires CallsBetween(a, b, [], env) && CallsBetween(b, c, last, env)
    ensures CallsBetween(a, c, last, env)
  {
    assert c[..|a|] == c[..|b|][..|a|];
    forall i | |a| <= i < |c| - |last|
      ensures Alerted(c[i], env)
    {
      if i < |b| {
        assert c[i] == c[..|b|][i] == b[i];
      }
    }
  }

  /** hexedit_resize_buffer: the buffer becomes n bytes long, keeping its
      first bytes and filling any new ones with zeros. */
  function Resized(bytes: seq<byte>, n: nat): (r: seq<byte>)
    ensures |r| == n
    ensures forall i :: 0 <= i < Min(n, |bytes|) ==> r[i] == bytes[i]
    ensures forall i :: |bytes| <= i < n ==> r[i] == 0
  {
    if n <= |bytes| then bytes[..n] else bytes + seq(n - |bytes|, _ => 0)
  }

  /** How the edit dialog ends. */
  datatype Outcome =
    | StillOpen                           // the keys ran out
    | Cancelled                           // "Cancel": WERR_OK
    | Committed(commit: Commit, rv: WError) // "Ok", and set_value did not answer WERR_FILE_EXISTS

  // ---------------------------------------------------------------------
  // The main loop as a function of the keys

  /** What changes while the edit dialog runs: the focus, the name field,
      the data widget, the menu, and the reg_val_set calls made so far. */
  datatype EditState = EditState(section: Section, name: Field, data: DataWidget, menu: Menu,
                                 calls: seq<Commit>)

  /** How many items the edit dialog's menu has: "Resize" only for REG_BINARY. */
  function EditChoiceCount(t: RegType): nat {
    if t == RegBinary then 3 else 2
  }

  lemma EditChoiceCountIs(t: RegType)
    ensures EditChoiceCount(t) == |EditChoices(t)|
  {
  }

  /** The menu is the edit dialog's choice menu and the data widget fits
      the value's kind. */
  predicate Fits(kind: RegType, s: EditState) {
    s.menu.Valid() && IndexTags(s.menu.tags) && |s.menu.tags| == EditChoiceCount(kind) &&
    WidgetFits(kind, s.data)
  }

  /** set_value's decision when "Ok" is chosen: for the current fields, with
      value_exists seeing the calls already made. */
  function OkDecision(kind: RegType, isNew: bool, s: EditState, env: Env): Commit
    requires Fits(kind, s)
  {
    CommitFor(kind, isNew, s.name.buffer, s.data, ExistsAfter(env, s.calls), env.codec)
  }

  /** What dialog_edit_value sets up: a new value starts with blank fields
      (eight zero bytes for REG_BINARY); an existing one shows its name and
      its data as fill_value_buffer renders it, or a blank field when that
      fails. The focus is on the name, the menu on "Ok"; no call is made. */
  function InitialState(t: RegType, existing: Option<(string, seq<byte>)>, codec: StringCodec): (s: EditState)
    ensures Fits(t, s)
  {
    var data :=
      if t == RegBinary then HexData(if existing.Some? then existing.value.1 else seq(8, _ => 0))
      else if existing.None? then TextData(Field("", false))
      else TextData(Field(match DisplayText(t, existing.value.1, codec)
                          case FieldText(text) => text
                          case _ => "", false));
    EditChoiceCountIs(t);
    EditState(InName, Field(if existing.Some? then existing.value.0 else "", false), data,
              ChoiceMenu(Indices(|EditChoices(t)|)), [])
  }

  /** section_down (down) or section_up: the name's guard is REQ_VALIDATION
      on the name field, the data's the hex editor or REQ_VALIDATION on its
      field; entering the menu puts it on its first item. */
  function TabStep(kind: RegType, s: EditState, down: bool): (r: EditState)
    requires Fits(kind, s)
    ensures Fits(kind, r) && r.name == s.name && r.data == s.data && r.calls == s.calls
  {
    var nameOk := Validates(s.name, Untyped);
    var dataOk := s.data.HexData? || Validates(s.data.field, DataFieldType(kind));
    var section := if down then StepDown(s.section, nameOk, dataOk) else StepUp(s.section, nameOk, dataOk);
    s.(section := section, menu := if section == InMenu && s.section != InMenu then s.menu.First() else s.menu)
  }

  /** A key for the focused widget: the name field (whose text an existing
      value's read-only field keeps), the hex editor, or the data field. */
  function WidgetStep(kind: RegType, isNew: bool, s: EditState, c: Key, env: Env): (r: EditState)
    requires Fits(kind, s) && s.section != InMenu
    ensures Fits(kind, r) && r.section == s.section && r.menu == s.menu && r.calls == s.calls
    ensures !isNew ==> r.name == s.name
  {
    if s.section == InName then
      if isNew then s.(name := env.formDrive(s.name, HandleFormInput(c))) else s
    else
      match s.data
      case HexData(bytes) => s.(data := HexData(env.hexDrive(bytes, HandleHexeditInput(c))))
      case TextData(f) => s.(data := TextData(env.formDrive(f, HandleFormInput(c))))
  }

  /** A key for the menu and the action it chooses; the nested alert and
      resize prompt read their keys from rest, and the count says how many.
      "Ok" runs set_value, whose reg_val_set call (if it makes one) is
      recorded; its decision ends the dialog unless the answer is
      WERR_FILE_EXISTS, which shows the alert and keeps the dialog open;
      "Resize" resizes the hex buffer to strtoul of the prompt's text when
      the prompt answers Ok; "Cancel" ends the dialog. */
  function MenuStep(kind: RegType, isNew: bool, s: EditState, c: Key, rest: seq<Key>, env: Env)
    : (r: (EditState, Outcome, nat))
    requires Fits(kind, s) && s.section == InMenu
    ensures Fits(kind, r.0) && r.0.section == InMenu && r.0.name == s.name && r.2 <= |rest|
    ensures r.1 != StillOpen ==> IsConfirm(c) && r.2 == 0 && r.0.data == s.data
    ensures r.1.Committed? ==>
              r.1.rv != WerrFileExists && r.1.commit != NameExists &&
              r.1.commit == OkDecision(kind, isNew, s, env) &&
              r.1.rv == CommitResult(r.1.commit, env.regValSet)
  {
    ChoiceMenuSelectsOnlyOnConfirm(s.menu, c);
    var (menu, selection) := HandleMenuInput(s.menu, c);
    var moved := s.(menu := menu);
    if selection == DIALOG_OK then
      var commit := OkDecision(kind, isNew, s, env);
      var result := CommitResult(commit, env.regValSet);
      var called := moved.(calls := s.calls + Calls(commit));
      if result == WerrFileExists then (called, StillOpen, if env.noticeBuilt then UntilConfirm(rest) else 0)
      else (called, Committed(commit, result), 0)
    else if selection == DIALOG_RESIZE then
      var (_, answer, used) := InputRun(rest, env.inputBuilt, env.formDrive);
      if answer.Text? then (moved.(data := HexData(Resized(s.data.bytes, Strtoul(answer.text, 10)))), StillOpen, used)
      else (moved, StillOpen, used)
    else if selection == DIALOG_CANCEL then (moved, Cancelled, 0)
    else (moved, StillOpen, 0)
  }

  /** The calls a menu key makes: "Ok" makes set_value's call, and the
      dialog stays open after it only on a WERR_FILE_EXISTS answer; every
      other choice makes none. */
  lemma MenuStepCalls(kind: RegType, isNew: bool, s: EditState, c: Key, rest: seq<Key>, env: Env)
    requires Fits(kind, s) && s.section == InMenu
    ensures var r := MenuStep(kind, isNew, s, c, rest, env);
            var ok := HandleMenuInput(s.menu, c).1 == DIALOG_OK;
            r.0.calls == s.calls + (if ok then Calls(OkDecision(kind, isNew, s, env)) else []) &&
            (r.1 == StillOpen && ok ==> CommitResult(OkDecision(kind, isNew, s, env), env.regValSet) == WerrFileExists) &&
            (r.1 == Cancelled ==> !ok) &&
            (r.1.Committed? ==> ok)
  {
  }

  /** One pass of the main loop: the key at index at, and the keys the
      nested dialogs read after it; the count is the index of the next key
      the loop reads. */
  function EditStep(kind: RegType, isNew: bool, s: EditState, keys: seq<Key>, at: nat, env: Env)
    : (r: (EditState, Outcome, nat))
    requires Fits(kind, s) && at < |keys|
    ensures Fits(kind, r.0) && at < r.2 <= |keys|
    ensures !isNew ==> r.0.name == s.name
    ensures r.1 != StillOpen ==> r.2 == at + 1 && IsConfirm(keys[at]) && r.0.section == InMenu
  {
    var c := keys[at];
    if c == Tab then (TabStep(kind, s, true), StillOpen, at + 1)
    else if c == BackTab then (TabStep(kind, s, false), StillOpen, at + 1)
    else if s.section == InMenu then
      var m := MenuStep(kind, isNew, s, c, keys[at + 1..], env);
      (m.0, m.1, at + 1 + m.2)
    else (WidgetStep(kind, isNew, s, c, env), StillOpen, at + 1)
  }

  /** The main loop over the keys from index at on: the final state, the
      outcome, and the index of the first key left unread. Only a
      confirming key on the menu ends it; an existing value's name is
      never edited. */
  function EditRun(kind: RegType, isNew: bool, s: EditState, keys: seq<Key>, at: nat, env: Env)
    : (r: (EditState, Outcome, nat))
    requires Fits(kind, s) && at <= |keys|
    ensures Fits(kind, r.0) && at <= r.2 <= |keys|
    ensures r.1 == StillOpen ==> r.2 == |keys|
    ensures r.1 != StillOpen ==> at < r.2 && IsConfirm(keys[r.2 - 1]) && r.0.section == InMenu
    ensures !isNew ==> r.0.name == s.name
    decreases |keys| - at
  {
    if at == |keys| then (s, StillOpen, at)
    else
      var step := EditStep(kind, isNew, s, keys, at, env);
      if step.1 != StillOpen then step
      else EditRun(kind, isNew, step.0, keys, step.2, env)
  }

  /** The calls one pass makes: a pass that keeps the dialog open makes
      none, or one that answered WERR_FILE_EXISTS; Cancel makes none; a
      commit makes the call of its own decision, for the same fields. */
  lemma EditStepCalls(kind: RegType, isNew: bool, s: EditState, keys: seq<Key>, at: nat, env: Env)
    requires Fits(kind, s) && at < |keys|
    ensures var r := EditStep(kind, isNew, s, keys, at, env);
            (r.1 == StillOpen ==> CallsBetween(s.calls, r.0.calls, [], env)) &&
            (r.1 == Cancelled ==> r.0.calls == s.calls) &&
            (r.1.Committed? ==>
               r.0.name == s.name && r.0.data == s.data && r.0.calls == s.calls + Calls(r.1.commit) &&
               r.1.commit == OkDecision(kind, isNew, s, env) && r.1.commit != NameExists &&
               r.1.rv == CommitResult(r.1.commit, env.regValSet) && r.1.rv != WerrFileExists)
  {
    EditStepOffMenu(kind, isNew, s, keys, at, env);
    var r := EditStep(kind, isNew, s, keys, at, env);
    if keys[at] != Tab && keys[at] != BackTab && s.section == InMenu {
      EditStepOnMenu(kind, isNew, s, keys, at, env);
      MenuStepCalls(kind, isNew, s, keys[at], keys[at + 1..], env);
      if r.1 == StillOpen && r.0.calls != s.calls {
        assert r.0.calls == s.calls + [OkDecision(kind, isNew, s, env)];
      }
    } else {
      assert r.0.calls == s.calls;
    }
  }

  /** What a run r started with the calls before makes: every call made
      while the dialog stayed open answered WERR_FILE_EXISTS; a run that
      ends in a commit then makes the call of set_value's decision for the
      final fields (with value_exists seeing the earlier calls), and that
      decision is never the name conflict. */
  ghost predicate RunCalls(kind: RegType, isNew: bool, before: seq<Commit>, r: (EditState, Outcome, nat), env: Env)
    requires Fits(kind, r.0)
  {
    var last := if r.1.Committed? then Calls(r.1.commit) else [];
    CallsBetween(before, r.0.calls, last, env) &&
    (r.1.Committed? ==>
       r.1.rv != WerrFileExists && r.1.commit != NameExists &&
       r.1.commit == CommitFor(kind, isNew, r.0.name.buffer, r.0.data,
                               ExistsAfter(env, r.0.calls[..|r.0.calls| - |last|]), env.codec) &&
       r.1.rv == CommitResult(r.1.commit, env.regValSet))
  }

  /** Calls that answered WERR_FILE_EXISTS can be put in front. */
  lemma RunCallsThrough(kind: RegType, isNew: bool, before: seq<Commit>, mid: seq<Commit>,
                        r: (EditState, Outcome, nat), env: Env)
    requires Fits(kind, r.0)
    requires CallsBetween(before, mid, [], env) && RunCalls(kind, isNew, mid, r, env)
    ensures RunCalls(kind, isNew, before, r, env)
  {
    CallsBetweenTrans(before, mid, r.0.calls, if r.1.Committed? then Calls(r.1.commit) else [], env);
  }

  /** The calls of a whole run, as RunCalls states them. */
  lemma {:induction false} EditRunCalls(kind: RegType, isNew: bool, s: EditState, keys: seq<Key>,
                                        at: nat, env: Env)
    requires Fits(kind, s) && at <= |keys|
    ensures RunCalls(kind, isNew, s.calls, EditRun(kind, isNew, s, keys, at, env), env)
    decreases |keys| - at
  {
    if at == |keys| {
      CallsEnd(s.calls, Unchanged, env);
    } else {
      var step := EditStep(kind, isNew, s, keys, at, env);
      EditRunUnfold(kind, isNew, s, keys, at, env, step.0, step.1, step.2);
      if step.1 == StillOpen {
        EditStepCalls(kind, isNew, s, keys, at, env);
        var rest := EditRun(kind, isNew, step.0, keys, step.2, env);
        EditRunCalls(kind, isNew, step.0, keys, step.2, env);
        RunCallsThrough(kind, isNew, s.calls, step.0.calls, rest, env);
      } else {
        LastStepCalls(kind, isNew, s, keys, at, env);
      }
    }
  }

  /** The calls of a pass that ends the dialog, as RunCalls states them. */
  lemma LastStepCalls(kind: RegType, isNew: bool, s: EditState, keys: seq<Key>, at: nat, env: Env)
    requires Fits(kind, s) && at < |keys|
    requires EditStep(kind, isNew, s, keys, at, env).1 != StillOpen
    ensures RunCalls(kind, isNew, s.calls, EditStep(kind, isNew, s, keys, at, env), env)
  {
    var step := EditStep(kind, isNew, s, keys, at, env);
    EditStepCalls(kind, isNew, s, keys, at, env);
    if step.1.Committed? {
      var c := step.1.commit;
      CallsEnd(s.calls, c, env);
      assert step.0.calls[..|step.0.calls| - |Calls(c)|] == s.calls;
      assert c == CommitFor(kind, isNew, step.0.name.buffer, step.0.data, ExistsAfter(env, s.calls), env.codec);
    } else {
      CallsEnd(s.calls, Unchanged, env);
    }
  }

  /** A last decision's call after the earlier ones. */
  lemma CallsEnd(before: seq<Commit>, c: Commit, env: Env)
    ensures var after := before + Calls(c);
            CallsBetween(before, after, Calls(c), env) && after[..|after| - |Calls(c)|] == before
  {
    var after := before + Calls(c);
    assert after[..|before|] == before;
    assert after[|after| - |Calls(c)|..] == Calls(c);
  }

  /** One step of the run, then the rest of the keys. */
  lemma EditRunUnfold(kind: RegType, isNew: bool, s: EditState, keys: seq<Key>, at: nat, env: Env,
                      next: EditState, outcome: Outcome, stop: nat)
    requires Fits(kind, s) && at < |keys|
    requires (next, outcome, stop) == EditStep(kind, isNew, s, keys, at, env)
    ensures EditRun(kind, isNew, s, keys, at, env) ==
            if outcome != StillOpen then (next, outcome, stop) else EditRun(kind, isNew, next, keys, stop, env)
  {
  }

  /** A key other than Tab and BackTab, with the focus on the menu, is a
      menu step followed by whatever the nested dialogs read. */
  lemma EditStepOnMenu(kind: RegType, isNew: bool, s: EditState, keys: seq<Key>, at: nat, env: Env)
    requires Fits(kind, s) && s.section == InMenu
    requires at < |keys| && keys[at] != Tab && keys[at] != BackTab
    ensures var m := MenuStep(kind, isNew, s, keys[at], keys[at + 1..], env);
            EditStep(kind, isNew, s, keys, at, env) == (m.0, m.1, at + 1 + m.2)
  {
  }

  /** A menu key's pass, given the menu step's answer: its state and
      outcome, after the keys the nested dialogs read. */
  lemma EditStepThroughMenu(kind: RegType, isNew: bool, s: EditState, keys: seq<Key>, at: nat, env: Env,
                            t: EditState, o: Outcome, u: nat)
    requires Fits(kind, s) && s.section == InMenu
    requires at < |keys| && keys[at] != Tab && keys[at] != BackTab
    requires (t, o, u) == MenuStep(kind, isNew, s, keys[at], keys[at + 1..], env)
    ensures EditStep(kind, isNew, s, keys, at, env) == (t, o, at + 1 + u)
  {
    EditStepOnMenu(kind, isNew, s, keys, at, env);
  }

  /** Tab, BackTab and a key for the focused widget each read one key. */
  lemma EditStepOffMenu(kind: RegType, isNew: bool, s: EditState, keys: seq<Key>, at: nat, env: Env)
    requires Fits(kind, s) && at < |keys|
    ensures keys[at] == Tab ==> EditStep(kind, isNew, s, keys, at, env) == (TabStep(kind, s, true), StillOpen, at + 1)
    ensures keys[at] == BackTab ==> EditStep(kind, isNew, s, keys, at, env) == (TabStep(kind, s, false), StillOpen, at + 1)
    ensures keys[at] != Tab && keys[at] != BackTab && s.section != InMenu ==>
              EditStep(kind, isNew, s, keys, at, env) == (WidgetStep(kind, isNew, s, keys[at], env), StillOpen, at + 1)
  {
  }

  /** "Ok" confirmed: set_value's call is recorded, and its decision ends
      the dialog, unless its answer is WERR_FILE_EXISTS, when the alert
      reads its keys. */
  lemma MenuStepOnOk(kind: RegType, isNew: bool, s: EditState, c: Key, rest: seq<Key>, env: Env)
    requires Fits(kind, s) && s.section == InMenu && s.menu.CurrentTag() == DIALOG_OK
    requires IsConfirm(c)
    ensures var commit := OkDecision(kind, isNew, s, env);
            var result := CommitResult(commit, env.regValSet);
            var called := s.(calls := s.calls + Calls(commit));
            MenuStep(kind, isNew, s, c, rest, env) ==
            if result != WerrFileExists then (called, Committed(commit, result), 0)
            else (called, StillOpen, if env.noticeBuilt then UntilConfirm(rest) else 0)
  {
    assert HandleMenuInput(s.menu, c) == (s.menu, DIALOG_OK);
    assert s.(menu := s.menu) == s;
  }

  /** The same, as one pass of the main loop. */
  lemma EditStepOnOk(kind: RegType, isNew: bool, s: EditState, keys: seq<Key>, at: nat, env: Env)
    requires Fits(kind, s) && s.section == InMenu && s.menu.CurrentTag() == DIALOG_OK
    requires at < |keys| && IsConfirm(keys[at])
    ensures var commit := OkDecision(kind, isNew, s, env);
            var result := CommitResult(commit, env.regValSet);
            var called := s.(calls := s.calls + Calls(commit));
            EditStep(kind, isNew, s, keys, at, env) ==
            if result != WerrFileExists then (called, Committed(commit, result), at + 1)
            else (called, StillOpen, at + 1 + if env.noticeBuilt then UntilConfirm(keys[at + 1..]) else 0)
  {
    EditStepOnMenu(kind, isNew, s, keys, at, env);
    MenuStepOnOk(kind, isNew, s, keys[at], keys[at + 1..], env);
  }

  /** "Cancel" confirmed on the menu ends the dialog at once. */
  lemma CancelEndsTheDialog(kind: RegType, isNew: bool, s: EditState, keys: seq<Key>, at: nat, env: Env)
    requires Fits(kind, s) && s.section == InMenu && s.menu.CurrentTag() == DIALOG_CANCEL
    requires at < |keys| && IsConfirm(keys[at])
    ensures EditRun(kind, isNew, s, keys, at, env) == (s, Cancelled, at + 1)
  {
  }

  /** "Ok" confirmed on the menu commits set_value's decision for the
      current fields, when its answer is not WERR_FILE_EXISTS. */
  lemma OkCommits(kind: RegType, isNew: bool, s: EditState, keys: seq<Key>, at: nat, env: Env)
    requires Fits(kind, s) && s.section == InMenu && s.menu.CurrentTag() == DIALOG_OK
    requires at < |keys| && IsConfirm(keys[at])
    requires CommitResult(OkDecision(kind, isNew, s, env), env.regValSet) != WerrFileExists
    ensures var commit := OkDecision(kind, isNew, s, env);
            EditRun(kind, isNew, s, keys, at, env) ==
            (s.(calls := s.calls + Calls(commit)), Committed(commit, CommitResult(commit, env.regValSet)), at + 1)
  {
    EditStepOnOk(kind, isNew, s, keys, at, env);
  }

  /** When set_value answers WERR_FILE_EXISTS, the alert reads keys up to
      its own confirmation and the dialog goes on with the same fields; a
      reg_val_set call that gave that answer stays recorded. */
  lemma OkAlerts(kind: RegType, isNew: bool, s: EditState, keys: seq<Key>, at: nat, env: Env)
    requires Fits(kind, s) && s.section == InMenu && s.menu.CurrentTag() == DIALOG_OK
    requires at < |keys| && IsConfirm(keys[at])
    requires CommitResult(OkDecision(kind, isNew, s, env), env.regValSet) == WerrFileExists
    ensures var alert := if env.noticeBuilt then UntilConfirm(keys[at + 1..]) else 0;
            var called := s.(calls := s.calls + Calls(OkDecision(kind, isNew, s, env)));
            at + 1 + alert <= |keys| &&
            EditRun(kind, isNew, s, keys, at, env) == EditRun(kind, isNew, called, keys, at + 1 + alert, env)
  {
    EditStepOnOk(kind, isNew, s, keys, at, env);
    var alert := if env.noticeBuilt then UntilConfirm(keys[at + 1..]) else 0;
    var called := s.(calls := s.calls + Calls(OkDecision(kind, isNew, s, env)));
    EditRunUnfold(kind, isNew, s, keys, at, env, called, StillOpen, at + 1 + alert);
  }

  // ---------------------------------------------------------------------
  // The dialog

  class EditDialog {
    /** The value's kind and whether it is a new value (vitem == NULL). */
    const kind: RegType
    const isNew: bool
    /** The name field as dialog_edit_value set it up. */
    ghost const initialName: Field

    var section: Section
    var name: Field
    var data: DataWidget
    var menu: Menu
    /** The reg_val_set calls set_value has made so far. */
    var calls: seq<Commit>

    /** The dialog's changing state as a value. */
    function State(): EditState
      reads this
    {
      EditState(section, name, data, menu, calls)
    }

    /** The menu is the edit dialog's choice menu; the data widget fits the
        kind; an existing value's name field, which is not editable, keeps
        its text; and outside the data section the data widget validates. */
    ghost predicate Valid()
      reads this
    {
      Fits(kind, State()) &&
      (!isNew ==> name == initialName) &&
      (section != InData ==> DataValid())
    }

    /** REQ_VALIDATION on the name field: it has no field type. */
    predicate NameValid()
      reads this
    {
      Validates(name, Untyped)
    }

    /** The data section's guard: the hex editor, or a validating field. */
    predicate DataValid()
      reads this
    {
      data.HexData? || Validates(data.field, DataFieldType(kind))
    }

    /** dialog_edit_value's setup: a new value starts with blank fields
        (eight zero bytes for REG_BINARY); an existing one shows its name,
        made read-only, and its data as fill_value_buffer renders it (a
        failure there is ignored and leaves the field blank). The focus is
        on the name. */
    constructor (t: RegType, existing: Option<(string, seq<byte>)>, codec: StringCodec)
      ensures kind == t && isNew == existing.None?
      ensures Valid()
      ensures State() == InitialState(t, existing, codec)
      ensures section == InName
      ensures name == (if existing.Some? then Field(existing.value.0, false) else Field("", false))
      ensures t == RegBinary ==>
                data == HexData(if existing.Some? then existing.value.1 else seq(8, _ => 0))
      ensures t != RegBinary && existing.None? ==> data == TextData(Field("", false))
      ensures t != RegBinary && existing.Some? ==>
                data == TextData(Field(match DisplayText(t, existing.value.1, codec)
                                       case FieldText(s) => s
                                       case _ => "", false))
      ensures menu.current == 0
    {
      kind := t;
      isNew := existing.None?;
      var tags := ChoiceTags(EditChoices(t));
      assert tags == Indices(|EditChoices(t)|);
      EditChoiceCountIs(t);
      menu := ChoiceMenu(tags);
      var nameField := Field("", false);
      var dataWidget: DataWidget;
      if t == RegBinary {
        dataWidget := HexData(if existing.Some? then existing.value.1 else seq(8, _ => 0));
      } else {
        dataWidget := TextData(Field("", false));
      }
      if existing.Some? {
        nameField := Field(existing.value.0, false);
        var shown := FillValueBuffer(t, existing.value.1, codec);
        if shown.FieldText? {
          dataWidget := TextData(Field(shown.text, false));
        }
        if t == RegDword {
          DwordTextMatchesPattern(existing.value.1, 0);
          assert DwordText(existing.value.1) + Blanks(0) == DwordText(existing.value.1);
        }
      }
      name := nameField;
      data := dataWidget;
      initialName := nameField;
      section := InName;
      calls := [];
    }

    /** section_down. Entering the menu puts it on its first item. */
    method SectionDown()
      requires Valid()
      modifies this
      ensures Valid()
      ensures State() == TabStep(kind, old(State()), true)
      ensures section == StepDown(old(section), old(NameValid()), old(DataValid()))
      ensures name == old(name) && data == old(data)
      ensures menu == if section == InMenu && old(section) != InMenu then old(menu).First() else old(menu)
    {
      match section {
        case InName =>
          if NameValid() {
            section := InData;
          }
        case InData =>
          if data.HexData? || Validates(data.field, DataFieldType(kind)) {
            section := InMenu;
            menu := menu.First();
          }
        case InMenu =>
          section := InName;
      }
    }

    /** section_up. Entering the menu puts it on its first item. */
    method SectionUp()
      requires Valid()
      modifies this
      ensures Valid()
      ensures State() == TabStep(kind, old(State()), false)
      ensures section == StepUp(old(section), old(NameValid()), old(DataValid()))
      ensures name == old(name) && data == old(data)
      ensures menu == if section == InMenu && old(section) != InMenu then old(menu).First() else old(menu)
    {
      match section {
        case InName =>
          if NameValid() {
            section := InMenu;
            menu := menu.First();
          }
        case InData =>
          if data.HexData? || Validates(data.field, DataFieldType(kind)) {
            section := InName;
          }
        case InMenu =>
          section := InData;
      }
    }

    /** The main loop of dialog_edit_value. Tab and BackTab move the focus;
        other keys go to the focused widget (the read-only name field of an
        existing value ignores them) or to the menu. "Ok" runs set_value,
        whose reg_val_set call (when it makes one) is recorded: a
        WERR_FILE_EXISTS answer (the name conflict, or the same code from
        reg_val_set) shows an alert and keeps the dialog open, anything else
        closes it with set_value's result. "Resize" asks for a length
        and resizes the hex buffer. "Cancel" closes it with WERR_OK. */
    method Run(keys: seq<Key>, env: Env) returns (outcome: Outcome, used: nat)
      requires Valid()
      modifies this
      ensures Valid()
      ensures (State(), outcome, used) == EditRun(kind, isNew, old(State()), keys, 0, env)
      ensures used <= |keys|
      ensures outcome == StillOpen ==> used == |keys|
      ensures outcome != StillOpen ==> 0 < used && IsConfirm(keys[used - 1]) && section == InMenu
      ensures CallsBetween(old(calls), calls, if outcome.Committed? then Calls(outcome.commit) else [], env)
      ensures outcome.Committed? ==>
                outcome.rv != WerrFileExists && outcome.commit != NameExists &&
                outcome.commit == CommitFor(kind, isNew, name.buffer, data,
                                            ExistsAfter(env, calls[..|calls| - |Calls(outcome.commit)|]),
                                            env.codec) &&
                outcome.rv == CommitResult(outcome.commit, env.regValSet)
    {
      ghost var s0 := State();
      outcome := StillOpen;
      used := 0;
      while outcome == StillOpen && used < |keys|
        invariant Valid() && Fits(kind, s0)
        invariant used <= |keys|
        invariant outcome == StillOpen ==>
                    EditRun(kind, isNew, s0, keys, 0, env) == EditRun(kind, isNew, State(), keys, used, env)
        invariant outcome != StillOpen ==> (State(), outcome, used) == EditRun(kind, isNew, s0, keys, 0, env)
      {
        ghost var s := State();
        ghost var at := used;
        outcome, used := HandleKey(keys, used, env);
        EditRunUnfold(kind, isNew, s, keys, at, env, State(), outcome, used);
      }
      EditRunCalls(kind, isNew, s0, keys, 0, env);
      assert RunCalls(kind, isNew, s0.calls, (State(), outcome, used), env);
    }

    /** One pass of the main loop: the key at index at goes to the focus
        movement, the menu or the focused widget; next is the index of the
        first key after it that a nested dialog did not read. */
    method HandleKey(keys: seq<Key>, at: nat, env: Env) returns (outcome: Outcome, next: nat)
      requires Valid() && at < |keys|
      modifies this
      ensures Valid()
      ensures (State(), outcome, next) == EditStep(kind, isNew, old(State()), keys, at, env)
    {
      ghost var s := State();
      EditStepOffMenu(kind, isNew, s, keys, at, env);
      var c := keys[at];
      if c == Tab {
        SectionDown();
        outcome, next := StillOpen, at + 1;
        assert Valid() && (State(), outcome, next) == EditStep(kind, isNew, s, keys, at, env);
      } else if c == BackTab {
        SectionUp();
        outcome, next := StillOpen, at + 1;
        assert Valid() && (State(), outcome, next) == EditStep(kind, isNew, s, keys, at, env);
      } else if section == InMenu {
        var u;
        outcome, u := MenuKey(c, keys[at + 1..], env);
        next := at + 1 + u;
        EditStepThroughMenu(kind, isNew, s, keys, at, env, State(), outcome, u);
        assert Valid() && (State(), outcome, next) == EditStep(kind, isNew, s, keys, at, env);
      } else {
        WidgetKey(c, env);
        outcome, next := StillOpen, at + 1;
        assert Valid() && (State(), outcome, next) == EditStep(kind, isNew, s, keys, at, env);
      }
    }

    /** A key for the focused name or data widget: the form driver gets
        handle_form_input's request for it, the hex editor
        handle_hexedit_input's. */
    method WidgetKey(c: Key, env: Env)
      requires Valid() && section != InMenu
      modifies this
      ensures Valid()
      ensures State() == WidgetStep(kind, isNew, old(State()), c, env)
      ensures section == old(section) && menu == old(menu)
      ensures section == InName ==>
                data == old(data) &&
                name == if isNew then env.formDrive(old(name), HandleFormInput(c)) else old(name)
      ensures section == InData ==>
                name == old(name) &&
                data == match old(data)
                        case HexData(bytes) => HexData(env.hexDrive(bytes, HandleHexeditInput(c)))
                        case TextData(f) => TextData(env.formDrive(f, HandleFormInput(c)))
    {
      if section == InName {
        if isNew {
          name := env.formDrive(name, HandleFormInput(c));
        }
      } else if data.HexData? {
        data := HexData(env.hexDrive(data.bytes, HandleHexeditInput(c)));
      } else {
        data := TextData(env.formDrive(data.field, HandleFormInput(c)));
      }
    }

    /** A key for the menu, and what the chosen action does; the nested
        alert and resize prompt read their keys from rest, and u says how
        many they took. */
    method MenuKey(c: Key, rest: seq<Key>, env: Env) returns (outcome: Outcome, u: nat)
      requires Valid() && section == InMenu
      modifies this
      ensures Valid() && section == InMenu
      ensures (State(), outcome, u) == MenuStep(kind, isNew, old(State()), c, rest, env)
      ensures menu == HandleMenuInput(old(menu), c).0 && name == old(name)
      ensures HandleMenuInput(old(menu), c).1 != DIALOG_RESIZE ==> data == old(data)
      ensures calls == old(calls) + if HandleMenuInput(old(menu), c).1 == DIALOG_OK
                                    then Calls(OkDecision(kind, isNew, old(State()), env)) else []
      ensures outcome == Cancelled <==> HandleMenuInput(old(menu), c).1 == DIALOG_CANCEL
      ensures outcome.Committed? <==>
                HandleMenuInput(old(menu), c).1 == DIALOG_OK &&
                CommitResult(OkDecision(kind, isNew, old(State()), env), env.regValSet) != WerrFileExists
      ensures outcome.Committed? ==>
                outcome.commit == OkDecision(kind, isNew, old(State()), env) &&
                outcome.rv == CommitResult(outcome.commit, env.regValSet)
    {
      outcome, u := StillOpen, 0;
      ChoiceMenuSelectsOnlyOnConfirm(menu, c);
      var r := HandleMenuInput(menu, c);
      MenuStepCalls(kind, isNew, State(), c, rest, env);
      menu := r.0;
      var selection := r.1;
      if selection == DIALOG_OK {
        var commit := SetValue(kind, isNew, name.buffer, data, ExistsAfter(env, calls), env.codec);
        calls := calls + Calls(commit);
        var result := CommitResult(commit, env.regValSet);
        if result == WerrFileExists {
          var _, used := DialogNotice(Alert, rest, env.noticeBuilt);
          u := used;
        } else {
          outcome := Committed(commit, result);
        }
      } else if selection == DIALOG_RESIZE {
        assert |menu.tags| == 3;
        var newlen;
        u, newlen := ResizeData(rest, env);
      } else if selection == DIALOG_CANCEL {
        outcome := Cancelled;
      }
    }

    /** The "Resize" action: ask for the new length with dialog_input and,
        when it answers Ok, resize the hex buffer to the length strtoul
        reads from the answer. Cancel, or a prompt that cannot be built,
        leaves the buffer as it was. */
    method ResizeData(rest: seq<Key>, env: Env) returns (u: nat, newlen: Option<nat>)
      requires Valid() && kind == RegBinary
      modifies this
      ensures Valid()
      ensures section == old(section) && menu == old(menu) && name == old(name) && calls == old(calls)
      ensures var (_, answer, used) := InputRun(rest, env.inputBuilt, env.formDrive);
              u == used && newlen == if answer.Text? then Some(Strtoul(answer.text, 10)) else None
      ensures data == if newlen.Some? then HexData(Resized(old(data).bytes, newlen.value)) else old(data)
    {
      var _, n, used := DialogInput(rest, env.inputBuilt, env.formDrive);
      u, newlen := used, None;
      if n.Text? {
        newlen := Some(Strtoul(n.text, 10));
        data := HexData(Resized(data.bytes, newlen.value));
      }
    }
  }

  /** dialog_edit_value: when the dialog cannot be set up (built is false)
      the answer is WERR_NOMEM; otherwise the main loop's outcome from the
      initial state decides it: Cancel answers WERR_OK, a commit answers
      set_value's result, and None means the dialog is still open when the
      keys run out. calls lists what reg_val_set received: every call but a
      commit's own answered WERR_FILE_EXISTS, so a dialog that is cancelled
      has written only values whose write answered that code. */
  method DialogEditValue(t: RegType, existing: Option<(string, seq<byte>)>, keys: seq<Key>,
                         env: Env, built: bool)
    returns (rv: Option<WError>, commit: Option<Commit>, calls: seq<Commit>)
    ensures !built ==> rv == Some(WerrNomem) && commit.None? && calls == []
    ensures built ==>
              var r := EditRun(t, existing.None?, InitialState(t, existing, env.codec), keys, 0, env);
              calls == r.0.calls &&
              (r.1 == StillOpen ==> rv.None? && commit.None?) &&
              (r.1 == Cancelled ==> rv == Some(WerrOk) && commit.None?) &&
              (r.1.Committed? ==> rv == Some(r.1.rv) && commit == Some(r.1.commit))
    ensures CallsBetween([], calls, if commit.Some? then Calls(commit.value) else [], env)
    ensures commit.Some? ==> commit.value != NameExists && rv == Some(CommitResult(commit.value, env.regValSet))
    ensures rv != Some(WerrFileExists)
    ensures rv.Some? && commit.None? ==> rv == Some(WerrOk) || rv == Some(WerrNomem)
    ensures existing.Some? && commit.Some? && commit.value.Store? ==>
              commit.value.name == Trim(existing.value.0) && commit.value.kind == t
  {
    if !built {
      return Some(WerrNomem), None, [];
    }
    var edit := new EditDialog(t, existing, env.codec);
    var outcome, _ := edit.Run(keys, env);
    calls := edit.calls;
    match outcome {
      case StillOpen => rv, commit := None, None;
      case Cancelled => rv, commit := Some(WerrOk), None;
      case Committed(c, r) =>
        CommitStoresUnderTrimmedName(t, edit.isNew, edit.name.buffer, edit.data,
                                     ExistsAfter(env, calls[..|calls| - |Calls(c)|]), env.codec);
        rv, commit := Some(r), Some(c);
    }
  }

  // ---------------------------------------------------------------------
  // What a committed edit stores

  /** A REG_DWORD committed after its field was edited stores four bytes
      that read back as the value the field's pattern gives its text, or as
      0 for a blank field: the dialog cannot leave the data field while the
      text is neither blank nor matches the pattern. */
  lemma CommittedDwordMatchesPattern(isNew: bool, nameBuf: string, f: Field,
                                     exists_: string -> bool, codec: StringCodec)
    requires Validates(f, DataFieldType(RegDword))
    requires CommitFor(RegDword, isNew, nameBuf, TextData(f), exists_, codec).Store?
    ensures var c := CommitFor(RegDword, isNew, nameBuf, TextData(f), exists_, codec);
            |c.blob| == 4 &&
            DwordOf(c.blob) == if Trim(f.buffer) == "" then 0 else PatternValue(f.buffer)
  {
    if Trim(f.buffer) == "" {
      BlankParsesAsZero(f.buffer);
      DwordBytesRead(f.buffer);
    } else {
      DwordCommitDecodes(isNew, nameBuf, f, exists_, codec);
    }
  }
}
