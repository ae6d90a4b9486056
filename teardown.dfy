/** The destructors of regedit_dialog.c: dialog_free (every dialog),
    edit_dialog_free (the edit dialog) and the clean-up at the end of
    dialog_input. Each is modelled as the sequence of library release calls
    it makes for a given set of handles, a handle being present when its
    pointer is not NULL. */
module Teardown {
  import opened RegTypes

  /** The windows the dialogs create. */
  datatype Win = MainWindow | SubWindow | InputWindow

  /** One release call into curses. */
  datatype Release =
    | DelWin(win: Win, present: bool)  // delwin; present is false for delwin(NULL)
    | DelPanel
    | UnpostMenu
    | FreeMenu
    | FreeItem(index: nat)
    | UnpostForm
    | FreeForm
    | FreeField(index: nat)

  /** struct dialog's handles: window, sub_window, panel, the choices menu,
      and the NULL-terminated choice_items array (None when the array itself
      was never allocated; each slot an item or NULL). */
  datatype DialogHandles = DialogHandles(
    window: bool, subWindow: bool, panel: bool, choices: bool,
    items: Option<seq<bool>>)

  /** The items before the first NULL slot. */
  function LeadingItems(slots: seq<bool>): (n: nat)
    ensures n <= |slots|
    ensures forall i :: 0 <= i < n ==> slots[i]
    ensures n < |slots| ==> !slots[n]
  {
    if |slots| == 0 || !slots[0] then 0 else 1 + LeadingItems(slots[1..])
  }

  function FreeItems(n: nat): (calls: seq<Release>)
    ensures |calls| == n
    ensures forall i :: 0 <= i < n ==> calls[i] == FreeItem(i)
  {
    if n == 0 then [] else FreeItems(n - 1) + [FreeItem(n - 1)]
  }

  function When(c: bool, calls: seq<Release>): seq<Release> {
    if c then calls else []
  }

  /** What dialog_free releases before the items: the window, then the
      sub-window, then the panel, then the menu (unposted, then freed). */
  function HandleCalls(h: DialogHandles): seq<Release> {
    When(h.window, [DelWin(MainWindow, true)]) +
    When(h.subWindow, [DelWin(SubWindow, true)]) +
    When(h.panel, [DelPanel]) +
    When(h.choices, [UnpostMenu, FreeMenu])
  }

  /** dialog_free's calls: the handles, then every item up to the first
      NULL slot. */
  function DialogFreeCalls(h: DialogHandles): seq<Release> {
    HandleCalls(h) +
    (match h.items
     case None => []
     case Some(slots) => FreeItems(LeadingItems(slots)))
  }

  /** dialog_free, step by step. */
  method DialogFree(h: DialogHandles) returns (calls: seq<Release>)
    ensures calls == DialogFreeCalls(h)
  {
    calls := ReleaseHandles(h);
    ghost var head := calls;
    if h.items.Some? {
      var slots := h.items.value;
      var i := 0;
      ghost var n := LeadingItems(slots);
      while i < |slots| && slots[i]
        invariant i <= n
        invariant calls == head + FreeItems(i)
        decreases |slots| - i
      {
        assert i < n;
        calls := calls + [FreeItem(i)];
        i := i + 1;
      }
      assert i == n;
    }
  }

  /** The handle releases of dialog_free, each guarded by its NULL check. */
  method ReleaseHandles(h: DialogHandles) returns (calls: seq<Release>)
    ensures calls == HandleCalls(h)
  {
    calls := [];
    if h.window {
      calls := calls + [DelWin(MainWindow, true)];
    }
    if h.subWindow {
      calls := calls + [DelWin(SubWindow, true)];
    }
    if h.panel {
      calls := calls + [DelPanel];
    }
    if h.choices {
      calls := calls + [UnpostMenu, FreeMenu];
    }
  }

  /** A choice_items array as dialog_choice_new leaves it, even when it
      stops half-way: zero-filled, the items it did create at the front. */
  predicate FilledFromFront(slots: seq<bool>) {
    forall i, j :: 0 <= i < j < |slots| && slots[j] ==> slots[i]
  }

  lemma {:induction false} FrontItemsAreLeading(slots: seq<bool>, k: nat)
    requires FilledFromFront(slots)
    ensures k < LeadingItems(slots) <==> k < |slots| && slots[k]
    decreases |slots|
  {
    if |slots| > 0 && slots[0] && k > 0 {
      var rest := slots[1..];
      assert FilledFromFront(rest) by {
        forall i, j | 0 <= i < j < |rest| && rest[j]
          ensures rest[i]
        {
          assert slots[j + 1] && slots[i + 1] == rest[i];
        }
      }
      FrontItemsAreLeading(rest, k - 1);
    }
  }

  lemma FreedItems(n: nat, k: nat)
    ensures FreeItem(k) in FreeItems(n) <==> k < n
  {
    if k < n {
      assert FreeItems(n)[k] == FreeItem(k);
    }
  }

  /** dialog_free frees exactly the items that were created, each once,
      and it frees the menu before any item, as curses requires. */
  lemma DialogFreeFreesCreatedItems(h: DialogHandles, k: nat)
    requires h.items.Some? && FilledFromFront(h.items.value)
    ensures FreeItem(k) in DialogFreeCalls(h) <==> k < |h.items.value| && h.items.value[k]
    ensures h.choices ==> forall i :: |HandleCalls(h)| <= i < |DialogFreeCalls(h)| ==>
                            DialogFreeCalls(h)[i].FreeItem? && FreeMenu in DialogFreeCalls(h)[..i]
  {
    var n := LeadingItems(h.items.value);
    var head := HandleCalls(h);
    var calls := DialogFreeCalls(h);
    assert calls == head + FreeItems(n);
    FrontItemsAreLeading(h.items.value, k);
    FreedItems(n, k);
    assert FreeItem(k) !in head;
    if h.choices {
      forall i | |head| <= i < |calls|
        ensures calls[i].FreeItem? && FreeMenu in calls[..i]
      {
        assert calls[i] == FreeItems(n)[i - |head|];
        assert calls[..i][|head| - 1] == FreeMenu;
      }
    }
  }

  /** dialog_free deletes the dialog's window before its sub-window, a
      window derived from it. */
  lemma DialogFreeDeletesParentFirst(h: DialogHandles)
    requires h.window && h.subWindow
    ensures DialogFreeCalls(h)[0] == DelWin(MainWindow, true)
    ensures DialogFreeCalls(h)[1] == DelWin(SubWindow, true)
  {
  }

  /** struct edit_dialog's handles that edit_dialog_free looks at. */
  datatype EditHandles = EditHandles(form: bool, nameField: bool, dataField: bool, inputWin: bool)

  /** edit_dialog_free's calls: unpost the form, free the fields, and
      delete the input window whether it exists or not. */
  function EditFreeCalls(e: EditHandles): seq<Release> {
    When(e.form, [UnpostForm]) +
    When(e.nameField, [FreeField(0)]) +
    When(e.dataField, [FreeField(1)]) +
    [DelWin(InputWindow, e.inputWin)]
  }

  method EditDialogFree(e: EditHandles) returns (calls: seq<Release>)
    ensures calls == EditFreeCalls(e)
  {
    calls := [];
    if e.form {
      calls := calls + [UnpostForm];
    }
    if e.nameField {
      calls := calls + [FreeField(0)];
    }
    if e.dataField {
      calls := calls + [FreeField(1)];
    }
    calls := calls + [DelWin(InputWindow, e.inputWin)];
  }

  /** The clean-up at the end of dialog_input: unpost and free the form,
      free the field, delete the input window, each when present. */
  function InputFreeCalls(form: bool, field: bool, inputWin: bool): seq<Release> {
    When(form, [UnpostForm, FreeForm]) + When(field, [FreeField(0)]) +
    When(inputWin, [DelWin(InputWindow, true)])
  }

  /** The two form clean-ups differ: dialog_input frees its form before
      its field, edit_dialog_free never frees its form, and it always calls
      delwin on the input window, even when that is NULL. */
  lemma EditFreeLeavesFormAllocated(e: EditHandles)
    ensures FreeForm !in EditFreeCalls(e)
    ensures e.form ==> FreeForm in InputFreeCalls(e.form, e.nameField, e.inputWin)
    ensures DelWin(InputWindow, e.inputWin) in EditFreeCalls(e)
    ensures !e.inputWin ==> DelWin(InputWindow, false) in EditFreeCalls(e) &&
                             DelWin(InputWindow, false) !in InputFreeCalls(e.form, e.nameField, e.inputWin)
  {
    var calls := EditFreeCalls(e);
    assert calls[|calls| - 1] == DelWin(InputWindow, e.inputWin);
  }
}
