/** The choice menus of regedit_dialog.c: dialog_choice_new stores each
    item's index as its user pointer, and handle_menu_input turns a key
    into either "no selection yet" (-1) or the current item's tag. */
module Menus {
  import opened RegTypes

  /** handle_menu_input's "nothing selected yet". */
  const NO_SELECTION: int := -1

  /** An ncurses MENU reduced to what the dialogs read: the tag stored with
      each item (item_userptr), in item order, and the current item. */
  datatype Menu = Menu(tags: seq<int>, current: nat) {
    predicate Valid() {
      0 < |tags| && current < |tags|
    }

    function CurrentTag(): int
      requires Valid()
    {
      tags[current]
    }

    /** REQ_FIRST_ITEM. */
    function First(): (m: Menu)
      requires Valid()
      ensures m.Valid() && m.tags == tags && m.current == 0
    {
      this.(current := 0)
    }

    /** REQ_LEFT_ITEM (and REQ_UP_ITEM in a one-column menu): the item
        before the current one; at the first item the request is refused. */
    function Prev(): (m: Menu)
      requires Valid()
      ensures m.Valid() && m.tags == tags
    {
      if current > 0 then this.(current := current - 1) else this
    }

    /** REQ_RIGHT_ITEM (and REQ_DOWN_ITEM in a one-column menu): the item
        after the current one; at the last item the request is refused. */
    function Next(): (m: Menu)
      requires Valid()
      ensures m.Valid() && m.tags == tags
    {
      if current + 1 < |tags| then this.(current := current + 1) else this
    }
  }

  /** Every item's tag is its position, as dialog_choice_new stores it. */
  predicate IndexTags(tags: seq<int>) {
    forall i :: 0 <= i < |tags| ==> tags[i] == i
  }

  /** The tags dialog_choice_new gives a NULL-terminated choice list: it
      counts the labels, then sets each item's user pointer to its index. */
  method ChoiceTags(labels: seq<string>) returns (tags: seq<int>)
    ensures |tags| == |labels|
    ensures IndexTags(tags)
  {
    var nchoices := 0;
    while nchoices < |labels|
      invariant nchoices <= |labels|
    {
      nchoices := nchoices + 1;
    }
    tags := [];
    var i := 0;
    while i < nchoices
      invariant i <= nchoices && |tags| == i
      invariant forall j :: 0 <= j < i ==> tags[j] == j
    {
      tags := tags + [i];
      i := i + 1;
    }
  }

  /** The tags dialog_choice_new gives n labels: 0, 1, ..., n - 1. */
  function Indices(n: nat): (tags: seq<int>)
    ensures |tags| == n && IndexTags(tags)
  {
    seq(n, i => i)
  }

  /** A freshly built choice menu; ncurses makes the first item current. */
  function ChoiceMenu(tags: seq<int>): (m: Menu)
    requires |tags| > 0
    ensures m.Valid()
  {
    Menu(tags, 0)
  }

  /** handle_menu_input: Left and Right move the current item; KEY_ENTER and
      '\n' answer the current item's tag; every key answers -1 except those
      two. */
  function HandleMenuInput(m: Menu, k: Key): (r: (Menu, int))
    requires m.Valid()
    ensures r.0.Valid() && r.0.tags == m.tags
    ensures IsConfirm(k) ==> r.1 == m.CurrentTag()
    ensures !IsConfirm(k) ==> r.1 == NO_SELECTION
  {
    match k
    case Left => (m.Prev(), NO_SELECTION)
    case Right => (m.Next(), NO_SELECTION)
    case Enter => (m, m.CurrentTag())
    case Newline => (m, m.CurrentTag())
    case _ => (m, NO_SELECTION)
  }

  /** On a menu built by dialog_choice_new, a key selects something exactly
      when it is Enter, and what it selects is an item index. */
  lemma ChoiceMenuSelectsOnlyOnConfirm(m: Menu, k: Key)
    requires m.Valid() && IndexTags(m.tags)
    ensures HandleMenuInput(m, k).1 != NO_SELECTION <==> IsConfirm(k)
    ensures IsConfirm(k) ==> 0 <= HandleMenuInput(m, k).1 < |m.tags|
  {
  }

  /** The menu after the keys have been fed to handle_menu_input in order. */
  function AfterKeys(m: Menu, keys: seq<Key>): (r: Menu)
    requires m.Valid()
    ensures r.Valid() && r.tags == m.tags
    decreases |keys|
  {
    if |keys| == 0 then m
    else HandleMenuInput(AfterKeys(m, keys[..|keys| - 1]), keys[|keys| - 1]).0
  }

  /** Only the confirming keys ever resolve a menu: along a sequence of other
      keys every step answers -1, whatever the tags. */
  lemma {:induction false} NoConfirmNoSelection(m: Menu, keys: seq<Key>, j: nat)
    requires m.Valid()
    requires forall i :: 0 <= i < |keys| ==> !IsConfirm(keys[i])
    requires j < |keys|
    ensures HandleMenuInput(AfterKeys(m, keys[..j]), keys[j]).1 == NO_SELECTION
  {
  }
}
