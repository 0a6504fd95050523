/** `AuthenticatorListBox`: the owner-drawn list of authenticators. The
    list, the selection, the drag state and each row's reveal and unlock
    state are updated in place by the event handlers and the context-menu
    actions. Inputs the handlers get from Windows (the item under the
    mouse, whether the mouse is over the refresh icon, what a dialog
    returns, the current code, the time) are parameters. */
module AuthenticatorList {
  import opened Wrappers
  import opened Forms
  import opened HotKeys
  import opened ListItems
  import opened Reorder
  import opened ListDisplay
  import IconMenu

  datatype Point = Point(x: int, y: int)

  /** `Point.Empty`, which the list box also uses for "no mouse-down
      recorded"; a press at (0, 0) therefore records nothing. */
  const EmptyPoint: Point := Point(0, 0)

  datatype MouseButton = LeftButton | RightButton | MiddleButton | XButton1 | XButton2

  /** `DragAction` as `OnQueryContinueDrag` sets it. */
  datatype DragAction = ContinueDrag | CancelDrag

  /** The smallest time between two auto-scroll steps while dragging. */
  const ScrollMillis: int := 150

  /** The distance, on either axis, a pressed mouse must move to start a drag. */
  const DragThreshold: int := 2

  function Abs(x: int): int {
    if x < 0 then -x else x
  }

  /** The mouse has moved far enough from where it was pressed to start a drag. */
  predicate MovedEnough(down: Point, at: Point) {
    Abs(down.x - at.x) > DragThreshold || Abs(down.y - at.y) > DragThreshold
  }

  /** Enough time has passed since the last auto-scroll step; `None` is
      "never" (`DateTime.MinValue`). */
  predicate ScrollDue(last: Option<int>, now: int) {
    last.None? || now - last.value >= ScrollMillis
  }

  /** The largest top index auto-scroll goes to:
      `Math.Max(Items.Count - visible + 1, 0)`. */
  function MaxTopIndex(count: int, visible: int): (m: int)
    ensures m >= 0 && m >= count - visible + 1
    ensures m == 0 || m == count - visible + 1
  {
    if count - visible + 1 > 0 then count - visible + 1 else 0
  }

  /** The top index after one `OnQueryContinueDrag` that did not cancel. At
      or below the bottom edge it moves down one row, at or above the top
      edge up one row, each only when the rate limit allows and the bound is
      not reached. */
  function AutoScroll(topIndex: int, count: int, visible: int, mouseY: int, top: int, bottom: int,
                      last: Option<int>, now: int): (r: int)
    ensures topIndex - 1 <= r <= topIndex + 1
    ensures r != topIndex ==> ScrollDue(last, now)
    ensures r > topIndex ==> mouseY >= bottom && r <= MaxTopIndex(count, visible)
    ensures r < topIndex ==> mouseY < bottom && mouseY <= top && r >= 0
    ensures 0 <= topIndex <= MaxTopIndex(count, visible) ==> 0 <= r <= MaxTopIndex(count, visible)
  {
    if mouseY >= bottom then
      if topIndex < MaxTopIndex(count, visible) && ScrollDue(last, now) then topIndex + 1 else topIndex
    else if mouseY <= top then
      if topIndex > 0 && ScrollDue(last, now) then topIndex - 1 else topIndex
    else topIndex
  }

  /** Where a drop lands: the item under the mouse, or the last position
      when there is none. */
  function DropIndex(hit: int, count: int): (to: int)
    ensures hit < 0 ==> to == count - 1
    ensures hit >= 0 ==> to == hit
  {
    if hit < 0 then count - 1 else hit
  }

  /** A row of a manual item shows the refresh icon (no code is on show). */
  predicate RevealPending(s: ItemState, now: int) {
    !s.auth.autoRefresh && (s.displayUntil.None? || s.displayUntil.value < now)
  }

  class ListBox {
    var items: seq<ListItem>
    /** `_currentItem`. */
    var current: ListItem?
    var topIndex: int
    /** `_mouseDownLocation`. */
    var mouseDownLocation: Point
    /** `_draggedItem`. */
    var draggedItem: ListItem?
    /** `_lastDragScroll`; `None` is `DateTime.MinValue`. */
    var lastDragScroll: Option<int>
    /** `_lastDragTopIndex`. */
    var lastDragTopIndex: Option<int>
    /** How many `Reordered` events have fired. */
    var reorderedEvents: nat
    /** The items passed to `ItemRemoved` events, in order. */
    var removedItems: seq<ListItem>
    /** The code argument of each `CopyCodeToClipboard` call, in order;
        `None` when the call passes no code. */
    var copies: seq<Option<string>>
    /** How many times `Sync()` was called. */
    var syncCalls: nat

    /** No item is in the list twice. */
    predicate Distinct()
      reads this
    {
      DistinctSeq(items)
    }

    predicate Valid()
      reads this
    {
      Distinct() && (current == null || current in items)
    }

    /** Every item's `Index` is its position in the list. */
    predicate Indexed()
      reads this, items
    {
      forall i :: 0 <= i < |items| ==> items[i].index == i
    }

    /** What the `CurrentItem` getter returns: the current item, or the
        first item when none is current. */
    function Selected(): (r: ListItem?)
      reads this
      ensures Valid() ==> (r == null <==> |items| == 0) && (r != null ==> r in items)
    {
      if current == null && |items| > 0 then items[0] else current
    }

    constructor ()
      ensures items == [] && current == null && topIndex == 0 && mouseDownLocation == EmptyPoint
      ensures draggedItem == null && lastDragScroll == None && lastDragTopIndex == None
      ensures reorderedEvents == 0 && removedItems == [] && copies == [] && syncCalls == 0
    {
      items := [];
      current := null;
      topIndex := 0;
      mouseDownLocation := EmptyPoint;
      draggedItem := null;
      lastDragScroll := None;
      lastDragTopIndex := None;
      reorderedEvents := 0;
      removedItems := [];
      copies := [];
      syncCalls := 0;
    }

    /** The `CurrentItem` getter, which makes the first item current when
        none is. */
    method GetCurrentItem() returns (item: ListItem?)
      modifies this`current
      ensures item == old(Selected()) && current == item
    {
      if current == null && |items| != 0 {
        current := items[0];
      }
      item := current;
    }

    /** `SetCurrentItem`: the item under the mouse (`hit`, from
        `IndexFromPoint`) becomes current, clamped into the list; an empty
        list has none. */
    method SetCurrentItem(hit: int)
      requires |items| > 0 || hit < 0
      modifies this`current
      ensures |items| == 0 ==> current == null
      ensures |items| > 0 ==> current == items[if hit < 0 then 0 else if hit >= |items| then |items| - 1 else hit]
    {
      var index := hit;
      if index < 0 {
        index := 0;
      } else if index >= |items| {
        index := |items| - 1;
      }
      if index >= |items| {
        current := null;
      } else {
        current := items[index];
      }
    }

    /** `OnMouseDown`: select the item under the mouse and record where the
        press happened. */
    method MouseDown(location: Point, hit: int)
      requires |items| > 0 || hit < 0
      modifies this`current, this`mouseDownLocation
      ensures |items| == 0 ==> current == null
      ensures |items| > 0 ==> current == items[if hit < 0 then 0 else if hit >= |items| then |items| - 1 else hit]
      ensures mouseDownLocation == location
    {
      SetCurrentItem(hit);
      mouseDownLocation := location;
    }

    /** `OnMouseUp`. A left-button release over the refresh icon of a manual
        item that shows no code unlocks it and, unless the password prompt
        was cancelled, reveals the code for ten seconds (copying it when
        copy-on-code is set). A cancelled prompt returns at once, so the
        drag state is kept; every other release clears it. */
    method MouseUp(buttons: set<MouseButton>, hit: int, inRefreshIcon: bool, prompt: DialogResult,
                   code: string, now: int)
      modifies this`mouseDownLocation, this`draggedItem, this`copies
      modifies if 0 <= hit < |items| then {items[hit]} else {}
      ensures var clicked := LeftButton in buttons && 0 <= hit < |items| && inRefreshIcon
                            && RevealPending(old(items[hit].State()), now);
              var cancelled := clicked && UnprotectResult(old(items[hit].State()), prompt) == Cancel;
              (clicked ==> items[hit].State() == ClickedRefresh(old(items[hit].State()), prompt, code, now))
              && (cancelled ==> mouseDownLocation == old(mouseDownLocation) && draggedItem == old(draggedItem))
              && (!cancelled ==> mouseDownLocation == EmptyPoint && draggedItem == null)
              && copies == old(copies) + (if clicked && !cancelled && items[hit].auth.copyOnCode then [None] else [])
    {
      if LeftButton in buttons && 0 <= hit < |items| {
        var item := items[hit];
        if !item.auth.autoRefresh && (item.displayUntil.None? || item.displayUntil.value < now) && inRefreshIcon {
          var r := item.Unprotect(prompt);
          if r == Cancel {
            return;
          }
          item.Reveal(code, now);
          if item.auth.copyOnCode {
            copies := copies + [None];
          }
        }
      }
      mouseDownLocation := EmptyPoint;
      draggedItem := null;
    }

    /** `OnMouseMove`: with exactly the left button held, a recorded press,
        more than one item and a move of more than 2 pixels on either axis,
        the current item becomes the dragged item and is marked as dragging
        (the operating system's drag loop then runs `QueryContinueDrag` and
        `DragDrop`). */
    method MouseMove(buttons: set<MouseButton>, location: Point) returns (started: bool)
      requires Valid()
      modifies this`current, this`draggedItem, Selected()
      ensures started <==> buttons == {LeftButton} && mouseDownLocation != EmptyPoint && |items| > 1
                           && MovedEnough(mouseDownLocation, location)
      ensures started ==> draggedItem == old(Selected()) && current == draggedItem && draggedItem.dragging
                          && draggedItem.State() == old(Selected().State()).(dragging := true)
      ensures !started ==> current == old(current) && draggedItem == old(draggedItem)
                           && (Selected() != null ==> Selected().State() == old(Selected().State()))
    {
      started := false;
      if buttons == {LeftButton} && mouseDownLocation != EmptyPoint && |items| > 1 {
        if MovedEnough(mouseDownLocation, location) {
          var item := GetCurrentItem();
          draggedItem := item;
          item.dragging := true;
          started := true;
        }
      }
    }

    /** `OnQueryContinueDrag`. Escape, or the left button released
        (`KeyState & 1 == 0`) outside the control, cancels the drag: the
        dragged item stops dragging and the drag state is cleared, and the
        list is not touched. Otherwise the list auto-scrolls by at most one
        row, rate-limited, and the top index is remembered for the drop. */
    method QueryContinueDrag(escape: bool, keyState: bv32, inside: bool, mouseY: int, top: int,
                             bottom: int, clientHeight: nat, itemHeight: int, now: int)
      returns (action: DragAction)
      requires itemHeight > 0
      modifies this`draggedItem, this`mouseDownLocation, this`topIndex, this`lastDragScroll,
               this`lastDragTopIndex, draggedItem
      ensures action == CancelDrag <==> escape || (keyState & 1 == 0 && !inside)
      ensures action == CancelDrag ==>
                draggedItem == null && mouseDownLocation == EmptyPoint && topIndex == old(topIndex)
                && lastDragScroll == old(lastDragScroll) && lastDragTopIndex == old(lastDragTopIndex)
                && (old(draggedItem) != null ==> old(draggedItem).State() == old(draggedItem.State()).(dragging := false))
      ensures action == ContinueDrag ==>
                topIndex == AutoScroll(old(topIndex), |items|, clientHeight / itemHeight, mouseY, top, bottom,
                                       old(lastDragScroll), now)
                && lastDragScroll == (if topIndex != old(topIndex) then Some(now) else old(lastDragScroll))
                && lastDragTopIndex == Some(topIndex)
                && draggedItem == old(draggedItem) && mouseDownLocation == old(mouseDownLocation)
                && (draggedItem != null ==> draggedItem.State() == old(draggedItem.State()))
    {
      if escape || (keyState & 1 == 0 && !inside) {
        action := CancelDrag;
        if draggedItem != null {
          draggedItem.dragging := false;
          draggedItem := null;
        }
        mouseDownLocation := EmptyPoint;
      } else {
        action := ContinueDrag;
        if mouseY >= bottom {
          var visible := clientHeight / itemHeight;
          var maxTopIndex := if |items| - visible + 1 > 0 then |items| - visible + 1 else 0;
          if topIndex < maxTopIndex && (lastDragScroll.None? || now - lastDragScroll.value >= ScrollMillis) {
            topIndex := topIndex + 1;
            lastDragScroll := Some(now);
          }
        } else if mouseY <= top {
          if topIndex > 0 && (lastDragScroll.None? || now - lastDragScroll.value >= ScrollMillis) {
            topIndex := topIndex - 1;
            lastDragScroll := Some(now);
          }
        }
        lastDragTopIndex := Some(topIndex);
      }
    }

    /** The reindex loop after a drop or a delete: every item's `Index`
        becomes its position, and nothing else changes. */
    method Reindex()
      requires Distinct()
      modifies items
      ensures Indexed()
      ensures forall k :: 0 <= k < |items| ==> items[k].State() == old(items[k].State()).(index := k)
    {
      var i := 0;
      while i < |items|
        invariant 0 <= i <= |items|
        invariant forall k :: 0 <= k < i ==> items[k].State() == old(items[k].State()).(index := k)
        invariant forall k :: i <= k < |items| ==> items[k].State() == old(items[k].State())
      {
        items[i].index := i;
        i := i + 1;
      }
    }

    /** The reordering part of `OnDragDrop`: the item is removed and
        inserted at `to`, then the list is reindexed. */
    method MoveItem(item: ListItem, to: int)
      requires Distinct() && item in items && 0 <= to < |items|
      modifies this`items, items
      ensures Distinct() && Indexed() && |items| == |old(items)| && items[to] == item
      ensures forall from :: 0 <= from < |old(items)| && old(items)[from] == item ==>
                items == Moved(old(items), from, to)
      ensures forall x :: x in items <==> x in old(items)
      ensures forall x :: x in old(items) ==> x.State() == old(x.State()).(index := x.index)
    {
      var from := IndexOf(items, item);
      MovedKeepsItems(items, from, to);
      items := Moved(items, from, to);
      Reindex();
      forall x | x in old(items)
        ensures x.State() == old(x.State()).(index := x.index)
      {
        assert x in items;
      }
    }

    /** The part of `OnDragDrop` that handles a dropped list item: it is
        moved to row `to`, the list is reindexed, one `Reordered` event
        fires, the item stops dragging and the top index of the last
        auto-scroll is restored. */
    method DropItem(item: ListItem, to: int)
      requires Valid() && item in items && 0 <= to < |items|
      modifies this`items, this`draggedItem, this`reorderedEvents, this`topIndex, items
      ensures |items| == |old(items)| && Valid() && Indexed()
      ensures forall from :: 0 <= from < |old(items)| && old(items)[from] == item ==>
                items == Moved(old(items), from, to)
      ensures items[to] == item && !item.dragging && draggedItem == null
      ensures reorderedEvents == old(reorderedEvents) + 1
      ensures topIndex == (if lastDragTopIndex.Some? then lastDragTopIndex.value else old(topIndex))
      ensures forall x :: x in old(items) && x != item ==> x.State() == old(x.State()).(index := x.index)
    {
      MoveItem(item, to);
      reorderedEvents := reorderedEvents + 1;
      item.SetDragging(false);
      draggedItem := null;
      if lastDragTopIndex.Some? {
        topIndex := lastDragTopIndex.value;
      }
    }

    /** `OnDragDrop`. A dropped list item goes to the row under the mouse,
        or to the last row when there is none; a drop of anything else is
        passed on and changes nothing. */
    method DragDrop(dropped: ListItem?, hit: int)
      requires Valid()
      requires dropped != null ==> dropped in items && hit < |items|
      modifies this`items, this`draggedItem, this`reorderedEvents, this`topIndex, items
      ensures dropped == null ==> items == old(items) && draggedItem == old(draggedItem)
                                  && reorderedEvents == old(reorderedEvents) && topIndex == old(topIndex)
                                  && forall k :: 0 <= k < |items| ==> items[k].State() == old(items[k].State())
      ensures dropped != null ==> |items| == |old(items)| && Valid() && Indexed()
      ensures dropped != null ==>
                forall from :: 0 <= from < |old(items)| && old(items)[from] == dropped ==>
                  items == Moved(old(items), from, DropIndex(hit, |old(items)|))
      ensures dropped != null ==> items[DropIndex(hit, |old(items)|)] == dropped
      ensures dropped != null ==> !dropped.dragging && draggedItem == null
      ensures dropped != null ==> reorderedEvents == old(reorderedEvents) + 1
      ensures dropped != null ==> topIndex == (if lastDragTopIndex.Some? then lastDragTopIndex.value else old(topIndex))
      ensures dropped != null ==>
                forall x :: x in old(items) && x != dropped ==> x.State() == old(x.State()).(index := x.index)
    {
      if dropped != null {
        DropItem(dropped, DropIndex(hit, |items|));
      }
    }

    /** The "Delete" menu action, after the confirmation dialog. On Yes the
        current item is removed and reported, the item now at its position
        (or the last item, or none) becomes current, and the list is
        reindexed. */
    method Delete(confirm: DialogResult)
      requires Valid() && Indexed() && |items| > 0
      modifies this`current, this`items, this`removedItems, items
      ensures confirm != Yes ==> items == old(items) && current == old(Selected())
                                 && removedItems == old(removedItems)
                                 && forall k :: 0 <= k < |items| ==> items[k].State() == old(items[k].State())
      ensures confirm == Yes ==>
                var pos := old(Selected().index);
                && Valid() && Indexed()
                && 0 <= pos < |old(items)| && old(items)[pos] == old(Selected())
                && items == RemoveAt(old(items), pos)
                && removedItems == old(removedItems) + [old(Selected())]
                && current == (if |items| == 0 then null else items[if pos >= |items| then |items| - 1 else pos])
                && (forall x :: x in items ==> x.State() == old(x.State()).(index := x.index))
                && old(Selected()).State() == old(Selected().State())
    {
      var item := GetCurrentItem();
      if confirm != Yes {
        return;
      }
      var index := item.index;
      ghost var pos := index;
      assert items[index] == item;
      items := RemoveAt(items, index);
      removedItems := removedItems + [item];
      if index >= |items| {
        index := |items| - 1;
      }
      current := if |items| != 0 then items[index] else null;
      ghost var kept := items;
      Reindex();
      forall x | x in items
        ensures x.State() == old(x.State()).(index := x.index)
      {
        assert x in kept;
      }
    }

    /** `UnprotectAuthenticator` then the code, then `ProtectAuthenticator`
        when the unlock returned OK (`GetItemCode`). A cancelled prompt gives
        no code. */
    method GetItemCode(item: ListItem, prompt: DialogResult, code: string) returns (r: Option<string>)
      modifies item
      ensures r == (if UnprotectResult(old(item.State()), prompt) == Cancel then None else Some(code))
      ensures item.State() == (if UnprotectResult(old(item.State()), prompt) == Cancel then old(item.State())
                               else Bracketed(old(item.State()), prompt))
    {
      var unlocked := item.Unprotect(prompt);
      if unlocked == Cancel {
        return None;
      }
      r := Some(code);
      if unlocked == OK {
        item.Protect();
      }
    }

    /** The "Show Code" menu action on the current item. */
    method ShowCode(prompt: DialogResult, code: string, now: int)
      requires Valid() && |items| > 0
      modifies this`current, Selected()
      ensures current == old(Selected())
      ensures current.State() == ShownByMenu(old(Selected().State()), prompt, code, now)
    {
      var item := GetCurrentItem();
      var unlocked := item.Unprotect(prompt);
      if unlocked == Cancel {
        return;
      }
      if item.displayUntil.Some? {
        item.Protect();
      }
      item.Reveal(code, now);
    }

    /** The "Copy Code" menu action: copies the item's `LastCode` between an
        unlock and a relock-if-OK. */
    method CopyCode(prompt: DialogResult)
      requires Valid() && |items| > 0
      modifies this`current, this`copies, Selected()
      ensures current == old(Selected())
      ensures var cancelled := UnprotectResult(old(Selected().State()), prompt) == Cancel;
              && current.State() == (if cancelled then old(Selected().State()) else Bracketed(old(Selected().State()), prompt))
              && copies == old(copies) + (if cancelled then [] else [old(Selected().lastCode)])
    {
      var item := GetCurrentItem();
      var unlocked := item.Unprotect(prompt);
      if unlocked == Cancel {
        return;
      }
      copies := copies + [item.lastCode];
      if unlocked == OK {
        item.Protect();
      }
    }

    /** The "Sync Time" menu action: `Sync()` between an unlock and a
        relock-if-OK. */
    method SyncTime(prompt: DialogResult)
      requires Valid() && |items| > 0
      modifies this`current, this`syncCalls, Selected()
      ensures current == old(Selected())
      ensures var cancelled := UnprotectResult(old(Selected().State()), prompt) == Cancel;
              && current.State() == (if cancelled then old(Selected().State()) else Bracketed(old(Selected().State()), prompt))
              && syncCalls == old(syncCalls) + (if cancelled then 0 else 1)
    {
      var item := GetCurrentItem();
      var unlocked := item.Unprotect(prompt);
      if unlocked == Cancel {
        return;
      }
      syncCalls := syncCalls + 1;
      if unlocked == OK {
        item.Protect();
      }
    }

    /** The "Shortcut Key" menu action: between an unlock and a
        relock-if-OK, the hot key the dialog returns replaces the item's
        when the dialog returns OK. */
    method EditShortcut(prompt: DialogResult, formResult: DialogResult, hotKey: HotKey?)
      requires Valid() && |items| > 0
      modifies this`current, Selected()
      ensures current == old(Selected())
      ensures var s := old(Selected().State());
              var cancelled := UnprotectResult(s, prompt) == Cancel;
              current.State() == (if cancelled then s
                                  else if formResult == OK then Bracketed(s, prompt).(auth := s.auth.(hotKey := hotKey))
                                  else Bracketed(s, prompt))
    {
      var item := GetCurrentItem();
      var unlocked := item.Unprotect(prompt);
      if unlocked == Cancel {
        return;
      }
      if formResult == OK {
        item.auth := item.auth.(hotKey := hotKey);
      }
      if unlocked == OK {
        item.Protect();
      }
    }

    /** The "Set Password" menu action; `password` is what the password
        dialog returns (already trimmed). */
    method SetPassword(prompt: DialogResult, formResult: DialogResult, password: string)
      requires Valid() && |items| > 0
      requires formResult == OK ==> Selected().auth.data.Some?
      modifies this`current, Selected()
      ensures current == old(Selected())
      ensures current.State() == PasswordMenu(old(Selected().State()), prompt, formResult, password)
    {
      var item := GetCurrentItem();
      var unlocked := item.Unprotect(prompt);
      if unlocked == Cancel {
        return;
      }
      if formResult == OK {
        item.ApplyPassword(password);
      }
      if unlocked == OK {
        item.Protect();
      }
    }

    /** The "Auto Refresh" menu action: flips auto-refresh, records the
        update time and ends any manual reveal. No unlock is asked for. */
    method ToggleAutoRefresh(now: int)
      requires Valid() && |items| > 0
      modifies this`current, Selected()
      ensures current == old(Selected())
      ensures var s := old(Selected().State());
              current.State() == s.(auth := s.auth.(autoRefresh := !s.auth.autoRefresh),
                                    lastUpdate := Some(now), displayUntil := None)
    {
      var item := GetCurrentItem();
      item.auth := item.auth.(autoRefresh := !item.auth.autoRefresh);
      item.lastUpdate := Some(now);
      item.displayUntil := None;
    }

    /** The "Copy on New Code" menu action. */
    method ToggleCopyOnCode()
      requires Valid() && |items| > 0
      modifies this`current, Selected()
      ensures current == old(Selected())
      ensures var s := old(Selected().State());
              current.State() == s.(auth := s.auth.(copyOnCode := !s.auth.copyOnCode))
    {
      var item := GetCurrentItem();
      item.auth := item.auth.(copyOnCode := !item.auth.copyOnCode);
    }

    /** A click on a leaf of the icon menu other than "Other...": its tag
        becomes the skin, and the default leaf removes the skin. */
    method SelectIcon(tag: string)
      requires Valid() && |items| > 0 && tag != "OTHER"
      modifies this`current, Selected()
      ensures current == old(Selected())
      ensures var s := old(Selected().State());
              current.State() == s.(auth := s.auth.(skin := IconMenu.SkinFromTag(tag)))
    {
      var item := GetCurrentItem();
      item.auth := item.auth.(skin := if |tag| != 0 then Some(tag) else None);
    }

    /** `Tick`: every item takes its turn (see `Ticked`). */
    method Tick(now: int)
      requires Distinct()
      modifies items
      ensures forall k :: 0 <= k < |items| ==> items[k].State() == Ticked(old(items[k].State()), now)
    {
      var k := 0;
      while k < |items|
        invariant 0 <= k <= |items|
        invariant forall j :: 0 <= j < k ==> items[j].State() == Ticked(old(items[j].State()), now)
        invariant forall j :: k <= j < |items| ==> items[j].State() == old(items[j].State())
      {
        var item := items[k];
        if item.auth.autoRefresh {
          item.lastUpdate := Some(now);
        } else if item.displayUntil.Some? {
          if item.displayUntil.value <= now {
            item.displayUntil := None;
            item.lastUpdate := None;
            item.lastCode := None;
            if item.auth.data.Some? && item.auth.data.value.passwordType == Explicit {
              item.Protect();
            }
          }
        }
        k := k + 1;
      }
    }

    /** The code part of `OnDrawItem` for row `index`: `None` when nothing
        is drawn (an empty list, no row, or the placeholder box of a row being
        dragged), otherwise the text drawn. The row's `LastCode` is updated
        and a changed auto-refresh code copied as `DrawCode` says. */
    method DrawItem(index: int, now: int, current: CodeResult) returns (text: Option<string>)
      requires index < |items|
      modifies this`copies
      modifies if 0 <= index < |items| then {items[index]} else {}
      ensures index < 0 || old(items[index].dragging) ==> text == None && copies == old(copies)
      ensures 0 <= index && !old(items[index].dragging) ==>
                var s := old(items[index].State());
                var d := DrawCode(s.auth, s.displayUntil, s.lastCode, current, now);
                && text == Some(d.Text())
                && items[index].State() == s.(lastCode := d.lastCode)
                && copies == old(copies) + (if d.copied.Some? then [d.copied] else [])
    {
      if |items| == 0 || index < 0 {
        return None;
      }
      var item := items[index];
      if item.dragging {
        return None;
      }
      var d := DrawCode(item.auth, item.displayUntil, item.lastCode, current, now);
      item.lastCode := d.lastCode;
      if d.copied.Some? {
        copies := copies + [d.copied];
      }
      text := Some(d.Text());
    }
  }

  predicate DistinctSeq<T(==)>(s: seq<T>) {
    forall i, j :: 0 <= i < j < |s| ==> s[i] != s[j]
  }

  /** Moving an entry of a list without repeats gives a list without
      repeats holding the same entries. */
  lemma MovedKeepsItems<T>(s: seq<T>, from: int, to: int)
    requires 0 <= from < |s| && 0 <= to < |s| && DistinctSeq(s)
    ensures DistinctSeq(Moved(s, from, to))
    ensures forall x :: x in Moved(s, from, to) <==> x in s
  {
    var m := Moved(s, from, to);
    assert multiset(m) == multiset(s);
    forall x
      ensures x in m <==> x in s
    {
      assert x in m <==> x in multiset(m);
      assert x in s <==> x in multiset(s);
    }
    forall i, j | 0 <= i < j < |m|
      ensures m[i] != m[j]
    {
      if m[i] == m[j] {
        DuplicateInMultiset(m, i, j);
        NoDuplicateInMultiset(s, m[i]);
      }
    }
  }

  lemma DuplicateInMultiset<T>(s: seq<T>, i: int, j: int)
    requires 0 <= i < j < |s| && s[i] == s[j]
    ensures multiset(s)[s[i]] >= 2
  {
    assert s == s[..i] + [s[i]] + s[i + 1..j] + [s[j]] + s[j + 1..];
  }

  lemma {:induction false} NoDuplicateInMultiset<T>(s: seq<T>, x: T)
    requires DistinctSeq(s)
    ensures multiset(s)[x] <= 1
    decreases |s|
  {
    if s != [] {
      assert s == [s[0]] + s[1..];
      NoDuplicateInMultiset(s[1..], x);
      if s[0] == x {
        assert x !in s[1..];
      }
    }
  }
}
