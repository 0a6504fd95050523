/** `SetShortcutKeyForm`: the dialog that edits an authenticator's
    shortcut key. It offers "None" and every virtual key from the space bar
    up, the Shift, Control and Alt toggles, and the action the key performs:
    notify, inject the code into a window, copy it, or run an advanced
    script. */
module ShortcutKey {
  import opened Wrappers
  import opened Forms
  import opened HotKeys

  /** `WinAPI.VirtualKeyCode.VK_SPACE`, the first key offered. */
  const Space: int := 0x20

  /** The `KeyModifiers` flags the three toggles stand for, OR-ed together. */
  function Compose(shift: bool, ctrl: bool, alt: bool): (m: bv32)
    ensures m & !(Shift | Control | Alt) == 0
  {
    var m: bv32 := NoModifiers;
    var m := if shift then m | Shift else m;
    var m := if ctrl then m | Control else m;
    if alt then m | Alt else m
  }

  /** The toggles `Load` sets from a hot key's modifiers. */
  function Decode(m: bv32): (bool, bool, bool) {
    (m & Shift != 0, m & Control != 0, m & Alt != 0)
  }

  /** The toggles read back as they were set. */
  lemma DecodeCompose(shift: bool, ctrl: bool, alt: bool)
    ensures Decode(Compose(shift, ctrl, alt)) == (shift, ctrl, alt)
  {
  }

  /** Modifiers made only of the three flags are rebuilt exactly from the
      toggles they set. */
  lemma ComposeDecode(m: bv32)
    requires m & !(Shift | Control | Alt) == 0
    ensures var (s, c, a) := Decode(m); Compose(s, c, a) == m
  {
  }

  /** `KeyItem.ToString()`: the key's enum name without its `VK_` prefix.
      `Substring(3)` throws on a name shorter than three characters, which
      is `None` here. */
  function KeyItemText(name: string): (r: Option<string>)
    ensures r.Some? <==> |name| >= 3
    ensures r.Some? ==> name == name[..3] + r.value
  {
    if |name| >= 3 then Some(name[3..]) else None
  }

  lemma KeyItemTextDropsPrefix(rest: string)
    ensures KeyItemText("VK_" + rest) == Some(rest)
  {
    assert ("VK_" + rest)[3..] == rest;
  }

  /** The keys the combo box lists after "None": the codes from the space
      bar up, in the enum's order. */
  function KeyList(codes: seq<int>): (r: seq<int>)
    ensures |r| <= |codes|
    ensures forall k :: k in r ==> k in codes && k >= Space
  {
    if codes == [] then []
    else
      var last := codes[|codes| - 1];
      KeyList(codes[..|codes| - 1]) + (if last >= Space then [last] else [])
  }

  /** Every code from the space bar up is listed. */
  lemma {:induction false} KeyListHasAll(codes: seq<int>, k: int)
    requires k in codes && k >= Space
    ensures k in KeyList(codes)
    decreases |codes|
  {
    var init := codes[..|codes| - 1];
    if codes[|codes| - 1] != k {
      assert codes == init + [codes[|codes| - 1]];
      KeyListHasAll(init, k);
    }
  }

  /** The position the combo box selects for `key`: the last listed item
      with that code, counted after "None", or 0 ("None") when none. */
  function LastMatch(keys: seq<int>, key: int): (r: nat)
    ensures r <= |keys|
    ensures r > 0 ==> keys[r - 1] == key && forall j :: r <= j < |keys| ==> keys[j] != key
    ensures r == 0 ==> key !in keys
  {
    if keys == [] then 0
    else if keys[|keys| - 1] == key then |keys|
    else
      var r := LastMatch(keys[..|keys| - 1], key);
      assert key !in keys[..|keys| - 1] ==> key !in keys by {
        assert keys == keys[..|keys| - 1] + [keys[|keys| - 1]];
      }
      r
  }

  /** The choices on the form when OK is clicked: the selected key (0 for
      "None"), the toggles, the action radio buttons and the two text boxes. */
  datatype Choice = Choice(key: int, shift: bool, ctrl: bool, alt: bool,
                           notify: bool, inject: bool, paste: bool, advanced: bool,
                           injectText: string, advancedText: string)

  /** The action the first checked radio button gives the hot key; with none
      checked the action is left as it was. */
  function ApplyAction(c: Choice, h: HotKeyValue): (r: HotKeyValue)
    ensures r.key == h.key && r.modifiers == h.modifiers
    ensures c.notify ==> r.action == Notify && r.window == None && r.advanced == None
    ensures !c.notify && c.inject ==> r.action == Inject && r.window == Some(c.injectText) && r.advanced == None
    ensures !c.notify && !c.inject && c.paste ==> r.action == Copy && r.window == None && r.advanced == None
    ensures !c.notify && !c.inject && !c.paste && c.advanced ==>
              r.action == Advanced && r.window == None && r.advanced == Some(c.advancedText)
    ensures !c.notify && !c.inject && !c.paste && !c.advanced ==> r == h
  {
    if c.notify then h.(action := Notify, window := None, advanced := None)
    else if c.inject then h.(action := Inject, window := Some(c.injectText), advanced := None)
    else if c.paste then h.(action := Copy, window := None, advanced := None)
    else if c.advanced then h.(action := Advanced, window := None, advanced := Some(c.advancedText))
    else h
  }

  /** `okButton_Click` on values: the hot key the form leaves and whether
      the form closes. "None" clears the hot key. Otherwise a missing hot
      key is created; a changed key or modifiers that `available` (for
      `KeyboardHook.IsHotkeyAvailable`) refuses keeps the form open with
      the hot key as it was; else the key, the modifiers and the action are
      assigned. */
  function OkEffect(c: Choice, available: (int, bv32) -> bool, h: Option<HotKeyValue>): (r: (Option<HotKeyValue>, bool))
  {
    if c.key == 0 then (None, true)
    else
      var (v, closes) := Assign(c, available, h.GetOr(DefaultHotKey));
      (Some(v), closes)
  }

  /** The part of `okButton_Click` that works on an existing hot key. */
  function Assign(c: Choice, available: (int, bv32) -> bool, cur: HotKeyValue): (r: (HotKeyValue, bool))
  {
    var mods := Compose(c.shift, c.ctrl, c.alt);
    if (c.key != cur.key || mods != cur.modifiers) && !available(c.key, mods) then (cur, false)
    else (ApplyAction(c, cur.(key := c.key, modifiers := mods)), true)
  }

  /** Choosing "None" removes the shortcut and closes the form. */
  lemma OkNoneClears(c: Choice, available: (int, bv32) -> bool, h: Option<HotKeyValue>)
    requires c.key == 0
    ensures OkEffect(c, available, h) == (None, true)
  {
  }

  /** OK keeps the form open exactly when the key or the modifiers change
      to a combination that is taken; the hot key then keeps its key,
      modifiers and action (a new one keeps its defaults). Otherwise the
      hot key holds the chosen key and modifiers. */
  lemma OkOutcome(c: Choice, available: (int, bv32) -> bool, h: Option<HotKeyValue>)
    requires c.key != 0
    ensures var (r, closes) := OkEffect(c, available, h);
            var cur := h.GetOr(DefaultHotKey);
            var mods := Compose(c.shift, c.ctrl, c.alt);
            && r.Some?
            && (!closes <==> (c.key != cur.key || mods != cur.modifiers) && !available(c.key, mods))
            && (!closes ==> r.value == cur)
            && (closes ==> r.value.key == c.key && r.value.modifiers == mods
                           && r.value == ApplyAction(c, cur.(key := c.key, modifiers := mods)))
  {
  }

  /** The choices `Load` puts on the form for a hot key whose key is
      listed: its key, its modifiers' toggles, the radio button of its
      action and its window or script. */
  function Loaded(h: HotKeyValue): Choice {
    var toggles := Decode(h.modifiers);
    Choice(h.key, toggles.0, toggles.1, toggles.2, h.action == Notify, h.action == Inject, h.action == Copy, h.action == Advanced,
           if h.action == Inject then h.window.GetOr("") else "",
           if h.action == Advanced then h.advanced.GetOr("") else "")
  }

  /** Opening the form and clicking OK without changing anything keeps the
      hot key's key, modifiers and action, never asks whether the key is
      available, and closes the form. Only the unused window or script is
      cleared, and a null one becomes empty. */
  lemma LoadThenOk(h: HotKeyValue, available: (int, bv32) -> bool)
    requires h.key != 0 && h.modifiers & !(Shift | Control | Alt) == 0
    ensures var (r, closes) := OkEffect(Loaded(h), available, Some(h));
            && closes && r.Some?
            && r.value.key == h.key && r.value.modifiers == h.modifiers && r.value.action == h.action
            && r.value.window == (if h.action == Inject then Some(h.window.GetOr("")) else None)
            && r.value.advanced == (if h.action == Advanced then Some(h.advanced.GetOr("")) else None)
  {
    var (s, c, a) := Decode(h.modifiers);
    ComposeDecode(h.modifiers);
    assert Compose(s, c, a) == h.modifiers;
  }

  /** The choices show `h`: its modifiers' toggles, the radio button of its
      action, and its window or script in the box of that action (an empty
      box otherwise). */
  predicate Shows(c: Choice, h: HotKeyValue) {
    && c.shift == Decode(h.modifiers).0 && c.ctrl == Decode(h.modifiers).1 && c.alt == Decode(h.modifiers).2
    && c.notify == (h.action == Notify) && c.inject == (h.action == Inject)
    && c.paste == (h.action == Copy) && c.advanced == (h.action == Advanced)
    && c.injectText == (if c.inject then h.window.GetOr("") else "")
    && c.advancedText == (if c.advanced then h.advanced.GetOr("") else "")
  }

  /** Showing `h` means holding the choices `Loaded` gives, whatever key is
      selected. */
  lemma ShowsLoaded(c: Choice, h: HotKeyValue)
    ensures Shows(c, h) <==> c == Loaded(h).(key := c.key)
  {
  }

  class ShortcutForm {
    /** The `Hotkey` property: the shortcut being edited, or null. */
    var hotkey: HotKey?
    /** The `KeyItem`s of the combo box, after its first item "None". */
    var keyItems: seq<int>
    /** `keyCombo.SelectedIndex`: 0 is "None", `i` is `keyItems[i - 1]`. */
    var selectedIndex: int
    var shiftToggle: bool
    var ctrlToggle: bool
    var altToggle: bool
    var notifyEnabled: bool
    var notifyChecked: bool
    var injectEnabled: bool
    var injectChecked: bool
    var injectTextEnabled: bool
    var injectText: string
    var pasteEnabled: bool
    var pasteChecked: bool
    var advancedEnabled: bool
    var advancedChecked: bool
    var advancedTextEnabled: bool
    var advancedText: string
    /** How many times the "hot key not available" error was shown. */
    var notAvailableErrors: nat
    var dialogResult: DialogResult

    /** The form as the designer leaves it, editing `h`. */
    constructor (h: HotKey?)
      ensures hotkey == h && keyItems == [] && selectedIndex == -1
      ensures !shiftToggle && !ctrlToggle && !altToggle && notAvailableErrors == 0
    {
      hotkey := h;
      keyItems := [];
      selectedIndex := -1;
      shiftToggle, ctrlToggle, altToggle := false, false, false;
      notifyEnabled, notifyChecked := true, true;
      injectEnabled, injectChecked, injectTextEnabled, injectText := true, false, false, "";
      pasteEnabled, pasteChecked := true, false;
      advancedEnabled, advancedChecked, advancedTextEnabled, advancedText := true, false, false, "";
      notAvailableErrors := 0;
      dialogResult := Undecided;
    }

    /** The key of the selected item; "None" is the enum's default, 0. */
    function SelectedKey(): (k: int)
      reads this`keyItems, this`selectedIndex
      ensures k != 0 ==> k in keyItems
    {
      if 0 < selectedIndex <= |keyItems| then keyItems[selectedIndex - 1] else 0
    }

    function Choices(): Choice
      reads this`keyItems, this`selectedIndex, this`shiftToggle, this`ctrlToggle, this`altToggle
      reads this`notifyChecked, this`injectChecked, this`pasteChecked, this`advancedChecked
      reads this`injectText, this`advancedText
    {
      Choice(SelectedKey(), shiftToggle, ctrlToggle, altToggle,
                         notifyChecked, injectChecked, pasteChecked, advancedChecked, injectText, advancedText)
    }

    function CurrentHotKey(): Option<HotKeyValue>
      reads this`hotkey, hotkey
    {
      if hotkey == null then None else Some(hotkey.Value())
    }

    /** `SetShortcutKeyForm_Load`, with `codes` the values of the
        `VirtualKeyCode` enum in order. The combo box lists "None" and the
        keys from the space bar up, and selects the hot key's key (its last
        entry) or "None"; that selection raises `KeyChanged`. The toggles
        and action controls then show the hot key; without one "None" is
        selected, so the toggles are cleared and the action radio buttons
        disabled, and the rest is left as it is. */
    method Load(codes: seq<int>)
      modifies this`keyItems, this`selectedIndex, this`shiftToggle, this`ctrlToggle, this`altToggle
      modifies this`notifyEnabled, this`notifyChecked, this`injectEnabled, this`injectChecked
      modifies this`injectTextEnabled, this`injectText, this`pasteEnabled, this`pasteChecked
      modifies this`advancedEnabled, this`advancedChecked, this`advancedTextEnabled, this`advancedText
      ensures keyItems == KeyList(codes)
      ensures selectedIndex == (if hotkey == null then 0 else LastMatch(keyItems, hotkey.key))
      ensures hotkey != null && hotkey.key in codes && hotkey.key >= Space ==> SelectedKey() == hotkey.key
      ensures hotkey != null ==> Shows(Choices(), hotkey.Value())
      ensures hotkey != null ==>
                notifyEnabled && injectEnabled && pasteEnabled && advancedEnabled
                && injectTextEnabled == injectChecked && advancedTextEnabled == advancedChecked
      ensures hotkey == null ==> SelectedKey() == 0
      ensures hotkey == null ==>
                !shiftToggle && !ctrlToggle && !altToggle
                && !notifyEnabled && !injectEnabled && !pasteEnabled && !advancedEnabled
      ensures hotkey == null ==>
                unchanged(this`notifyChecked, this`injectChecked, this`injectTextEnabled, this`injectText,
                          this`pasteChecked, this`advancedChecked, this`advancedTextEnabled, this`advancedText)
    {
      LoadKeys(codes);
      if hotkey != null {
        LoadHotKey(hotkey.Value());
      }
    }

    /** The loop of `Load` that fills the combo box and picks its selection,
        which raises `keyCombo_SelectedIndexChanged`. */
    method LoadKeys(codes: seq<int>)
      modifies this`keyItems, this`selectedIndex, this`shiftToggle, this`ctrlToggle, this`altToggle
      modifies this`notifyEnabled, this`injectEnabled, this`pasteEnabled, this`advancedEnabled
      ensures keyItems == KeyList(codes)
      ensures selectedIndex == (if hotkey == null then 0 else LastMatch(keyItems, hotkey.key))
      ensures hotkey != null && hotkey.key in codes && hotkey.key >= Space ==> SelectedKey() == hotkey.key
      ensures hotkey == null ==> SelectedKey() == 0
      ensures SelectedKey() == 0 ==> !shiftToggle && !ctrlToggle && !altToggle
      ensures SelectedKey() != 0 ==>
                (shiftToggle, ctrlToggle, altToggle) == old((shiftToggle, ctrlToggle, altToggle))
      ensures notifyEnabled == injectEnabled == pasteEnabled == advancedEnabled == (SelectedKey() != 0)
    {
      keyItems := [];
      var selected := 0;
      var i := 0;
      while i < |codes|
        invariant 0 <= i <= |codes|
        invariant keyItems == KeyList(codes[..i])
        invariant selected == (if hotkey == null then 0 else LastMatch(keyItems, hotkey.key))
        invariant unchanged(this`shiftToggle, this`ctrlToggle, this`altToggle)
      {
        var vk := codes[i];
        assert codes[..i + 1][..i] == codes[..i];
        if vk >= Space {
          assert (keyItems + [vk])[..|keyItems|] == keyItems;
          keyItems := keyItems + [vk];
          if hotkey != null && hotkey.key == vk {
            selected := |keyItems|;
          }
        }
        i := i + 1;
      }
      assert codes[..i] == codes;
      selectedIndex := selected;
      if hotkey != null && hotkey.key in codes && hotkey.key >= Space {
        KeyListHasAll(codes, hotkey.key);
      }
      KeyChanged();
    }

    /** The part of `Load` that shows an existing hot key `h`: its
        modifiers' toggles are checked, every action radio button is enabled
        and the one of `h`'s action checked. */
    method LoadHotKey(h: HotKeyValue)
      modifies this`shiftToggle, this`ctrlToggle, this`altToggle
      modifies this`notifyEnabled, this`notifyChecked, this`injectEnabled, this`injectChecked
      modifies this`injectTextEnabled, this`injectText, this`pasteEnabled, this`pasteChecked
      modifies this`advancedEnabled, this`advancedChecked, this`advancedTextEnabled, this`advancedText
      ensures Shows(Choices(), h)
      ensures notifyEnabled && injectEnabled && pasteEnabled && advancedEnabled
      ensures injectTextEnabled == injectChecked && advancedTextEnabled == advancedChecked
    {
      ShowModifiers(h.modifiers);
      ShowAction(h);
    }

    /** The four action radio buttons and their text boxes for `h`. */
    method ShowAction(h: HotKeyValue)
      modifies this`notifyEnabled, this`notifyChecked, this`injectEnabled, this`injectChecked
      modifies this`injectTextEnabled, this`injectText, this`pasteEnabled, this`pasteChecked
      modifies this`advancedEnabled, this`advancedChecked, this`advancedTextEnabled, this`advancedText
      ensures notifyChecked == (h.action == Notify) && injectChecked == (h.action == Inject)
      ensures pasteChecked == (h.action == Copy) && advancedChecked == (h.action == Advanced)
      ensures injectText == (if injectChecked then h.window.GetOr("") else "")
      ensures advancedText == (if advancedChecked then h.advanced.GetOr("") else "")
      ensures notifyEnabled && injectEnabled && pasteEnabled && advancedEnabled
      ensures injectTextEnabled == injectChecked && advancedTextEnabled == advancedChecked
    {
      notifyEnabled := true;
      notifyChecked := h.action == Notify;
      ShowInject(h);
      pasteEnabled := true;
      pasteChecked := h.action == Copy;
      ShowAdvanced(h);
    }

    /** The inject radio button and its window text box for `h`. */
    method ShowInject(h: HotKeyValue)
      modifies this`injectEnabled, this`injectChecked, this`injectTextEnabled, this`injectText
      ensures injectEnabled && injectChecked == (h.action == Inject) && injectTextEnabled == injectChecked
      ensures injectText == (if injectChecked then h.window.GetOr("") else "")
    {
      injectEnabled := true;
      injectChecked := h.action == Inject;
      injectTextEnabled := injectChecked;
      injectText := if injectChecked then h.window.GetOr("") else "";
    }

    /** The advanced radio button and its script text box for `h`. */
    method ShowAdvanced(h: HotKeyValue)
      modifies this`advancedEnabled, this`advancedChecked, this`advancedTextEnabled, this`advancedText
      ensures advancedEnabled && advancedChecked == (h.action == Advanced) && advancedTextEnabled == advancedChecked
      ensures advancedText == (if advancedChecked then h.advanced.GetOr("") else "")
    {
      advancedEnabled := true;
      advancedChecked := h.action == Advanced;
      advancedTextEnabled := advancedChecked;
      advancedText := if advancedChecked then h.advanced.GetOr("") else "";
    }

    /** The three toggles of `Load`, each checked when its modifier bit is
        set in `modifiers`. */
    method ShowModifiers(modifiers: bv32)
      modifies this`shiftToggle, this`ctrlToggle, this`altToggle
      ensures shiftToggle == Decode(modifiers).0 && ctrlToggle == Decode(modifiers).1
      ensures altToggle == Decode(modifiers).2
    {
      shiftToggle := modifiers & Shift != 0;
      ctrlToggle := modifiers & Control != 0;
      altToggle := modifiers & Alt != 0;
    }

    /** `okButton_Click`, with `available` standing for
        `KeyboardHook.IsHotkeyAvailable`. The OK button closes the form
        unless the handler says otherwise. */
    method OkClick(available: (int, bv32) -> bool)
      modifies this`hotkey, this`notAvailableErrors, this`dialogResult, hotkey
      ensures var (v, closes) := OkEffect(old(Choices()), available, old(CurrentHotKey()));
              CurrentHotKey() == v && dialogResult == (if closes then OK else Undecided)
      ensures notAvailableErrors == old(notAvailableErrors) + (if dialogResult == OK then 0 else 1)
      ensures dialogResult == OK || dialogResult == Undecided
      ensures hotkey != null && old(hotkey) != null ==> hotkey == old(hotkey)
      ensures hotkey != null && old(hotkey) == null ==> fresh(hotkey)
    {
      dialogResult := OK;
      var key := SelectedKey();
      if key == 0 {
        hotkey := null;
        return;
      }
      ghost var cur := if hotkey == null then DefaultHotKey else hotkey.Value();
      var c := Choices();
      if hotkey == null {
        hotkey := new HotKey();
      }
      var ok := AssignKey(hotkey, c, available);
      assert CurrentHotKey() == Some(Assign(c, available, cur).0);
      if !ok {
        notAvailableErrors := notAvailableErrors + 1;
        dialogResult := Undecided;
      }
    }

    /** `okButton_Click` from the modifiers on, for the choices `c` read
        off the controls (with a key chosen) and an existing hot key `h`. */
    method AssignKey(h: HotKey, c: Choice, available: (int, bv32) -> bool) returns (ok: bool)
      requires c.key != 0
      modifies h
      ensures var (v, accepted) := Assign(c, available, old(h.Value()));
              h.Value() == v && ok == accepted
    {
      var modifiers := Compose(c.shift, c.ctrl, c.alt);
      if (c.key != h.key || modifiers != h.modifiers) && !available(c.key, modifiers) {
        return false;
      }
      h.key := c.key;
      h.modifiers := modifiers;
      assert h.Value() == old(h.Value()).(key := c.key, modifiers := modifiers);
      ApplyActionTo(h, c);
      ok := true;
    }

    /** The end of `okButton_Click`: the first checked radio button of `c`
        sets the action of `h` and its window or script. */
    method ApplyActionTo(h: HotKey, c: Choice)
      modifies h
      ensures h.Value() == ApplyAction(c, old(h.Value()))
    {
      if c.notify {
        h.action := Notify;
        h.window := None;
        h.advanced := None;
      } else if c.inject {
        h.action := Inject;
        h.window := Some(c.injectText);
        h.advanced := None;
      } else if c.paste {
        h.action := Copy;
        h.window := None;
        h.advanced := None;
      } else if c.advanced {
        h.action := Advanced;
        h.window := None;
        h.advanced := Some(c.advancedText);
      }
    }

    /** `keyCombo_SelectedIndexChanged`: choosing "None" clears the toggles
        and disables the action radio buttons; any key enables them. */
    method KeyChanged()
      modifies this`shiftToggle, this`ctrlToggle, this`altToggle
      modifies this`notifyEnabled, this`injectEnabled, this`pasteEnabled, this`advancedEnabled
      ensures SelectedKey() == 0 ==> !shiftToggle && !ctrlToggle && !altToggle
      ensures SelectedKey() != 0 ==>
                (shiftToggle, ctrlToggle, altToggle) == old((shiftToggle, ctrlToggle, altToggle))
      ensures notifyEnabled == injectEnabled == pasteEnabled == advancedEnabled == (SelectedKey() != 0)
    {
      var key := SelectedKey();
      if key == 0 {
        shiftToggle := false;
        ctrlToggle := false;
        altToggle := false;
        notifyEnabled := false;
        injectEnabled := false;
        pasteEnabled := false;
        advancedEnabled := false;
      } else {
        notifyEnabled := true;
        injectEnabled := true;
        pasteEnabled := true;
        advancedEnabled := true;
      }
    }

    /** `injectRadioButton_CheckedChanged`. */
    method InjectChanged()
      modifies this`injectTextEnabled
      ensures injectTextEnabled == injectChecked
    {
      injectTextEnabled := injectChecked;
    }

    /** `advancedRadioButton_CheckedChanged`. */
    method AdvancedChanged()
      modifies this`advancedTextEnabled
      ensures advancedTextEnabled == advancedChecked
    {
      advancedTextEnabled := advancedChecked;
    }
  }
}
