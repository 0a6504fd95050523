/** WinAuth's `HotKey`: the shortcut key, modifiers and action stored on an
    authenticator. `SetShortcutKeyForm` edits the object in place, so it is
    a class. */
module HotKeys {
  import opened Wrappers

  /** `HotKey.HotKeyActions`: what pressing the shortcut does. */
  datatype HotKeyAction = Notify | Inject | Copy | Advanced

  /** `WinAPI.KeyModifiers`, the flag values of the Win32 `RegisterHotKey`
      modifiers (MOD_ALT, MOD_CONTROL, MOD_SHIFT). */
  const NoModifiers: bv32 := 0
  const Alt: bv32 := 1
  const Control: bv32 := 2
  const Shift: bv32 := 4

  /** The fields of a `HotKey` as a value. */
  datatype HotKeyValue = HotKeyValue(key: int, modifiers: bv32, action: HotKeyAction,
                                     window: Option<string>, advanced: Option<string>)

  /** What `new HotKey()` holds. */
  const DefaultHotKey: HotKeyValue := HotKeyValue(0, NoModifiers, Notify, None, None)

  class HotKey {
    /** `WinAPI.VirtualKeyCode`; 0 is the enum's default value. */
    var key: int
    var modifiers: bv32
    var action: HotKeyAction
    /** The target window of an Inject action. */
    var window: Option<string>
    /** The script of an Advanced action. */
    var advanced: Option<string>

    function Value(): HotKeyValue
      reads this
    {
      HotKeyValue(key, modifiers, action, window, advanced)
    }

    /** `new HotKey()`: every field at its default value. */
    constructor ()
      ensures key == 0 && modifiers == NoModifiers && action == Notify
      ensures window == None && advanced == None
      ensures Value() == DefaultHotKey
    {
      key := 0;
      modifiers := NoModifiers;
      action := Notify;
      window := None;
      advanced := None;
    }
  }
}
