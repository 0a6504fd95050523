# WinAuth list box, secret text box and dialogs — a Dafny model

WinAuth is a Windows desktop authenticator. It keeps a list of one-time-password
authenticators (Google, Battle.net, Trion, Steam, HOTP, ...) and shows their codes.
This project models the parts of its WinForms front end that hold logic:

- **The authenticator list box.** Its items hold an unlock count, a manual reveal
  (`DisplayUntil`) and the last code shown.
  - The model covers the timer tick, the mouse handlers, drag-and-drop reordering and
    the auto-scroll while dragging.
  - It covers the context menu: how it is shown and every action with logic behind it
    (set password, show code, copy code, auto refresh, shortcut key, copy on new code,
    delete, sync and icon).
  - It covers the unlock/relock protocol (`UnprotectAuthenticator` /
    `ProtectAuthenticator`), the pie arc and the code spacing of `OnDrawItem`.
  - It covers the icon sub-menu builder and its check marks.
- **The secret text box.** A text box that stores its real value, shows stars while
  in secret mode, and paints its value in chunks separated by spaces.
- **The grouped radio button.** Checking a grouped button unchecks every other
  checked button of the same group on the same form.
- **The three enrolment dialogs** (Google, Battle.net, Trion).
  - Their verification logic, step by step: `otpauth://` key URIs, the secret filter,
    Battle.net private-key cleaning, and Trion security questions.
  - Their timers, and the warning the Cancel button gives when an authenticator would
    be lost.
- **The shortcut-key dialog.** It edits a `HotKey`: its key, modifiers and action.
- **The export dialog.** Its mutually exclusive protection boxes, its validation and
  the file name it proposes.
- **The four password dialogs:** unprotect, set password, get password and get PGP key.

**How the source's constructs are modelled:**
- Objects whose fields the handlers update (the list box and its items, the secret
  text box, the forms, the hot key, the control tree) are Dafny classes.
  - Each handler is a method. Its `modifies` clause names what it changes.
  - Its `ensures` clause ties the new state to a pure function of the old state (an
    `...Effect` function, `Ticked`, `Moved`, ...).
  - The lemmas beside those functions state what the source promises about them.
- Every service the handlers call stays outside the model, and its results are
  parameters. Examples:
  - the dialog box answers;
  - `Enroll`, `Restore` and `SecurityQuestions` on the authenticators;
  - `IsHotkeyAvailable`;
  - the current code;
  - the clock and the server time.
- Error dialogs become entries appended to an `errors` sequence.
- `DialogResult.None` is written `Undecided`.
- C# integer semantics are written out where they matter (`CSharp.Div`, `CSharp.Rem`,
  `CSharp.ToInt32`, `CSharp.RoundHalfEven`).

## Model

| member | source | states |
|---|---|---|
| CSharp.Div | WinAuth/AuthenticatorListBox.cs:1976 | C# integer division truncates toward zero: the remainder has the dividend's sign and is smaller than the divisor |
| CSharp.Rem | WinAuth/AuthenticatorListBox.cs:1976 | C# `%` is the remainder of the truncating division and takes the sign of the dividend |
| CSharp.ToInt32 | WinAuth/AddGoogleAuthenticator.cs:77 | an unchecked `(int)` cast of a `long` gives the 32-bit value congruent modulo 2^32, and values in range are unchanged |
| CSharp.RoundHalfEven | WinAuth/AuthenticatorListBox.cs:1976 | `Math.Round` of an exact quotient is the nearest integer, with ties going to the even one |
| CSharp.DivRemNonNegative | WinAuth/AuthenticatorListBox.cs:1976 | on non-negative operands C#'s `/` and `%` agree with the mathematical ones |
| Enrolment.StepAsWritten | WinAuth/AddGoogleAuthenticator.cs:77 | the timers' step position `(int)(ServerTime / 1000L) % 30` as written lies strictly between -30 and 30 |
| Enrolment.StepAsWrittenAgrees | WinAuth/AddBattleNetAuthenticator.cs:95 | while the second count fits in 32 bits, the step as written is the intended step |
| Enrolment.StepAsWrittenWrapsIn2038 | WinAuth/AddTrionAuthenticator.cs:81 | at 2^31 seconds the cast wraps, and the step as written is -8 (a progress value of -7) |
| Enrolment.Step | WinAuth/AddGoogleAuthenticator.cs:77-82 | the position inside the 30-second step of section 4.1 of RFC 6238: in 0..29 and congruent to the elapsed seconds |
| Enrolment.StepProgressInRange | WinAuth/AddGoogleAuthenticator.cs:78-79 | the progress shown is always in 1..30, it is 1 exactly when a new step starts, which is when the code is refreshed, and one second later it has advanced by one, wrapping from 30 to 1 |
| Enrolment.CancelResult | WinAuth/AddGoogleAuthenticator.cs:91-109 | Cancel closes with OK exactly when a created authenticator is saved (Yes), stays open exactly when the warning is cancelled, and otherwise closes as Cancel |
| Protection.Unlock | WinAuth/AuthenticatorListBox.cs:935-973 | the password prompt appears exactly when no unlock is held and the data is password-protected; an OK result increments the unlock count and any other result leaves it |
| Protection.Relock | WinAuth/AuthenticatorListBox.cs:979-996 | `Protect()` is called exactly when releasing the last unlock of existing data, and then the count becomes exactly 0; otherwise it goes down by one |
| Protection.PairedUseRestoresCount | WinAuth/AuthenticatorListBox.cs:935-996 | an unlock followed by a relock after OK restores the count, and re-protects exactly when the unlock prompted; a refused unlock changes nothing |
| Protection.UnlockTimes | WinAuth/AuthenticatorListBox.cs:935-973 | n nested unlocks answered OK add n to the count; only when nothing is held and the data has no password does the count stay, since no unlock succeeds |
| Protection.ReleaseAll | WinAuth/AuthenticatorListBox.cs:979-996 | releasing k held unlocks returns the count to 0 and calls `Protect()` exactly once |
| Protection.NestedUseProtectsOnce | WinAuth/AuthenticatorListBox.cs:935-996 | n nested unlocks followed by n relocks leave the count at 0 and re-protect exactly once |
| Reorder.RemoveAt | WinAuth/AuthenticatorListBox.cs:641 | `Items.Remove` takes out one element and keeps the others in order |
| Reorder.InsertAt | WinAuth/AuthenticatorListBox.cs:642 | `Items.Insert` places the element at the index and shifts the rest right by one |
| Reorder.RemoveInserted | WinAuth/AuthenticatorListBox.cs:641-642 | removing at the index where an element was inserted gives back the list |
| Reorder.InsertRemoved | WinAuth/AuthenticatorListBox.cs:641-642 | putting a removed element back where it was gives back the list |
| Reorder.Moved | WinAuth/AuthenticatorListBox.cs:641-642 | a drop moves the element to the target index, keeps the list's length and the other elements' order, and is a permutation |
| Reorder.MoveBack | WinAuth/AuthenticatorListBox.cs:641-642 | dragging the item back to where it came from undoes the move |
| Reorder.MoveInPlace | WinAuth/AuthenticatorListBox.cs:641-642 | dropping an item on its own position changes nothing |
| Reorder.MultisetOfRemoveAt | WinAuth/AuthenticatorListBox.cs:641 | removal takes exactly that one element out of the multiset |
| Reorder.MultisetOfInsertAt | WinAuth/AuthenticatorListBox.cs:642 | insertion adds exactly that one element to the multiset |
| Reorder.IndexOf | WinAuth/AuthenticatorListBox.cs:641 | the position `Items.Remove` takes the element from is its first occurrence |
| Text.TrimStartFacts | WinAuth/SetPasswordForm.cs:73-74 | `TrimStart` removes a blank prefix, and what is left does not start with white space |
| Text.TrimEndFacts | WinAuth/SetPasswordForm.cs:73-74 | `TrimEnd` removes a blank suffix, and what is left does not end with white space |
| Text.TrimIsSlice | WinAuth/SetPasswordForm.cs:73-74 | `String.Trim` returns a slice of the input with only white space cut from each end, and the slice has no white space at either end |
| Text.TrimEmptyIffBlank | WinAuth/AddBattleNetAuthenticator.cs:254-258 | `s.Trim().Length == 0` exactly when the text is all white space |
| Text.TrimIdempotent | WinAuth/AddGoogleAuthenticator.cs:118 | trimming twice is trimming once |
| Text.TrimEndBlankSuffix | WinAuth/AddGoogleAuthenticator.cs:334 | white space appended to a text that ends visibly is all `TrimEnd` takes off |
| Text.TrimPadded | WinAuth/AddGoogleAuthenticator.cs:334 | a visibly delimited text with white space appended trims back to itself |
| Text.Lower | WinAuth/AddGoogleAuthenticator.cs:301 | ASCII case folding maps A-Z to a-z and leaves every other character alone |
| Text.Keep | WinAuth/AddGoogleAuthenticator.cs:318 | `Regex.Replace(s, "[^...]", "")` keeps only characters of the class, and keeps a text made of them unchanged |
| Text.KeepAppend | WinAuth/AddGoogleAuthenticator.cs:318 | the filter distributes over concatenation |
| Text.KeepKeepsAll | WinAuth/AddGoogleAuthenticator.cs:318 | every character of the class survives the filter |
| Text.KeepAgrees | WinAuth/AddBattleNetAuthenticator.cs:253 | two classes that agree on a text's characters filter it alike |
| Text.RemoveChar | WinAuth/AddBattleNetAuthenticator.cs:66-84 | `Replace(c, "")` leaves no `c`, and a text without `c` is unchanged |
| Text.RemoveCharAppend | WinAuth/AddBattleNetAuthenticator.cs:66-84 | removing a character distributes over concatenation |
| SecretText.Masked | WinAuth/SecretTextBox.cs:112-117 | the text the underlying box holds has the value's length, is all stars in secret mode, is the value itself otherwise, and is empty for null |
| SecretText.Stars | WinAuth/SecretTextBox.cs:115 | `new string('*', n)` is n stars |
| SecretText.SpacedChunk | WinAuth/SecretTextBox.cs:137-156 | chunk k of the value (k*n to (k+1)*n) sits at k*(n+1) in the painted text, followed by a space unless it is the last |
| SecretText.ChunkBeforeSuffix | WinAuth/SecretTextBox.cs:137-156 | wherever the spaced rest of the value follows, the next chunk starts there |
| SecretText.OffsetIsProduct | WinAuth/SecretTextBox.cs:140 | the loop index after k rounds is k*n |
| SecretText.SpacedChunkFrom | WinAuth/SecretTextBox.cs:137-156 | what follows chunk k of the painted text is the rest of the value, spaced |
| SecretText.SpacedHead | WinAuth/SecretTextBox.cs:146-153 | the painted text starts with the first chunk, followed by a space when more follows |
| SecretText.SpacedLength | WinAuth/SecretTextBox.cs:137-156 | the painted text holds the value's characters plus one space per chunk boundary |
| SecretText.SpacedRoundTrip | WinAuth/SecretTextBox.cs:137-156 | removing the spaces from the painted text gives the value back when it had none |
| SecretText.SpacedStep | WinAuth/SecretTextBox.cs:146-153 | one round of the paint loop appends the chunk at i and a space before the spaced rest |
| SecretText.SecretTextBox.constructor | WinAuth/SecretTextBox.cs:56-58 | a new box holds no value, no spacing and no saved font, and is not in secret mode |
| SecretText.SecretTextBox.GetText | WinAuth/SecretTextBox.cs:108-111 | the `Text` getter returns the stored value in secret mode and the underlying text otherwise |
| SecretText.SecretTextBox.SetText | WinAuth/SecretTextBox.cs:112-117 | the setter stores the value and shows its masked form, so the getter reads the value back (null reads as empty outside secret mode) |
| SecretText.SecretTextBox.SetSecretMode | WinAuth/SecretTextBox.cs:69-88 | secret mode disables the box and turns on user painting; the value is kept and re-masked; the font is captured once and restored when secret mode ends |
| SecretText.SecretTextBox.Paint | WinAuth/SecretTextBox.cs:124-161 | the paint loop draws the value cut into `SpaceOut` chunks joined by single spaces and trimmed, or the plain value when there is no spacing |
| HotKeys.HotKey.constructor | WinAuth/SetShortcutKeyForm.cs:144 | a new hot key has every field at its default: no key, no modifiers, the Notify action |
| ListItems.Protected | WinAuth/AuthenticatorListBox.cs:979-996 | relocking an item changes only its unlock count and protect calls; `Protect()` is called exactly when the last unlock of existing data is released |
| ListItems.Ticked | WinAuth/AuthenticatorListBox.cs:355-403 | an auto-refresh item only records the update time; a manual item whose reveal has expired loses its code and reveal; the unlock is released only for an Explicit password |
| ListItems.TickIdempotent | WinAuth/AuthenticatorListBox.cs:355-403 | ticking twice at the same instant is ticking once |
| ListItems.ClearedStaysCleared | WinAuth/AuthenticatorListBox.cs:380-401 | once an expired reveal is cleared, later ticks leave the item alone |
| ListItems.ClickedRefresh | WinAuth/AuthenticatorListBox.cs:436-455 | clicking the refresh icon reveals the code for ten seconds unless the unlock is cancelled, and never relocks |
| ListItems.ShownByMenu | WinAuth/AuthenticatorListBox.cs:1302-1320 | "Show Code" reveals the code for ten seconds unless the unlock is cancelled, in which case the item is unchanged; a code already on show with an unlock held keeps its unlock count and re-protects nothing (the extra unlock is dropped again); a code not on show holds one more unlock exactly when the unlock returned OK and re-protects nothing; the authenticator, index and drag state are kept |
| ListItems.RevealHoldsOneUnlock | WinAuth/AuthenticatorListBox.cs:1302-1320 | two reveals in a row hold exactly one unlock; when the reveal expires the unlock is released and the item is re-protected exactly once |
| ListItems.Bracketed | WinAuth/AuthenticatorListBox.cs:1694-1715 | an action bracketed by unlock and relock-if-OK leaves the unlock count as it was, and re-protects only when its unlock prompted and was answered OK |
| ListItems.PasswordSet | WinAuth/AuthenticatorListBox.cs:1275-1291 | a non-empty password makes the protection Explicit, turns auto-refresh off, clears the reveal and drops the unlock; an empty one removes the password; both mark the authenticator changed |
| ListItems.PasswordMenu | WinAuth/AuthenticatorListBox.cs:1256-1301 | a cancelled unlock changes nothing, and a dismissed password dialog leaves the settings and the unlock count as they were |
| ListItems.PasswordHidesCode | WinAuth/AuthenticatorListBox.cs:1256-1301 | after a new password is set, the code is hidden, auto-refresh is off, the protection is Explicit and no unlock is held |
| ListItems.ListItem.constructor | WinAuth/AuthenticatorListBox.cs:43-52 | a new item holds the authenticator and index, with no code, reveal, drag or unlock |
| ListItems.ListItem.Unprotect | WinAuth/AuthenticatorListBox.cs:935-973 | the item's unlock follows `Protection.Unlock` and returns its dialog result |
| ListItems.ListItem.ApplyPassword | WinAuth/AuthenticatorListBox.cs:1275-1291 | the item becomes `PasswordSet` of its old state |
| ListItems.ListItem.Reveal | WinAuth/AuthenticatorListBox.cs:436-455 | the code and its time are recorded and shown until ten seconds later; nothing else changes |
| ListItems.ListItem.SetDragging | WinAuth/AuthenticatorListBox.cs:54-89 | only the dragging flag changes |
| ListItems.ListItem.Protect | WinAuth/AuthenticatorListBox.cs:979-996 | the item becomes `Protected` of its old state |
| ListDisplay.SecondsIntoPeriod | WinAuth/AuthenticatorListBox.cs:1976 | for a non-negative server time, `(ServerTime % (Period*1000)) / 1000` with C#'s operators is the whole seconds into the current period, in 0..Period-1 |
| ListDisplay.ModOfThousands | WinAuth/AuthenticatorListBox.cs:1976 | taking the remainder in milliseconds and then dividing equals dividing first and then taking the remainder in seconds |
| ListDisplay.Arc | WinAuth/AuthenticatorListBox.cs:1976 | the pie angle is within half a degree-step of 360·seconds/period, lies in 0..360, and is exact when the period divides 360 |
| ListDisplay.ArcInRange | WinAuth/AuthenticatorListBox.cs:1976 | a rounded angle for a second inside the period lies in 0..360 |
| ListDisplay.ExactArc | WinAuth/AuthenticatorListBox.cs:1976 | when the period divides 360 the rounding is exact |
| ListDisplay.ArcOfThirtySeconds | WinAuth/AuthenticatorListBox.cs:1976 | a 30-second period fills the pie by 12 degrees a second, and half way it is half full |
| ListDisplay.SpaceCode | WinAuth/AuthenticatorListBox.cs:1942-1945 | codes longer than 5 characters get one space at the middle and are otherwise unchanged |
| ListDisplay.SpaceCodeRoundTrip | WinAuth/AuthenticatorListBox.cs:1942-1945 | removing the inserted space gives the code back |
| ListDisplay.DrawCode | WinAuth/AuthenticatorListBox.cs:1879-1955 | a row shows the spaced code exactly when the code is due and can be read; a manual reveal reuses the stored code; a changed auto-refresh code is copied exactly when copy-on-code is on |
| ListDisplay.RepaintCopiesOnce | WinAuth/AuthenticatorListBox.cs:1923-1941 | repainting an unchanged auto-refresh code copies nothing again |
| ListDisplay.ContextMenu | WinAuth/AuthenticatorListBox.cs:1165-1249 | the menu exists exactly for an item with data; auto-refresh can be changed exactly when the data is neither locked nor Explicit; "Show Code" is offered exactly without auto-refresh; the password item reads "Change" exactly for an Explicit password; HOTP, and only HOTP, hides auto-refresh and sync; the Steam secret is enabled exactly with Steam data; the title starts with the name, and is the name alone without a hot key |
| ListDisplay.PasswordDisablesAutoRefresh | WinAuth/AuthenticatorListBox.cs:1186-1243 | once a password is set, the menu no longer offers auto-refresh, offers "Show Code", and shows "Change Password" |
| AuthenticatorList.MaxTopIndex | WinAuth/AuthenticatorListBox.cs:589-614 | the deepest auto-scroll position is `Math.Max(count - visible + 1, 0)` |
| AuthenticatorList.AutoScroll | WinAuth/AuthenticatorListBox.cs:589-614 | a drag scrolls at most one row per step: down only at the bottom edge, up only at the top edge, only when due, and never outside 0..MaxTopIndex |
| AuthenticatorList.DropIndex | WinAuth/AuthenticatorListBox.cs:634-639 | a drop lands on the item under the mouse, or at the last position when there is none |
| AuthenticatorList.ListBox.Selected | WinAuth/AuthenticatorListBox.cs:849-863 | the current item is null exactly when the list is empty, and otherwise it is in the list |
| AuthenticatorList.ListBox.constructor | WinAuth/AuthenticatorListBox.cs:259 | a new list box is empty, with no current item, no drag, no events and no copies |
| AuthenticatorList.ListBox.GetCurrentItem | WinAuth/AuthenticatorListBox.cs:849-863 | the getter returns the current item, or the first item when none is current, and makes it current |
| AuthenticatorList.ListBox.SetCurrentItem | WinAuth/AuthenticatorListBox.cs:873-893 | the item under the mouse becomes current, clamped to the list, or null for an empty list |
| AuthenticatorList.ListBox.MouseDown | WinAuth/AuthenticatorListBox.cs:409-416 | the item under the mouse becomes current and the press location is recorded |
| AuthenticatorList.ListBox.MouseUp | WinAuth/AuthenticatorListBox.cs:422-470 | a left click on the refresh icon of a hidden manual item reveals its code and copies it if copy-on-code is on; a cancelled unlock keeps the drag state; every other release resets it |
| AuthenticatorList.ListBox.MouseMove | WinAuth/AuthenticatorListBox.cs:477-521 | a drag starts exactly when only the left button is down after a press, more than one item is listed and the mouse moved past the threshold; then the current item is the dragged one and marked dragging |
| AuthenticatorList.ListBox.QueryContinueDrag | WinAuth/AuthenticatorListBox.cs:564-618 | Escape, or the button released outside the box, cancels the drag and clears its state; otherwise the box auto-scrolls and remembers the top index |
| AuthenticatorList.ListBox.Reindex | WinAuth/AuthenticatorListBox.cs:645-648 | every item's index becomes its position and nothing else changes |
| AuthenticatorList.ListBox.MoveItem | WinAuth/AuthenticatorListBox.cs:641-648 | the list becomes `Moved(old, from, to)`, still without repeats and reindexed, and the items' other state is kept |
| AuthenticatorList.ListBox.DropItem | WinAuth/AuthenticatorListBox.cs:641-665 | the item moves to its target, stops dragging, one `Reordered` event fires, and the remembered top index is restored |
| AuthenticatorList.ListBox.DragDrop | WinAuth/AuthenticatorListBox.cs:624-678 | a drop of a list item moves it to `DropIndex` with everything `DropItem` promises; a drop of anything else changes nothing |
| AuthenticatorList.ListBox.Delete | WinAuth/AuthenticatorListBox.cs:1569-1587 | only a Yes answer deletes: the current item is removed at its index, an `ItemRemoved` event names it, the list is reindexed, and the item at the same index (clamped) becomes current; every remaining item keeps its state except its index, and the removed item's state is untouched |
| AuthenticatorList.ListBox.GetItemCode | WinAuth/AuthenticatorListBox.cs:1694-1715 | the code is returned unless the unlock is cancelled, and the unlock is released afterwards |
| AuthenticatorList.ListBox.ShowCode | WinAuth/AuthenticatorListBox.cs:1302-1320 | the current item becomes `ShownByMenu` of its old state |
| AuthenticatorList.ListBox.CopyCode | WinAuth/AuthenticatorListBox.cs:1321-1340 | unless the unlock is cancelled, the stored code is copied once and the unlock is released |
| AuthenticatorList.ListBox.SyncTime | WinAuth/AuthenticatorListBox.cs:1597-1619 | unless the unlock is cancelled, `Sync()` is called once and the unlock is released |
| AuthenticatorList.ListBox.EditShortcut | WinAuth/AuthenticatorListBox.cs:1348-1372 | unless the unlock is cancelled, the hot key is replaced exactly when the dialog returns OK, and the unlock is released |
| AuthenticatorList.ListBox.SetPassword | WinAuth/AuthenticatorListBox.cs:1256-1301 | the current item becomes `PasswordMenu` of its old state |
| AuthenticatorList.ListBox.ToggleAutoRefresh | WinAuth/AuthenticatorListBox.cs:1341-1347 | auto-refresh flips, the update time is recorded and any manual reveal ends |
| AuthenticatorList.ListBox.ToggleCopyOnCode | WinAuth/AuthenticatorListBox.cs:1373-1376 | only copy-on-code flips |
| AuthenticatorList.ListBox.SelectIcon | WinAuth/AuthenticatorListBox.cs:1620-1686 | the chosen leaf's tag becomes the skin, and the default leaf removes the skin |
| AuthenticatorList.ListBox.Tick | WinAuth/AuthenticatorListBox.cs:355-403 | every item becomes `Ticked` of its old state |
| AuthenticatorList.ListBox.DrawItem | WinAuth/AuthenticatorListBox.cs:1879-1955 | a row being dragged draws nothing; any other row draws what `DrawCode` gives, stores its code and records its copy |
| AuthenticatorList.MovedKeepsItems | WinAuth/AuthenticatorListBox.cs:641-642 | moving an item keeps the list free of repeats and holding the same items |
| AuthenticatorList.NoDuplicateInMultiset | WinAuth/AuthenticatorListBox.cs:641-642 | a list without repeats holds each item at most once |
| IconMenu.Put | WinAuth/AuthenticatorListBox.cs:1095-1142 | an entry goes into the open group, or at the top level before any group |
| IconMenu.AddIcon | WinAuth/AuthenticatorListBox.cs:1095-1142 | one step of the builder keeps groups one level deep and numbers exactly the leaf entries |
| IconMenu.Fold | WinAuth/AuthenticatorListBox.cs:1095-1142 | the builder loop keeps groups one level deep |
| IconMenu.BuildIconMenu | WinAuth/AuthenticatorListBox.cs:1086-1146 | the icon sub-menu starts with the default leaf and a separator and ends with "Other...", and its groups hold no groups |
| IconMenu.FoldKeepsPrefix | WinAuth/AuthenticatorListBox.cs:1095-1142 | the builder never touches the default leaf and its separator |
| IconMenu.LeavesAppend | WinAuth/AuthenticatorListBox.cs:1095-1142 | the leaves of two menus in sequence are the leaves of each in turn |
| IconMenu.PutLeaves | WinAuth/AuthenticatorListBox.cs:1095-1142 | adding an entry adds its leaf at the end of the leaf order |
| IconMenu.FoldLeaves | WinAuth/AuthenticatorListBox.cs:1095-1142 | the loop adds one leaf per leaf entry, numbered on from the counter and tagged with the entry's file |
| IconMenu.BuiltLeaves | WinAuth/AuthenticatorListBox.cs:1086-1146 | the leaves of the menu are the default, the table's leaves numbered 1, 2, ... in order, and "Other..." |
| IconMenu.ExpectedNumbers | WinAuth/AuthenticatorListBox.cs:1095-1142 | the numbers handed out run consecutively without gaps |
| IconMenu.IconChecks | WinAuth/AuthenticatorListBox.cs:1212 | only top-level leaves are updated, and a checked leaf's tag is the skin (empty for no skin) |
| IconMenu.SkinFromTag | WinAuth/AuthenticatorListBox.cs:1683 | a click sets the leaf's tag as the skin, and the default leaf removes the skin |
| IconMenu.ChosenIconIsChecked | WinAuth/AuthenticatorListBox.cs:1212 | after a top-level leaf is chosen, the next time the menu opens it is checked, together with exactly the leaves of the same tag |
| IconMenu.IconChecksAt | WinAuth/AuthenticatorListBox.cs:1212 | each top-level leaf is checked exactly when its tag matches the skin |
| GroupRadio.UnchecksLeavesOne | WinAuth/GroupRadioButton.cs:113-122 | after a button is checked it is the only checked button of its group on the form, and nothing was newly checked |
| GroupRadio.UnchecksNothingUnlessChecked | WinAuth/GroupRadioButton.cs:113-122 | the change event of a button being unchecked changes nothing |
| GroupRadio.ControlTree.FormFrom | WinAuth/GroupRadioButton.cs:125-133 | what the parent search finds is a form |
| GroupRadio.ControlTree.FindParentForm | WinAuth/GroupRadioButton.cs:125-133 | the loop climbing parent links finds the nearest form above the button, or null |
| GroupRadio.ControlTree.CollectOnlyRadios | WinAuth/GroupRadioButton.cs:135-151 | only radio buttons are collected |
| GroupRadio.ControlTree.DirectRadiosCollected | WinAuth/GroupRadioButton.cs:135-151 | a radio button placed directly on a control is collected, and so is everything collected for it |
| GroupRadio.ControlTree.FindAllControls | WinAuth/GroupRadioButton.cs:135-151 | the recursive search returns the radio buttons under the control in order, descending only into radio buttons |
| GroupRadio.ControlTree.UncheckOthers | WinAuth/GroupRadioButton.cs:116-122 | the loop unchecks every other checked button of the group when the sender is checked, and nothing else |
| GroupRadio.ControlTree.OnCheckedChanged | WinAuth/GroupRadioButton.cs:103-123 | an ungrouped button changes nothing; a grouped one without a form throws and changes nothing; otherwise the other buttons of its group on its form are unchecked |
| ShortcutKey.Compose | WinAuth/SetShortcutKeyForm.cs:149-161 | the toggles build modifiers made only of the Shift, Control and Alt flags |
| ShortcutKey.DecodeCompose | WinAuth/SetShortcutKeyForm.cs:107-109 | the toggles read back as they were set |
| ShortcutKey.ComposeDecode | WinAuth/SetShortcutKeyForm.cs:149-161 | modifiers made only of the three flags are rebuilt exactly from the toggles they set |
| ShortcutKey.KeyItemText | WinAuth/SetShortcutKeyForm.cs:50-53 | a key item shows its enum name without the three-character prefix, and a shorter name throws |
| ShortcutKey.KeyItemTextDropsPrefix | WinAuth/SetShortcutKeyForm.cs:50-53 | `VK_X` is listed as `X` |
| ShortcutKey.KeyList | WinAuth/SetShortcutKeyForm.cs:83-94 | only codes from the space bar up are listed |
| ShortcutKey.KeyListHasAll | WinAuth/SetShortcutKeyForm.cs:83-94 | every code from the space bar up is listed |
| ShortcutKey.LastMatch | WinAuth/SetShortcutKeyForm.cs:89-102 | the selection is the last listed item with the hot key's code, or "None" when no item has it |
| ShortcutKey.ApplyAction | WinAuth/SetShortcutKeyForm.cs:174-197 | the first checked action button sets the action, with the window only for Inject and the script only for Advanced; with none checked the hot key is left alone |
| ShortcutKey.OkNoneClears | WinAuth/SetShortcutKeyForm.cs:137-141 | choosing "None" removes the shortcut and closes the form |
| ShortcutKey.OkOutcome | WinAuth/SetShortcutKeyForm.cs:135-199 | a changed key or modifiers that are not available keep the form open and leave the hot key; otherwise it takes the key, modifiers and action |
| ShortcutKey.LoadThenOk | WinAuth/SetShortcutKeyForm.cs:74-199 | opening the form on a hot key and pressing OK keeps its key, modifiers and action, and normalises the window or script |
| ShortcutKey.ShortcutForm.constructor | WinAuth/SetShortcutKeyForm.cs:64-67 | a new form edits the given hot key, with nothing loaded |
| ShortcutKey.ShortcutForm.SelectedKey | WinAuth/SetShortcutKeyForm.cs:137 | a selected key other than "None" is one of the listed keys |
| ShortcutKey.ShortcutForm.Load | WinAuth/SetShortcutKeyForm.cs:74-128 | the combo lists the keys and selects the hot key's; the toggles and action buttons show the hot key; without a hot key "None" is selected, which clears the modifier toggles and disables the four action radio buttons, and the checked actions and texts are left |
| ShortcutKey.ShortcutForm.LoadKeys | WinAuth/SetShortcutKeyForm.cs:80-102 | the loop fills the combo box with `KeyList` and selects `LastMatch`, which is the hot key's code whenever it is listed; the selection raises `keyCombo_SelectedIndexChanged`, so with "None" selected the toggles are cleared and the action buttons disabled, and with a key they are enabled |
| ShortcutKey.ShortcutForm.LoadHotKey | WinAuth/SetShortcutKeyForm.cs:105-126 | the controls show the hot key's modifiers and action, and every action button is enabled |
| ShortcutKey.ShortcutForm.ShowAction | WinAuth/SetShortcutKeyForm.cs:111-125 | exactly the button of the hot key's action is checked, and only its text box is filled and enabled |
| ShortcutKey.ShortcutForm.ShowModifiers | WinAuth/SetShortcutKeyForm.cs:107-109 | each toggle is checked exactly when its flag is set |
| ShortcutKey.ShortcutForm.OkClick | WinAuth/SetShortcutKeyForm.cs:135-199 | the hot key becomes what `OkEffect` gives; a refusal shows one error and keeps the form open; an existing hot key is updated in place and a new one is fresh |
| ShortcutKey.ShortcutForm.AssignKey | WinAuth/SetShortcutKeyForm.cs:149-197 | the existing hot key becomes what `Assign` gives |
| ShortcutKey.ShortcutForm.ApplyActionTo | WinAuth/SetShortcutKeyForm.cs:174-197 | the hot key's action becomes `ApplyAction` of the choices |
| ShortcutKey.ShortcutForm.KeyChanged | WinAuth/SetShortcutKeyForm.cs:206-228 | "None" clears the toggles and disables the action buttons; any key enables them and keeps the toggles |
| ShortcutKey.ShortcutForm.InjectChanged | WinAuth/SetShortcutKeyForm.cs:235-238 | the window box is enabled exactly when Inject is checked |
| ShortcutKey.ShortcutForm.AdvancedChanged | WinAuth/SetShortcutKeyForm.cs:245-248 | the script box is enabled exactly when Advanced is checked |
| Export.ValidateAccepts | WinAuth/ExportForm.cs:171-196 | the dialog accepts exactly an export with a file, a non-blank matching password when one is asked for, and a key when PGP is asked for |
| Export.ValidateOrder | WinAuth/ExportForm.cs:171-196 | each error is reported exactly when its own check fails and all earlier checks pass |
| Export.OkOutcome | WinAuth/ExportForm.cs:168-208 | OK closes exactly when the export is acceptable and then sets the file, and the password or key that is asked for; otherwise it shows one error and sets nothing |
| Export.PasswordKeptAsTyped | WinAuth/ExportForm.cs:171-207 | the password is kept untrimmed, and a verification that differs only in spaces is refused |
| Export.DigitsRoundTrip | WinAuth/ExportForm.cs:139-153 | the zero-padded digits have the given width and read back as the number |
| Export.FormatDateRoundTrip | WinAuth/ExportForm.cs:139-153 | `yyyy-MM-dd` has ten characters, with dashes at 4 and 7, and reads back as the date |
| Export.ProposedName | WinAuth/ExportForm.cs:134-161 | the proposed name is "winauth-", the date and .zip for a password, .pgp for a key or .txt otherwise; the password wins when both boxes are checked |
| Export.ExportForm.constructor | WinAuth/ExportForm.cs:34-52 | a new dialog has no box checked, nothing typed and no property set |
| Export.ExportForm.PasswordCheckedChanged | WinAuth/ExportForm.cs:77-90 | checking the password box unchecks PGP, and the password fields follow the box |
| Export.ExportForm.PgpCheckedChanged | WinAuth/ExportForm.cs:97-109 | checking the PGP box unchecks the password, and the key field follows the box |
| Export.ExportForm.ClickPasswordBox | WinAuth/ExportForm.cs:77-90 | a click flips the password box, keeps at most one protection checked, and keeps each field enabled exactly with its box |
| Export.ExportForm.ClickPgpBox | WinAuth/ExportForm.cs:97-109 | a click flips the PGP box, keeps at most one protection checked, and keeps each field enabled exactly with its box |
| Export.ExportForm.PgpBrowseClick | WinAuth/ExportForm.cs:116-127 | a chosen key file's text fills the key field, and a cancelled dialog leaves it |
| Export.ExportForm.BrowseClick | WinAuth/ExportForm.cs:134-161 | the save dialog is opened with the proposed name, and the chosen file fills the field |
| Export.ExportForm.OkClick | WinAuth/ExportForm.cs:168-208 | the properties and the dialog result become what `OkEffect` gives |
| Passwords.UnprotectOutcomeFacts | WinAuth/UnprotectPasswordForm.cs:66-101 | the form closes exactly when a non-empty password unprotects, marks the authenticator changed only when that changed it, and shows the right message otherwise |
| Passwords.EmptyPasswordNeverUnprotects | WinAuth/UnprotectPasswordForm.cs:69-77 | an empty password is refused before `Unprotect` is called |
| Passwords.UnprotectPasswordForm.OkClick | WinAuth/UnprotectPasswordForm.cs:66-101 | the label, the changed mark and the dialog result follow `UnprotectEffect` |
| Passwords.UnprotectPasswordForm.TimerTick | WinAuth/UnprotectPasswordForm.cs:108-112 | the tick hides the label and stops the timer |
| Passwords.SetPasswordOutcome | WinAuth/SetPasswordForm.cs:71-86 | the form closes exactly when the trimmed entries match, and then sets the trimmed password; otherwise it reports the mismatch and sets nothing |
| Passwords.BlankPasswordIsAccepted | WinAuth/SetPasswordForm.cs:71-86 | two blank entries are accepted and set the empty password |
| Passwords.MaskHidesUnlessShown | WinAuth/SetPasswordForm.cs:48-64 | the fields are masked exactly when "show" is unchecked |
| Passwords.SetPasswordForm.ShowChanged | WinAuth/SetPasswordForm.cs:48-64 | both fields get the same mask, which reveals them exactly when the box is checked |
| Passwords.SetPasswordForm.OkClick | WinAuth/SetPasswordForm.cs:71-86 | the label, the password and the dialog result follow `SetPasswordEffect` |
| Passwords.SetPasswordForm.TimerTick | WinAuth/SetPasswordForm.cs:93-98 | the tick hides and empties the label and stops the timer |
| Passwords.GetPasswordOutcome | WinAuth/GetPasswordForm.cs:72-86 | the form closes exactly when the password is non-empty, and keeps it as typed |
| Passwords.SpacesAreAPassword | WinAuth/GetPasswordForm.cs:72-86 | a password of spaces is accepted here as typed, while the same entries set the empty password in the set-password dialog |
| Passwords.GetPasswordForm.Load | WinAuth/GetPasswordForm.cs:50-65 | a failed previous attempt is reported as soon as the form opens |
| Passwords.GetPasswordForm.OkClick | WinAuth/GetPasswordForm.cs:72-86 | the label, the password and the dialog result follow `GetPasswordEffect` |
| Passwords.GetPasswordForm.TimerTick | WinAuth/GetPasswordForm.cs:93-97 | the tick hides the label and stops the timer |
| Passwords.PgpKeyOutcome | WinAuth/GetPGPKeyForm.cs:86-97 | the form closes exactly when a key was given, and then sets the key and pass phrase as typed |
| Passwords.GetPGPKeyForm.constructor | WinAuth/GetPGPKeyForm.cs:41-46 | both properties stay null until OK succeeds |
| Passwords.GetPGPKeyForm.BrowseClick | WinAuth/GetPGPKeyForm.cs:68-79 | a chosen key file's text fills the key field, and a cancelled dialog leaves it |
| Passwords.GetPGPKeyForm.OkClick | WinAuth/GetPGPKeyForm.cs:86-97 | the properties and the dialog result follow `PgpKeyEffect` |
| GoogleEnrol.IndexFrom | WinAuth/AddGoogleAuthenticator.cs:297 | the search finds the first occurrence of the character from the index, or reports that there is none |
| GoogleEnrol.IndexFromIs | WinAuth/AddGoogleAuthenticator.cs:297 | the search finds the first occurrence and no other |
| GoogleEnrol.LineEnd | WinAuth/AddGoogleAuthenticator.cs:297 | `.*` stops at the next line break, or at the end |
| GoogleEnrol.MatchAtOccurs | WinAuth/AddGoogleAuthenticator.cs:297 | what the pattern matches at an index is a well-formed key URI written at that index |
| GoogleEnrol.FirstMatch | WinAuth/AddGoogleAuthenticator.cs:297 | `Regex.Match` finds the leftmost index where the pattern matches |
| GoogleEnrol.FindKeyUri | WinAuth/AddGoogleAuthenticator.cs:297-298 | a match succeeds exactly when the pattern matches somewhere |
| GoogleEnrol.FoundKeyUriOccurs | WinAuth/AddGoogleAuthenticator.cs:297-300 | the groups found form a key URI written at the leftmost index where one starts |
| GoogleEnrol.KeyUriRoundTrip | WinAuth/AddGoogleAuthenticator.cs:297-313 | a written key URI is read back as the type, label and query it was written from |
| GoogleEnrol.MatchAtParts | WinAuth/AddGoogleAuthenticator.cs:297 | a text laid out as the groups of a URI matches at its start with those groups |
| GoogleEnrol.NoKeyUriWithoutColon | WinAuth/AddGoogleAuthenticator.cs:297 | a text without `:` holds no key URI |
| GoogleEnrol.Candidate | WinAuth/AddGoogleAuthenticator.cs:297-315 | only a non-TOTP key URI is refused; a URI's label names the authenticator; a plain text is its own candidate |
| GoogleEnrol.Judge | WinAuth/AddGoogleAuthenticator.cs:222-350 | empty input does nothing; a non-TOTP URI is refused; an accepted secret is made of letters and digits, is non-empty and enrols |
| GoogleEnrol.Enrol | WinAuth/AddGoogleAuthenticator.cs:318-347 | a filtered secret is refused exactly when it is empty or `Enroll` throws, and is otherwise accepted as it is |
| GoogleEnrol.KeyUriEnrolsItsSecret | WinAuth/AddGoogleAuthenticator.cs:297-323 | a TOTP key URI enrols the letters and digits of its `secret` parameter, and its label names the authenticator |
| GoogleEnrol.PlainKeyEnrolsItself | WinAuth/AddGoogleAuthenticator.cs:318-328 | a bare key of letters and digits is enrolled as it is, and the name is left alone |
| GoogleEnrol.GroupedIsSpaced | WinAuth/AddGoogleAuthenticator.cs:334 | `Regex.Replace(key, ".{3}", "$0 ")` on one line is the secret text box's chunking by three, plus a trailing space when the last group is full |
| GoogleEnrol.GroupedShort | WinAuth/AddGoogleAuthenticator.cs:334 | fewer than three characters are left as they are |
| GoogleEnrol.SpacedEnds | WinAuth/AddGoogleAuthenticator.cs:334 | the chunked key starts and ends with the key's first and last characters |
| GoogleEnrol.DisplayedKeyRoundTrip | WinAuth/AddGoogleAuthenticator.cs:333-334 | the encoded key is shown in groups of three separated by single spaces, and removing the spaces gives it back |
| GoogleEnrol.TrimSpacedKey | WinAuth/AddGoogleAuthenticator.cs:334 | trimming the grouped key removes exactly its trailing space |
| GoogleEnrol.AlphanumericIsVisible | WinAuth/AddGoogleAuthenticator.cs:318 | letters and digits are neither line breaks nor white space |
| GoogleEnrol.VerifyClickIsOkWithoutClosing | WinAuth/AddGoogleAuthenticator.cs:116-151 | the Verify button changes the fields exactly as OK does, and a blank secret is an error |
| GoogleEnrol.VerifyFollowsJudge | WinAuth/AddGoogleAuthenticator.cs:222-350 | verification does what the verdict says: on success it stores the enrolment, shows the progress, the grouped key and the code; on failure it keeps them and shows the one error; a key URI's label renames |
| GoogleEnrol.EnrolEffectFollowsEnrol | WinAuth/AddGoogleAuthenticator.cs:318-347 | enrolling on the fields does what `Enrol` says and leaves the names alone |
| GoogleEnrol.VerifyWarnsOnce | WinAuth/AddGoogleAuthenticator.cs:337-341 | the sync warning is shown at most once per form |
| GoogleEnrol.EnrolWarnsOnce | WinAuth/AddGoogleAuthenticator.cs:337-341 | enrolling keeps the sync warning shown at most once |
| GoogleEnrol.OkClosesOnlyWhenShown | WinAuth/AddGoogleAuthenticator.cs:116-135 | OK closes exactly when a non-blank secret verifies while a code was already on screen |
| GoogleEnrol.SecondClickEnrolsShownKey | WinAuth/AddGoogleAuthenticator.cs:116-135 | the first OK shows the enrolled key and keeps the form open; the second OK enrols the key on screen and closes exactly when that succeeds |
| GoogleEnrol.ShownKeyJudged | WinAuth/AddGoogleAuthenticator.cs:334 | the key on screen reads back through the same judgement as the key it shows |
| GoogleEnrol.ShownKeyIsVisible | WinAuth/AddGoogleAuthenticator.cs:334 | the shown key has no `:`, so it is never taken for a key URI |
| GoogleEnrol.ShownKeyReadsBack | WinAuth/AddGoogleAuthenticator.cs:318-334 | filtering the shown key back to letters and digits gives the key |
| GoogleEnrol.SpacedChars | WinAuth/AddGoogleAuthenticator.cs:334 | the grouped key holds only the key's characters and spaces |
| GoogleEnrol.GoogleForm.constructor | WinAuth/AddGoogleAuthenticator.cs:62-66 | a new form has no enrolment, no progress, no warning and no error |
| GoogleEnrol.GoogleForm.Load | WinAuth/AddGoogleAuthenticator.cs:62-66 | the name field shows the name and the code box is secret, with its value kept |
| GoogleEnrol.GoogleForm.Verify | WinAuth/AddGoogleAuthenticator.cs:222-350 | the fields and the result become what `VerifyEffect` gives |
| GoogleEnrol.GoogleForm.EnrolSecret | WinAuth/AddGoogleAuthenticator.cs:318-347 | the fields and the result become what `EnrolEffect` gives |
| GoogleEnrol.GoogleForm.OkClick | WinAuth/AddGoogleAuthenticator.cs:116-135 | the fields and the dialog result become what `OkEffect` gives |
| GoogleEnrol.GoogleForm.VerifyClick | WinAuth/AddGoogleAuthenticator.cs:142-151 | the fields become what `VerifyClickEffect` gives |
| GoogleEnrol.GoogleForm.CancelClick | WinAuth/AddGoogleAuthenticator.cs:91-109 | the dialog result is `CancelResult` of whether an authenticator was enrolled |
| GoogleEnrol.GoogleForm.Tick | WinAuth/AddGoogleAuthenticator.cs:73-84 | with an enrolment on screen, the progress is the step plus one, within 1..30, and the code is refreshed exactly when a step starts; otherwise nothing changes |
| BattleNetEnrol.RemoveZeroX | WinAuth/AddBattleNetAuthenticator.cs:252 | removing `0x` prefixes never lengthens the key |
| BattleNetEnrol.CleanHex | WinAuth/AddBattleNetAuthenticator.cs:252-253 | the cleaned key is made only of hexadecimal digits |
| BattleNetEnrol.RemoveZeroXWithoutX | WinAuth/AddBattleNetAuthenticator.cs:252 | a key without `x` has nothing to remove |
| BattleNetEnrol.CleanHexOfHex | WinAuth/AddBattleNetAuthenticator.cs:252-253 | a key that is already hexadecimal is kept as it is |
| BattleNetEnrol.Listing | WinAuth/AddBattleNetAuthenticator.cs:252-253 | a non-empty listing of bytes starts with `0x` |
| BattleNetEnrol.CleanHexOfListing | WinAuth/AddBattleNetAuthenticator.cs:252-253 | cleaning a listing `0x7B, 0x0B, ...` gives its bytes' digits written out |
| BattleNetEnrol.CleanHexStep | WinAuth/AddBattleNetAuthenticator.cs:252-253 | one byte of a listing: its `0x` goes, its digits stay and its separator is dropped |
| BattleNetEnrol.RemoveZeroXSafePrefix | WinAuth/AddBattleNetAuthenticator.cs:252 | a prefix that cannot form `0x` with what follows is left alone |
| BattleNetEnrol.ImportKey | WinAuth/AddBattleNetAuthenticator.cs:262-274 | a key of exactly 40 digits imports under the fixed serial; a longer one imports exactly when its secret data parses, and takes its serial or the fixed one; an import succeeds only when the sync does |
| BattleNetEnrol.VerifyOutcome | WinAuth/AddBattleNetAuthenticator.cs:209-286 | the name is always taken from the field; a failure keeps the authenticator and shows exactly one error; a success shows none, and only the restore and import tabs change the authenticator |
| BattleNetEnrol.CreateTabNeedsAuthenticator | WinAuth/AddBattleNetAuthenticator.cs:213-220 | the create tab succeeds exactly when an authenticator was created |
| BattleNetEnrol.RestoreTab | WinAuth/AddBattleNetAuthenticator.cs:221-242 | a blank serial or restore code is an error; otherwise the restore tab succeeds exactly when the restore does, and stores its result |
| BattleNetEnrol.ImportTab | WinAuth/AddBattleNetAuthenticator.cs:243-283 | a blank key and a key under 40 digits are errors; otherwise the import succeeds exactly when `ImportKey` does, storing the cleaned digits and a non-empty serial |
| BattleNetEnrol.ImportListing | WinAuth/AddBattleNetAuthenticator.cs:252-258 | a key pasted as a byte listing imports as the same key written out |
| BattleNetEnrol.ListingIsTrimmed | WinAuth/AddBattleNetAuthenticator.cs:249-253 | trimming leaves a byte listing alone |
| BattleNetEnrol.ConcatOfHex | WinAuth/AddBattleNetAuthenticator.cs:252-253 | the written-out bytes are hexadecimal digits |
| BattleNetEnrol.BattleNetForm.constructor | WinAuth/AddBattleNetAuthenticator.cs:52-59 | a new form has no authenticator, no progress and no error |
| BattleNetEnrol.BattleNetForm.Load | WinAuth/AddBattleNetAuthenticator.cs:52-59 | the name field shows the name and the three boxes of the new authenticator are secret, with their values kept |
| BattleNetEnrol.BattleNetForm.AllowCopyChanged | WinAuth/AddBattleNetAuthenticator.cs:66-84 | allowing copy reveals the three boxes, and shows the serial without dashes so it can be pasted |
| BattleNetEnrol.BattleNetForm.Tick | WinAuth/AddBattleNetAuthenticator.cs:91-102 | with an authenticator and the progress shown, the progress is the step plus one, within 1..30, and the code is refreshed exactly when a step starts |
| BattleNetEnrol.BattleNetForm.CancelClick | WinAuth/AddBattleNetAuthenticator.cs:109-127 | the dialog result is `CancelResult` of whether an authenticator was created |
| BattleNetEnrol.BattleNetForm.Verify | WinAuth/AddBattleNetAuthenticator.cs:209-286 | the name, the authenticator, the errors and the result become what `VerifyEffect` gives |
| BattleNetEnrol.BattleNetForm.OkClick | WinAuth/AddBattleNetAuthenticator.cs:134-140 | OK closes exactly when verification succeeds, with the fields as `VerifyEffect` gives |
| TrionEnrol.QuestionsOutcome | WinAuth/AddTrionAuthenticator.cs:94-119 | fetching the questions never touches the authenticator; it asks only for a non-blank email and password, and then shows the questions it gets (null as empty) or one error |
| TrionEnrol.RestoreNeeds | WinAuth/AddTrionAuthenticator.cs:247-280 | the restore tab succeeds exactly with a first question on screen, a non-blank device id, both answers when there is a second question, and a successful restore, which is stored |
| TrionEnrol.FirstOkFetchesQuestions | WinAuth/AddTrionAuthenticator.cs:248-252 | without a first question, OK fetches the questions, keeps the form open and ignores the answers |
| TrionEnrol.AnswersAreNotTrimmed | WinAuth/AddTrionAuthenticator.cs:254-263 | answers are taken as typed: an answer of spaces passes the check that an empty one fails |
| TrionEnrol.VerifyOutcome | WinAuth/AddTrionAuthenticator.cs:236-284 | a failure keeps the authenticator; a success shows no error and keeps the labels; the create tab succeeds exactly when an authenticator exists |
| TrionEnrol.TrionForm.constructor | WinAuth/AddTrionAuthenticator.cs:51-58 | a new form has no authenticator, no questions and no error |
| TrionEnrol.TrionForm.Load | WinAuth/AddTrionAuthenticator.cs:51-58 | the name field shows the name and the three boxes are secret, with their values kept |
| TrionEnrol.TrionForm.AllowCopyChanged | WinAuth/AddTrionAuthenticator.cs:65-70 | allowing copy reveals the serial and restore boxes, and the login code box is left alone |
| TrionEnrol.TrionForm.Tick | WinAuth/AddTrionAuthenticator.cs:77-87 | with an authenticator, the code is refreshed exactly when a step starts |
| TrionEnrol.TrionForm.CancelClick | WinAuth/AddTrionAuthenticator.cs:126-144 | the dialog result is `CancelResult` of whether an authenticator was created |
| TrionEnrol.TrionForm.GetQuestionsClick | WinAuth/AddTrionAuthenticator.cs:94-119 | the questions and errors become what `QuestionsEffect` gives |
| TrionEnrol.TrionForm.Verify | WinAuth/AddTrionAuthenticator.cs:236-284 | the authenticator, the questions, the errors and the result become what `VerifyEffect` gives |
| TrionEnrol.TrionForm.OkClick | WinAuth/AddTrionAuthenticator.cs:151-157 | OK closes exactly when verification succeeds, with the fields as `VerifyEffect` gives |

## Left out

- Rendering (`OnPaint` drawing, `OnDrawItem` layout, the label width `GetMaxAvailableLabelWidth` leaves it, `tabControl1_DrawItem`, fonts and brushes), Win32 plumbing, tooltips, `Focus()`, `TopMost`/`Activate` and window captions: they are presentation only. The model keeps the text each control would show.
- Localised captions and message texts: errors are datatype values, and the texts themselves are resources outside these files.
- Dialog boxes, the clipboard, `Enroll`, `Restore`, `SecurityQuestions`, `Sync`, `Protect`/`Unprotect` on the secret data, `IsHotkeyAvailable`, `ParseQueryString`, Base32 encoding, file dialogs and the clock: these call code outside these files. Their answers are parameters, and copies and syncs are counted.
- `RequiresPassword` after `Protect()`/`Unprotect()`: `Authenticator.cs` is not part of this model. Calls of `Protect()` are counted and the flag is left unchanged.
- The QR-code image, data-URL and `http(s)://` download branches of the Google dialog's `verifyAuthenticator` (lines 236-294): they decode images and fetch from the network. The model starts from the text those branches leave.
- `enrollAuthenticatorButton_Click` and `clearAuthenticator` of the Battle.net and Trion dialogs: they enrol over the network with retries and dialogs. The model takes the created authenticator as state.
- The icon radio buttons and icon click handlers of the enrolment dialogs: each one assigns a fixed skin string.
- The "Other..." icon entry (a file chooser that loads an image) and the rename menu with its in-place text box: they are UI flows with no logic to check.
- `HotKey.ToString()` in the menu title: `HotKey.cs` is not part of this model. The title takes the hot key's text as a parameter.
- Culture-sensitive `string.Compare(a, b, true)` and `RegexOptions.IgnoreCase`: these are modelled with ASCII case folding.
- Export.Validate: the case-sensitive `string.Compare(passwordField.Text, verifyField.Text)` (WinAuth/ExportForm.cs:177) is culture-sensitive too, and is modelled as ordinal `!=`. Texts that differ only by code points the culture ignores, such as the soft hyphen U+00AD, are refused by the model where the source accepts them. Culture tables are outside the model.
- Export.FormatDate: `DateTime.Today.ToString("yyyy-MM-dd")` (WinAuth/ExportForm.cs:142-152) uses the current culture's calendar. The model writes the Gregorian date, which is what a culture with a Gregorian calendar produces.
- `String.Trim` is modelled with the Unicode White_Space set that `Char.IsWhiteSpace` uses. No normalisation or encoding is modelled.
- The decimal pie arc: the model computes the rounded angle exactly. It also does not model that `Tick` computes an arc it then discards.
- Time: each event takes one `now`, where the source reads `DateTime.Now` several times.
- ServerTime is a `nat`: the model does not cover negative server times.
- Uncaught exceptions from the services are not modelled. The only exception kept is `OnCheckedChanged` on a button that is on no form.
- AuthenticatorList.ListBox.Delete, ShowCode, CopyCode, SyncTime, EditShortcut, SetPassword, ToggleAutoRefresh, ToggleCopyOnCode and SelectIcon: these require a non-empty list. On an empty list `ProcessMenu` dereferences a null current item and throws.
- AuthenticatorList.ListBox.MouseUp: the model takes the hit test (`IndexFromPoint`, the refresh-icon rectangle) as input.
- SecretText.SecretTextBox.Paint: requires a non-negative `SpaceOut`. With a negative one the loop index goes below zero and `Substring` throws.
- GroupRadio.ControlTree.OnCheckedChanged: the base `RadioButton`'s own auto-check of its siblings is not modelled.
- The `Mask` of the password fields: it records only the two properties the handler sets.
- The error label and its timer are one `Notice` value.
- The designer's initial values: the constructors state the values the model starts from, not those of the designer files.
- `WinAuthMain`, `ShowSteamSecretForm` and `ShowTrionSecretForm` are not part of this model.

## Findings

| source | as written | input that shows it | evidently intended | confidence | as-written member | corrected member |
|---|---|---|---|---|---|---|
| WinAuth/AddGoogleAuthenticator.cs:77 | `(int)(ServerTime / 1000L) % 30` casts the second count to 32 bits before the remainder is taken. The same line appears at AddBattleNetAuthenticator.cs:95 and AddTrionAuthenticator.cs:81. | ServerTime = 2^31 × 1000 ms (19 January 2038, 03:14:08 UTC): the cast wraps to -2^31, the step is -8, and the progress value is -7 instead of a value in 1..30 | the step position within the 30-second period, `(ServerTime / 1000L) % 30` on the `long`, always in 0..29 | high (not executed) | Enrolment.StepAsWrittenWrapsIn2038 | GoogleEnrol.GoogleForm.Tick |

All three dialogs' timers (`GoogleEnrol.GoogleForm.Tick`, `BattleNetEnrol.BattleNetForm.Tick`,
`TrionEnrol.TrionForm.Tick`) use the corrected `Enrolment.Step`.
