/** One row of the authenticator list box (`AuthenticatorListitem`) and
    what the list box's handlers do to it, stated on a snapshot of its
    fields. Times are milliseconds; `DateTime.MinValue`, the "never" the
    source stores in `LastUpdate` and `DisplayUntil`, is `None`. */
module ListItems {
  import opened Wrappers
  import opened Forms
  import opened HotKeys
  import Protection

  /** `Authenticator.PasswordTypes` as the list box tests it: only "exactly
      Explicit" matters, every other combination is `OtherEncryption`. */
  datatype PasswordType = Unencrypted | Explicit | OtherEncryption

  /** The run-time class of `AuthenticatorData`, as the context menu tests it. */
  datatype AuthKind = Google | Hotp | BattleNet | Trion | Steam(steamData: Option<string>) | OtherKind

  /** The parts of `AuthenticatorData` the list box reads. */
  datatype AuthData = AuthData(kind: AuthKind, requiresPassword: bool, passwordType: PasswordType,
                               period: int, serverTime: int)

  /** `WinAuthAuthenticator`: the settings the list box reads and changes.
      `changed` records `MarkChanged()`. */
  datatype Authenticator = Authenticator(name: string, data: Option<AuthData>, autoRefresh: bool,
                                         copyOnCode: bool, skin: Option<string>, hotKey: HotKey?,
                                         changed: bool)

  /** How long a manual reveal shows the code: `DateTime.Now.AddSeconds(10)`. */
  const RevealMillis: int := 10000

  /** The authenticator has data and the data is locked behind a password:
      the case in which `UnprotectAuthenticator` prompts. */
  predicate Guarded(a: Authenticator) {
    a.data.Some? && a.data.value.requiresPassword
  }

  /** The data's password type is exactly Explicit. */
  predicate IsExplicit(a: Authenticator) {
    a.data.Some? && a.data.value.passwordType == Explicit
  }

  /** The fields of an `AuthenticatorListitem`. `protectCalls` counts the
      calls of `AuthenticatorData.Protect()` made for this item. */
  datatype ItemState = ItemState(index: int, auth: Authenticator, lastUpdate: Option<int>,
                                 displayUntil: Option<int>, lastCode: Option<string>, dragging: bool,
                                 unprotectCount: int, protectCalls: nat)

  /** A manual reveal whose time is up at `now` (`DisplayUntil <= Now`). */
  predicate Expired(s: ItemState, now: int) {
    s.displayUntil.Some? && s.displayUntil.value <= now
  }

  /** The item after `UnprotectAuthenticator`. */
  function Unprotected(s: ItemState, prompt: DialogResult): ItemState {
    s.(unprotectCount := Protection.Unlock(s.unprotectCount, Guarded(s.auth), prompt).count)
  }

  /** The dialog result `UnprotectAuthenticator` returns. */
  function UnprotectResult(s: ItemState, prompt: DialogResult): DialogResult {
    Protection.Unlock(s.unprotectCount, Guarded(s.auth), prompt).result
  }

  /** The item after `ProtectAuthenticator`. */
  function Protected(s: ItemState): (r: ItemState)
    ensures r == s.(unprotectCount := r.unprotectCount, protectCalls := r.protectCalls)
    ensures s.auth.data.Some? && s.unprotectCount >= 0 ==> r.unprotectCount >= 0
    ensures r.protectCalls == s.protectCalls + 1 <==> s.unprotectCount <= 1 && s.auth.data.Some?
  {
    var rl := Protection.Relock(s.unprotectCount, s.auth.data.Some?);
    s.(unprotectCount := rl.count, protectCalls := s.protectCalls + if rl.protects then 1 else 0)
  }

  /** A reveal: the code shown, when, and until when. */
  function Revealed(s: ItemState, code: string, now: int): ItemState {
    s.(lastCode := Some(code), lastUpdate := Some(now), displayUntil := Some(now + RevealMillis))
  }

  /** One item's turn in `Tick`. An auto-refresh item only records the
      update time. A manual item whose reveal has expired is cleared and,
      when its password type is Explicit, relocked. Anything else is left
      alone. */
  function Ticked(s: ItemState, now: int): (r: ItemState)
    ensures s.auth.autoRefresh ==> r == s.(lastUpdate := Some(now))
    ensures !s.auth.autoRefresh && !Expired(s, now) ==> r == s
    ensures !s.auth.autoRefresh && Expired(s, now) ==>
              r.displayUntil == None && r.lastUpdate == None && r.lastCode == None
    ensures r.auth == s.auth && r.index == s.index && r.dragging == s.dragging
    ensures r.unprotectCount != s.unprotectCount || r.protectCalls != s.protectCalls ==>
              !s.auth.autoRefresh && Expired(s, now) && IsExplicit(s.auth)
  {
    if s.auth.autoRefresh then s.(lastUpdate := Some(now))
    else if Expired(s, now) then
      var cleared := s.(displayUntil := None, lastUpdate := None, lastCode := None);
      if IsExplicit(s.auth) then Protected(cleared) else cleared
    else s
  }

  /** Ticking twice at the same instant is ticking once. */
  lemma TickIdempotent(s: ItemState, now: int)
    ensures Ticked(Ticked(s, now), now) == Ticked(s, now)
  {
  }

  /** Once a manual item has been cleared, later ticks leave it alone until
      it is revealed again. */
  lemma ClearedStaysCleared(s: ItemState, now: int, later: int)
    requires !s.auth.autoRefresh && Expired(s, now)
    ensures Ticked(Ticked(s, now), later) == Ticked(s, now)
  {
  }

  /** A click on the refresh icon of a manual item that is not showing a code
      (`OnMouseUp`): unlock, and unless that was cancelled, reveal the code
      for ten seconds. */
  function ClickedRefresh(s: ItemState, prompt: DialogResult, code: string, now: int): (r: ItemState)
    ensures UnprotectResult(s, prompt) == Cancel ==> r == s
    ensures UnprotectResult(s, prompt) != Cancel ==>
              r.lastCode == Some(code) && r.lastUpdate == Some(now) && r.displayUntil == Some(now + RevealMillis)
    ensures r.auth == s.auth && r.protectCalls == s.protectCalls
  {
    if UnprotectResult(s, prompt) == Cancel then s
    else Revealed(Unprotected(s, prompt), code, now)
  }

  /** The "Show Code" menu item: unlock; unless cancelled, drop the unlock a
      previous reveal still holds, then reveal the code for ten seconds. A
      code already on show keeps its unlock count and re-protects nothing;
      a code not on show holds the one unlock this call took. */
  function ShownByMenu(s: ItemState, prompt: DialogResult, code: string, now: int): (r: ItemState)
    ensures UnprotectResult(s, prompt) == Cancel ==> r == s
    ensures UnprotectResult(s, prompt) != Cancel ==>
              r.lastCode == Some(code) && r.lastUpdate == Some(now) && r.displayUntil == Some(now + RevealMillis)
    ensures UnprotectResult(s, prompt) != Cancel && s.displayUntil.Some? && s.unprotectCount >= 1 ==>
              r.unprotectCount == s.unprotectCount && r.protectCalls == s.protectCalls
    ensures UnprotectResult(s, prompt) != Cancel && s.displayUntil == None ==>
              r.unprotectCount == s.unprotectCount + (if UnprotectResult(s, prompt) == OK then 1 else 0)
              && r.protectCalls == s.protectCalls
    ensures r.auth == s.auth && r.index == s.index && r.dragging == s.dragging
  {
    if UnprotectResult(s, prompt) == Cancel then s
    else
      var u := Unprotected(s, prompt);
      Revealed(if u.displayUntil.Some? then Protected(u) else u, code, now)
  }

  /** The life of a manual reveal of a password-protected item: the first
      "Show Code" prompts and holds one unlock; showing it again while it
      is displayed holds no extra unlock and does not prompt; the tick that
      expires it releases the unlock and re-protects once. */
  lemma RevealHoldsOneUnlock(s: ItemState, code1: string, now1: int, prompt2: DialogResult,
                             code2: string, now2: int, expiry: int)
    requires !s.auth.autoRefresh && Guarded(s.auth) && IsExplicit(s.auth)
    requires s.unprotectCount == 0 && s.displayUntil == None
    requires now2 + RevealMillis <= expiry
    ensures var a := ShownByMenu(s, OK, code1, now1);
            var b := ShownByMenu(a, prompt2, code2, now2);
            var c := Ticked(b, expiry);
            a.unprotectCount == 1 && b.unprotectCount == 1 && b.protectCalls == s.protectCalls
            && b.lastCode == Some(code2)
            && c.unprotectCount == 0 && c.protectCalls == s.protectCalls + 1 && c.displayUntil == None
  {
    var a := ShownByMenu(s, OK, code1, now1);
    assert a.unprotectCount == 1;
    var b := ShownByMenu(a, prompt2, code2, now2);
    assert UnprotectResult(a, prompt2) == OK;
    assert b.unprotectCount == 1;
  }

  /** A menu action bracketed by unlock and relock-if-OK (`GetItemCode`,
      copy code, sync, the shortcut-key editor): the item after it. */
  function Bracketed(s: ItemState, prompt: DialogResult): (r: ItemState)
    ensures s.unprotectCount >= 0 ==> r.unprotectCount == s.unprotectCount
    ensures r == s.(unprotectCount := r.unprotectCount, protectCalls := r.protectCalls)
    ensures r.protectCalls == s.protectCalls + (if s.unprotectCount <= 0 && Guarded(s.auth) && prompt == OK then 1 else 0)
  {
    var u := Unprotected(s, prompt);
    if UnprotectResult(s, prompt) == OK then Protected(u) else u
  }

  /** The password settings "Set Password" leaves: a non-empty password
      makes the data Explicit, switches auto-refresh off, releases every
      unlock and hides the code; an empty one removes the password. */
  function PasswordSet(s: ItemState, password: string): (r: ItemState)
    requires s.auth.data.Some?
    ensures r.auth.data.Some? && r.auth.changed
    ensures password != "" ==> IsExplicit(r.auth) && !r.auth.autoRefresh && r.unprotectCount == 0
                               && r.displayUntil == None && r.lastUpdate == None && r.lastCode == None
    ensures password == "" ==> r.auth.data.value.passwordType == Unencrypted
                               && r == s.(auth := r.auth)
  {
    var d := s.auth.data.value;
    if password != "" then
      s.(auth := s.auth.(data := Some(d.(passwordType := Explicit)), autoRefresh := false, changed := true),
         unprotectCount := 0, displayUntil := None, lastUpdate := None, lastCode := None)
    else
      s.(auth := s.auth.(data := Some(d.(passwordType := Unencrypted)), changed := true))
  }

  /** The whole "Set Password" menu action: unlock (a Cancel ends it), run
      the password dialog, apply its password if it returned OK, and relock
      if the unlock returned OK. */
  function PasswordMenu(s: ItemState, prompt: DialogResult, formResult: DialogResult, password: string): (r: ItemState)
    requires formResult == OK ==> s.auth.data.Some?
    ensures UnprotectResult(s, prompt) == Cancel ==> r == s
    ensures formResult != OK && s.unprotectCount >= 0 ==> r.unprotectCount == s.unprotectCount && r.auth == s.auth
  {
    if UnprotectResult(s, prompt) == Cancel then s
    else
      var u := Unprotected(s, prompt);
      var t := if formResult == OK then PasswordSet(u, password) else u;
      if UnprotectResult(s, prompt) == OK then Protected(t) else t
  }

  /** Setting a non-empty password leaves the data protected and the count
      released: the item shows no code at any time until it is revealed
      again. */
  lemma PasswordHidesCode(s: ItemState, prompt: DialogResult, password: string, now: int)
    requires s.auth.data.Some? && password != ""
    requires UnprotectResult(s, prompt) != Cancel
    ensures var r := PasswordMenu(s, prompt, OK, password);
            !r.auth.autoRefresh && r.displayUntil == None && r.unprotectCount == 0 && IsExplicit(r.auth)
  {
  }

  /** `AuthenticatorListitem`. */
  class ListItem {
    var index: int
    var auth: Authenticator
    var lastUpdate: Option<int>
    var displayUntil: Option<int>
    var lastCode: Option<string>
    var dragging: bool
    var unprotectCount: int
    var protectCalls: nat

    function State(): ItemState
      reads this
    {
      ItemState(index, auth, lastUpdate, displayUntil, lastCode, dragging, unprotectCount, protectCalls)
    }

    /** `new AuthenticatorListitem(auth, index)`. */
    constructor (auth: Authenticator, index: int)
      ensures State() == ItemState(index, auth, None, None, None, false, 0, 0)
    {
      this.index := index;
      this.auth := auth;
      lastUpdate := None;
      displayUntil := None;
      lastCode := None;
      dragging := false;
      unprotectCount := 0;
      protectCalls := 0;
    }

    /** `UnprotectAuthenticator(this)`; `prompt` is what the password
        dialog returns if it is shown. */
    method Unprotect(prompt: DialogResult) returns (r: DialogResult)
      modifies this
      ensures State() == Unprotected(old(State()), prompt)
      ensures r == UnprotectResult(old(State()), prompt)
    {
      if unprotectCount > 0 {
        unprotectCount := unprotectCount + 1;
        return OK;
      }
      if auth.data.None? || !auth.data.value.requiresPassword {
        return Undecided;
      }
      r := prompt;
      if r == OK {
        unprotectCount := unprotectCount + 1;
      }
    }

    /** The settings the "Set Password" action writes once the password
        dialog returns OK. */
    method ApplyPassword(password: string)
      requires auth.data.Some?
      modifies this
      ensures State() == PasswordSet(old(State()), password)
    {
      var d := auth.data.value;
      if password != "" {
        auth := auth.(data := Some(d.(passwordType := Explicit)), autoRefresh := false);
        unprotectCount := 0;
        displayUntil := None;
        lastUpdate := None;
        lastCode := None;
      } else {
        auth := auth.(data := Some(d.(passwordType := Unencrypted)));
      }
      auth := auth.(changed := true);
    }

    /** Records `code` as the item's code at `now` and shows it for
        `RevealMillis`. */
    method Reveal(code: string, now: int)
      modifies this`lastCode, this`lastUpdate, this`displayUntil
      ensures State() == Revealed(old(State()), code, now)
    {
      lastCode := Some(code);
      lastUpdate := Some(now);
      displayUntil := Some(now + RevealMillis);
    }

    /** Sets the `Dragging` property, which only repaints the item. */
    method SetDragging(on: bool)
      modifies this`dragging
      ensures State() == old(State()).(dragging := on)
    {
      dragging := on;
    }

    /** `ProtectAuthenticator(this)`. */
    method Protect()
      modifies this
      ensures State() == Protected(old(State()))
    {
      unprotectCount := unprotectCount - 1;
      if unprotectCount > 0 {
        return;
      }
      if auth.data.None? {
        return;
      }
      protectCalls := protectCalls + 1;
      unprotectCount := 0;
    }
  }
}
