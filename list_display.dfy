/** What the list box computes for display: the countdown arc of an
    auto-refresh item, which code a row shows
    and how it is spaced, and the state of the context menu. */
module ListDisplay {
  import opened Wrappers
  import opened CSharp
  import opened ListItems
  import Text

  /** Whole seconds into the current period: `(ServerTime % (Period * 1000L)) / 1000L`
      with C#'s truncating operators. */
  function SecondsIntoPeriod(serverTime: int, period: int): (s: int)
    requires period > 0
    ensures serverTime >= 0 ==> 0 <= s < period
    ensures serverTime >= 0 ==> s == (serverTime / 1000) % period
  {
    SecondsOfNonNegative(serverTime, period);
    Div(Rem(serverTime, period * 1000), 1000)
  }

  lemma SecondsOfNonNegative(t: int, p: int)
    requires p > 0
    ensures t >= 0 ==> Div(Rem(t, p * 1000), 1000) == (t / 1000) % p
  {
    if t >= 0 {
      DivRemNonNegative(t, p * 1000);
      DivRemNonNegative(t % (p * 1000), 1000);
      ModOfThousands(t, p);
    }
  }

  lemma ModOfThousands(t: int, p: int)
    requires t >= 0 && p > 0
    ensures (t % (p * 1000)) / 1000 == (t / 1000) % p
  {
    var q := t / (p * 1000);
    var m := t % (p * 1000);
    var a := m / 1000;
    var b := m % 1000;
    assert q * (p * 1000) == (q * p) * 1000;
    assert t == (q * p + a) * 1000 + b;
    DivUnique(t, 1000, q * p + a, b);
    MulMonotone(p, a, 1000);
    assert a < p;
    DivUnique(q * p + a, p, q, a);
  }

  /** The pie angle of an auto-refresh item (`tillUpdate`): the elapsed
      part of the period in degrees, `s * 360 / Period`, rounded half to
      even as `Math.Round` does. Computed exactly. */
  function Arc(serverTime: int, period: int): (r: int)
    requires period > 0
    ensures 2 * Abs(r * period - 360 * SecondsIntoPeriod(serverTime, period)) <= period
    ensures serverTime >= 0 ==> 0 <= r <= 360
    ensures 360 % period == 0 ==> r == SecondsIntoPeriod(serverTime, period) * (360 / period)
  {
    var s := SecondsIntoPeriod(serverTime, period);
    var r := RoundHalfEven(360 * s, period);
    ExactArc(s, period, r);
    ArcInRange(s, period, r);
    r
  }

  lemma ExactArc(s: int, period: int, r: int)
    requires period > 0
    requires 2 * Abs(r * period - 360 * s) <= period
    ensures 360 % period == 0 ==> r == s * (360 / period)
  {
    if 360 % period != 0 {
      return;
    }
    var k := 360 / period;
    assert k * period == 360;
    assert (s * k) * period == s * (k * period);
    RoundedBetween(r, period, 360 * s, s * k, s * k);
  }

  lemma ArcInRange(s: int, period: int, r: int)
    requires period > 0
    requires 2 * Abs(r * period - 360 * s) <= period
    ensures 0 <= s < period ==> 0 <= r <= 360
  {
    if 0 <= s < period {
      RoundedBetween(r, period, 360 * s, 0, 360);
    }
  }

  /** A 30-second authenticator fills the pie by 12 degrees a second; half
      way through the period the pie is half full. */
  lemma ArcOfThirtySeconds(serverTime: int)
    requires serverTime >= 0
    ensures Arc(serverTime, 30) == 12 * ((serverTime / 1000) % 30)
    ensures Arc(15000, 30) == 180
  {
  }

  /** The text drawn when no code is shown. */
  const Placeholder: string := "- - - - - -"

  /** `CurrentCode` evaluated: the code, or the `EncryptedSecretDataException`
      it throws while the secret is still encrypted. */
  datatype CodeResult = Code(code: string) | Encrypted

  /** `showCode` in `OnDrawItem`. */
  predicate ShowsCode(auth: Authenticator, displayUntil: Option<int>, now: int) {
    auth.autoRefresh || (displayUntil.Some? && displayUntil.value > now)
  }

  /** A code longer than 5 characters, with one space inserted at the middle
      (`code.Insert(code.Length / 2, " ")`). */
  function SpaceCode(code: string): (r: string)
    ensures |code| <= 5 ==> r == code
    ensures |code| > 5 ==> |r| == |code| + 1 && r[|code| / 2] == ' '
                           && r[..|code| / 2] + r[|code| / 2 + 1..] == code
  {
    if |code| > 5 then
      var h := |code| / 2;
      var r := code[..h] + " " + code[h..];
      assert r[..h] == code[..h] && r[h + 1..] == code[h..];
      r
    else code
  }

  /** Removing the inserted space gives the code back, for any code without
      spaces of its own. */
  lemma SpaceCodeRoundTrip(code: string)
    requires ' ' !in code
    ensures Text.RemoveChar(SpaceCode(code), ' ') == code
  {
    if |code| > 5 {
      var h := |code| / 2;
      assert SpaceCode(code) == code[..h] + [' '] + code[h..];
      assert ' ' !in code[..h] && ' ' !in code[h..];
      Text.RemoveCharAppend(code[..h] + [' '], code[h..], ' ');
      Text.RemoveCharAppend(code[..h], [' '], ' ');
      assert Text.RemoveChar([' '], ' ') == [];
      assert code == code[..h] + code[h..];
    }
  }

  /** What drawing one row does: the code drawn (`None` for the
      placeholder), the new `LastCode`, and the code passed to the clipboard
      copy if one is made. */
  datatype Drawn = Drawn(shown: Option<string>, lastCode: Option<string>, copied: Option<string>) {
    /** The text that appears in the row. */
    function Text(): string {
      if shown.Some? then shown.value else Placeholder
    }
  }

  /** The code selection of `OnDrawItem` for a row that is not being dragged.
      A manual row that is showing keeps its `LastCode`, even across a period
      boundary; an auto-refresh row takes the current code and copies it when
      it differs from the last one and copy-on-code is set. A code that cannot
      be computed, or a row that is not showing, draws the placeholder and
      keeps `LastCode`. */
  function DrawCode(auth: Authenticator, displayUntil: Option<int>, lastCode: Option<string>,
                    current: CodeResult, now: int): (d: Drawn)
    ensures !ShowsCode(auth, displayUntil, now) ==> d == Drawn(None, lastCode, None)
    ensures d.shown.None? <==> !ShowsCode(auth, displayUntil, now)
                               || (current.Encrypted? && (auth.autoRefresh || lastCode.None?))
    ensures d.shown.Some? ==> d.lastCode.Some? && d.shown.value == SpaceCode(d.lastCode.value)
    ensures d.shown.None? ==> d.lastCode == lastCode
    ensures ShowsCode(auth, displayUntil, now) && !auth.autoRefresh && lastCode.Some? ==>
              d.lastCode == lastCode && d.copied == None
    ensures d.copied.Some? <==> auth.autoRefresh && auth.copyOnCode && current.Code?
                                && lastCode != Some(current.code)
    ensures d.copied.Some? ==> d.copied == d.lastCode
  {
    if !ShowsCode(auth, displayUntil, now) then Drawn(None, lastCode, None)
    else if !auth.autoRefresh then
      if lastCode.Some? then Drawn(Some(SpaceCode(lastCode.value)), lastCode, None)
      else match current
        case Code(c) => Drawn(Some(SpaceCode(c)), Some(c), None)
        case Encrypted => Drawn(None, lastCode, None)
    else match current
      case Code(c) =>
        Drawn(Some(SpaceCode(c)), Some(c), if Some(c) != lastCode && auth.copyOnCode then Some(c) else None)
      case Encrypted => Drawn(None, lastCode, None)
  }

  /** Repainting an auto-refresh row while the code has not changed copies
      nothing: the first paint stored the code as `LastCode`. */
  lemma RepaintCopiesOnce(auth: Authenticator, displayUntil: Option<int>, lastCode: Option<string>,
                          code: string, now: int, later: int)
    requires auth.autoRefresh
    ensures var first := DrawCode(auth, displayUntil, lastCode, Code(code), now);
            DrawCode(auth, displayUntil, first.lastCode, Code(code), later).copied == None
  {
  }

  /** What `SetContextMenuItems` sets: the title label, the text of the password
      entry, and the visibility, enabled state and check marks of the
      entries that depend on the authenticator. */
  datatype MenuState = MenuState(
    title: string, changePasswordText: bool, showCodeVisible: bool,
    restoreCodeVisible: bool, googleSecretVisible: bool, trionSecretVisible: bool,
    steamSecretVisible: bool, steamSecretEnabled: bool, steamSeparatorVisible: bool,
    steamTradesVisible: bool, steamTradesEnabled: bool,
    autoRefreshVisible: bool, autoRefreshChecked: bool, autoRefreshEnabled: bool,
    copyOnCodeChecked: bool, syncVisible: bool)

  predicate HasSteamData(k: AuthKind) {
    k.Steam? && k.steamData.Some? && k.steamData.value != ""
  }

  /** `SetContextMenuItems` for the current item's authenticator; `None`
      when there is no item or it has no data (the menu is left as it was).
      `hotKeyText` is the hot key's display text (`HotKey.ToString()`). */
  function ContextMenu(auth: Option<Authenticator>, hotKeyText: string): (r: Option<MenuState>)
    ensures r.None? <==> auth.None? || auth.value.data.None?
    ensures r.Some? ==> var a := auth.value; var k := a.data.value.kind;
              && (r.value.autoRefreshEnabled <==> !a.data.value.requiresPassword && !IsExplicit(a))
              && (r.value.showCodeVisible <==> !a.autoRefresh)
              && (r.value.changePasswordText <==> IsExplicit(a))
              && (r.value.autoRefreshVisible <==> !k.Hotp?) && (r.value.syncVisible <==> !k.Hotp?)
              && (r.value.steamSecretEnabled ==> r.value.steamSecretVisible)
              && (r.value.steamTradesEnabled ==> r.value.steamTradesVisible)
              && (r.value.steamSecretEnabled <==> HasSteamData(k))
              && |r.value.title| >= |a.name| && r.value.title[..|a.name|] == a.name
              && (a.hotKey == null ==> r.value.title == a.name)
  {
    if auth.None? || auth.value.data.None? then None
    else
      var a := auth.value;
      var d := a.data.value;
      var title := a.name + (if a.hotKey != null then " (" + hotKeyText + ")" else "");
      Some(MenuState(
        title := title,
        changePasswordText := d.passwordType == Explicit,
        showCodeVisible := !a.autoRefresh,
        restoreCodeVisible := d.kind.BattleNet?,
        googleSecretVisible := d.kind.Google? || d.kind.Hotp?,
        trionSecretVisible := d.kind.Trion?,
        steamSecretVisible := d.kind.Steam?,
        steamSecretEnabled := HasSteamData(d.kind),
        steamSeparatorVisible := d.kind.Steam?,
        steamTradesVisible := d.kind.Steam?,
        steamTradesEnabled := HasSteamData(d.kind),
        autoRefreshVisible := !d.kind.Hotp?,
        autoRefreshChecked := a.autoRefresh,
        autoRefreshEnabled := !d.requiresPassword && d.passwordType != Explicit,
        copyOnCodeChecked := a.copyOnCode,
        syncVisible := !d.kind.Hotp?))
  }

  /** Once a password is set on an item, the menu no longer offers to turn
      auto-refresh on, and it offers "Show Code" instead. */
  lemma PasswordDisablesAutoRefresh(s: ItemState, prompt: Forms.DialogResult, password: string, hotKeyText: string)
    requires s.auth.data.Some? && password != ""
    requires UnprotectResult(s, prompt) != Forms.Cancel
    ensures var m := ContextMenu(Some(PasswordMenu(s, prompt, Forms.OK, password).auth), hotKeyText);
            m.Some? && !m.value.autoRefreshEnabled && m.value.showCodeVisible && m.value.changePasswordText
  {
    PasswordHidesCode(s, prompt, password, 0);
  }
}
