/** The reference-counted unlock and relock of a password-protected
    authenticator in the list box (`UnprotectAuthenticator` and
    `ProtectAuthenticator`), stated on the count alone. */
module Protection {
  import opened Forms

  /** What one call of `UnprotectAuthenticator` leaves: the dialog result it
      returns, the new `UnprotectCount`, and whether it showed the
      password prompt. */
  datatype Unlocked = Unlocked(result: DialogResult, count: int, prompted: bool)

  /** `UnprotectAuthenticator` with count `count`. `guarded` is "the
      authenticator has data and that data requires a password"; `prompt` is
      what the password dialog returns if it is shown. The count test comes
      first: a held count never prompts, even for unguarded data. */
  function Unlock(count: int, guarded: bool, prompt: DialogResult): (u: Unlocked)
    ensures u.prompted <==> count <= 0 && guarded
    ensures u.result == OK <==> count > 0 || (u.prompted && prompt == OK)
    ensures u.prompted ==> u.result == prompt
    ensures !u.prompted && count <= 0 ==> u.result == Undecided
    ensures u.count == (if u.result == OK then count + 1 else count)
  {
    if count > 0 then Unlocked(OK, count + 1, false)
    else if !guarded then Unlocked(Undecided, count, false)
    else Unlocked(prompt, if prompt == OK then count + 1 else count, true)
  }

  /** What one call of `ProtectAuthenticator` leaves: the new count and
      whether it called `AuthenticatorData.Protect()`. */
  datatype Relocked = Relocked(count: int, protects: bool)

  /** `ProtectAuthenticator` with count `count`; `hasData` is "the
      authenticator has data". It always decrements first; only a count that
      reaches zero or below re-protects, and only when there is data, and
      then the count is set to exactly 0. */
  function Relock(count: int, hasData: bool): (r: Relocked)
    ensures r.protects <==> count - 1 <= 0 && hasData
    ensures r.protects ==> r.count == 0
    ensures !r.protects ==> r.count == count - 1
  {
    if count - 1 > 0 then Relocked(count - 1, false)
    else if !hasData then Relocked(count - 1, false)
    else Relocked(0, true)
  }

  /** A caller that relocks exactly when the unlock returned OK (the
      `finally` blocks of `GetItemCode` and the menu actions) leaves a
      non-negative count as it found it, and re-protects exactly when it
      was the one that prompted. A Cancel or an unguarded unlock changes
      nothing. */
  lemma PairedUseRestoresCount(count: int, guarded: bool, hasData: bool, prompt: DialogResult)
    requires count >= 0 && (guarded ==> hasData)
    ensures var u := Unlock(count, guarded, prompt);
            (u.result == OK ==> Relock(u.count, hasData).count == count
                                && (Relock(u.count, hasData).protects <==> u.prompted))
            && (u.result != OK ==> u.count == count)
  {
  }

  /** `n` nested unlocks answered OK, starting from a released count. */
  function UnlockTimes(count: int, guarded: bool, n: nat): (u: Unlocked)
    ensures u.count == (if n == 0 || count > 0 || guarded then count + n else count)
    decreases n
  {
    if n == 0 then Unlocked(Undecided, count, false)
    else
      var first := Unlock(count, guarded, OK);
      var rest := UnlockTimes(first.count, guarded, n - 1);
      Unlocked(first.result, rest.count, first.prompted || rest.prompted)
  }

  /** `n` relocks in a row; `protects` counts the calls of `Protect()`. */
  function RelockTimes(count: int, hasData: bool, n: nat): (r: (int, nat))
    decreases n
  {
    if n == 0 then (count, 0)
    else
      var first := Relock(count, hasData);
      var rest := RelockTimes(first.count, hasData, n - 1);
      (rest.0, rest.1 + if first.protects then 1 else 0)
  }

  /** Releasing `k` held unlocks one by one returns the count to 0 and calls
      `Protect()` exactly once, on the last release. */
  lemma {:induction false} ReleaseAll(k: nat)
    requires k >= 1
    ensures RelockTimes(k, true, k) == (0, 1)
  {
    if k > 1 {
      ReleaseAll(k - 1);
    }
  }

  /** Nested use: `n` unlocks (only the first prompts) then `n` relocks
      leave the count at 0 and re-protect exactly once. */
  lemma {:induction false} NestedUseProtectsOnce(n: nat)
    requires n >= 1
    ensures UnlockTimes(0, true, n).count == n
    ensures RelockTimes(UnlockTimes(0, true, n).count, true, n) == (0, 1)
  {
    ReleaseAll(n);
  }
}
