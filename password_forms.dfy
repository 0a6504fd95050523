/** The four small password dialogs: `UnprotectPasswordForm` (unlock a
    protected authenticator), `SetPasswordForm` (choose a password, typed
    twice), `GetPasswordForm` (ask for the password of a file) and
    `GetPGPKeyForm` (ask for a PGP key and its pass phrase). Each OK button
    closes its dialog unless the handler keeps it open. */
module Passwords {
  import opened Wrappers
  import opened Forms
  import opened Text

  /** The messages the error labels show. */
  datatype Message =
    | EnterPassword        // strings.EnterPassword
    | InsertYubiKey        // "Please insert your YubiKey"
    | InvalidPassword      // strings.InvalidPassword
    | PasswordsDontMatch   // strings.PasswordsDontMatch

  /** What `AuthenticatorData.Unprotect(password)` does: it returns whether
      the data changed, or throws `BadYubiKeyException` or
      `BadPasswordException`. */
  datatype UnprotectOutcome = Unprotected(changed: bool) | BadYubiKey | BadPassword

  /** `UnprotectPasswordForm.okButton_Click` on values, with `unprotect`
      standing for `Unprotect`: the label, whether the authenticator is
      marked changed, and whether the form closes. An empty password is
      refused before `unprotect` is asked. */
  function UnprotectEffect(password: string, unprotect: string -> UnprotectOutcome, n: Notice<Message>)
    : (r: (Notice<Message>, bool, bool))
  {
    if password == "" then (Shown(EnterPassword), false, false)
    else match unprotect(password)
      case Unprotected(changed) => (n, changed, true)
      case BadYubiKey => (Shown(InsertYubiKey), false, false)
      case BadPassword => (Shown(InvalidPassword), false, false)
  }

  /** The form closes exactly when a non-empty password unprotects the
      data, and marks the authenticator changed exactly when the data
      changed; every refusal shows its message and starts the timer. */
  lemma UnprotectOutcomeFacts(password: string, unprotect: string -> UnprotectOutcome, n: Notice<Message>)
    ensures var (g, marked, closes) := UnprotectEffect(password, unprotect, n);
            && (closes <==> password != "" && unprotect(password).Unprotected?)
            && (marked <==> password != "" && unprotect(password) == Unprotected(true))
            && (closes ==> g == n)
            && (!closes ==> g.visible && g.timing)
            && (password == "" ==> g.text == Some(EnterPassword))
            && (password != "" && unprotect(password) == BadYubiKey ==> g.text == Some(InsertYubiKey))
            && (password != "" && unprotect(password) == BadPassword ==> g.text == Some(InvalidPassword))
  {
  }

  /** An empty password never reaches `Unprotect`: the outcome is the same
      whatever `Unprotect` would do. */
  lemma EmptyPasswordNeverUnprotects(u: string -> UnprotectOutcome, v: string -> UnprotectOutcome, n: Notice<Message>)
    ensures UnprotectEffect("", u, n) == UnprotectEffect("", v, n)
    ensures !UnprotectEffect("", u, n).2
  {
  }

  class UnprotectPasswordForm {
    var passwordField: string
    /** `invalidPasswordLabel` and `invalidPasswordTimer`. */
    var notice: Notice<Message>
    /** Whether `Authenticator.MarkChanged()` has been called. */
    var authenticatorChanged: bool
    var dialogResult: DialogResult

    constructor ()
      ensures passwordField == "" && !notice.visible && !notice.timing && !authenticatorChanged
    {
      passwordField := "";
      notice := Notice(None, false, false);
      authenticatorChanged := false;
      dialogResult := Undecided;
    }

    /** `okButton_Click`. */
    method OkClick(unprotect: string -> UnprotectOutcome)
      modifies this`notice, this`authenticatorChanged, this`dialogResult
      ensures var (g, marked, closes) := UnprotectEffect(passwordField, unprotect, old(notice));
              && notice == g && authenticatorChanged == (old(authenticatorChanged) || marked)
              && (dialogResult == OK <==> closes)
      ensures dialogResult == OK || dialogResult == Undecided
    {
      dialogResult := OK;
      var password := passwordField;
      if |password| == 0 {
        notice := Shown(EnterPassword);
        dialogResult := Undecided;
        return;
      }
      var outcome := unprotect(password);
      match outcome
      case Unprotected(changed) =>
        if changed {
          authenticatorChanged := true;
        }
      case BadYubiKey =>
        notice := Shown(InsertYubiKey);
        dialogResult := Undecided;
      case BadPassword =>
        notice := Shown(InvalidPassword);
        dialogResult := Undecided;
    }

    /** `invalidPasswordTimer_Tick`. */
    method TimerTick()
      modifies this`notice
      ensures notice == Hidden(old(notice)) && !notice.visible && !notice.timing
    {
      notice := notice.(visible := false, timing := false);
    }
  }

  /** `SetPasswordForm.okButton_Click` on values: the label, the `Password`
      property and whether the form closes. Both entries are trimmed
      before they are compared, and the trimmed one is kept. */
  function SetPasswordEffect(password: string, verify: string, n: Notice<Message>, prop: Option<string>)
    : (r: (Notice<Message>, Option<string>, bool))
  {
    var p := Trim(password);
    var v := Trim(verify);
    if p != v then (Shown(PasswordsDontMatch), prop, false)
    else (n, Some(p), true)
  }

  /** The form closes exactly when the entries agree once trimmed, and then
      keeps a password with no white space at either end; otherwise it
      reports the mismatch and sets nothing. */
  lemma SetPasswordOutcome(password: string, verify: string, n: Notice<Message>, prop: Option<string>)
    ensures var (g, q, closes) := SetPasswordEffect(password, verify, n, prop);
            && (closes <==> Trim(password) == Trim(verify))
            && (!closes ==> g == Shown(PasswordsDontMatch) && q == prop)
            && (closes ==> g == n && q.Some? && q.value == Trim(password)
                           && (q.value == [] || (!IsWhiteSpace(q.value[0]) && !IsWhiteSpace(q.value[|q.value| - 1])))
                           && (exists a, b :: 0 <= a <= b <= |password| && q.value == password[a..b]))
  {
    TrimIsSlice(password);
  }

  /** Two blank entries are accepted and set the empty password. */
  lemma BlankPasswordIsAccepted(password: string, verify: string, n: Notice<Message>, prop: Option<string>)
    requires IsBlank(password) && IsBlank(verify)
    ensures SetPasswordEffect(password, verify, n, prop) == (n, Some(""), true)
  {
    TrimEmptyIffBlank(password);
    TrimEmptyIffBlank(verify);
  }

  /** How a text box shows its text: `UseSystemPasswordChar` and
      `PasswordChar`. */
  datatype Mask = Mask(useSystemPasswordChar: bool, passwordChar: char)

  /** The mask `showCheckbox_CheckedChanged` gives both fields. */
  function MaskFor(show: bool): Mask {
    if show then Mask(false, 0 as char) else Mask(true, '*')
  }

  /** A text box hides its text when either setting masks it. */
  predicate Hides(m: Mask) {
    m.useSystemPasswordChar || m.passwordChar != 0 as char
  }

  /** Checking "show" reveals the text; unchecking it hides it again. */
  lemma MaskHidesUnlessShown(show: bool)
    ensures Hides(MaskFor(show)) <==> !show
  {
  }

  class SetPasswordForm {
    var passwordField: string
    var verifyField: string
    var showChecked: bool
    var passwordMask: Mask
    var verifyMask: Mask
    /** `errorLabel` and `errorTimer`. */
    var notice: Notice<Message>
    /** The `Password` property; `None` is null. */
    var password: Option<string>
    var dialogResult: DialogResult

    constructor ()
      ensures password == None && !notice.visible && !notice.timing
    {
      passwordField, verifyField := "", "";
      showChecked := false;
      passwordMask, verifyMask := MaskFor(false), MaskFor(false);
      notice := Notice(None, false, false);
      password := None;
      dialogResult := Undecided;
    }

    /** `showCheckbox_CheckedChanged`: both fields are masked alike,
        revealed exactly when the box is checked. */
    method ShowChanged()
      modifies this`passwordMask, this`verifyMask
      ensures passwordMask == verifyMask == MaskFor(showChecked)
      ensures Hides(passwordMask) <==> !showChecked
    {
      if showChecked {
        passwordMask := Mask(false, 0 as char);
        verifyMask := Mask(false, 0 as char);
      } else {
        passwordMask := Mask(true, '*');
        verifyMask := Mask(true, '*');
      }
      MaskHidesUnlessShown(showChecked);
    }

    /** `okButton_Click`. */
    method OkClick()
      modifies this`notice, this`password, this`dialogResult
      ensures (notice, password, dialogResult == OK)
              == SetPasswordEffect(passwordField, verifyField, old(notice), old(password))
      ensures dialogResult == OK || dialogResult == Undecided
    {
      dialogResult := OK;
      var p := Trim(passwordField);
      var v := Trim(verifyField);
      if p != v {
        notice := Shown(PasswordsDontMatch);
        dialogResult := Undecided;
        return;
      }
      password := Some(p);
    }

    /** `errorTimer_Tick`: the label is also emptied. */
    method TimerTick()
      modifies this`notice
      ensures notice == Hidden(old(notice)).(text := None)
    {
      notice := Notice(None, false, false);
    }
  }

  /** `GetPasswordForm.okButton_Click` on values: the label, the `Password`
      property and whether the form closes. Only an empty entry is
      refused; the password is kept exactly as typed. */
  function GetPasswordEffect(password: string, n: Notice<Message>, prop: Option<string>)
    : (r: (Notice<Message>, Option<string>, bool))
  {
    if password == "" then (Shown(EnterPassword), prop, false)
    else (n, Some(password), true)
  }

  /** The form closes exactly for a non-empty entry, which becomes the
      password untrimmed: unlike `SetPasswordForm`, a password of spaces is
      accepted as it is. */
  lemma GetPasswordOutcome(password: string, n: Notice<Message>, prop: Option<string>)
    ensures var (g, q, closes) := GetPasswordEffect(password, n, prop);
            && (closes <==> password != "")
            && (closes ==> g == n && q == Some(password))
            && (!closes ==> g == Shown(EnterPassword) && q == prop)
  {
  }

  /** A blank entry passes here and is refused by nothing; the same entries
      set the empty password in `SetPasswordForm`. */
  lemma SpacesAreAPassword(n: Notice<Message>, prop: Option<string>)
    ensures GetPasswordEffect("  ", n, prop) == (n, Some("  "), true)
    ensures SetPasswordEffect("  ", "  ", n, prop) == (n, Some(""), true)
  {
    BlankPasswordIsAccepted("  ", "  ", n, prop);
  }

  class GetPasswordForm {
    var passwordField: string
    /** The `InvalidPassword` property: a previous attempt failed. */
    var invalidPassword: bool
    /** `invalidPasswordLabel` and `invalidPasswordTimer`. */
    var notice: Notice<Message>
    /** The `Password` property; `None` is null. */
    var password: Option<string>
    var dialogResult: DialogResult

    constructor (invalid: bool)
      ensures invalidPassword == invalid && password == None && !notice.visible && !notice.timing
    {
      passwordField := "";
      invalidPassword := invalid;
      notice := Notice(None, false, false);
      password := None;
      dialogResult := Undecided;
    }

    /** `GetPasswordForm_Load`: a failed previous attempt is reported as
        soon as the form opens. */
    method Load()
      modifies this`notice
      ensures notice == (if invalidPassword then Shown(InvalidPassword) else old(notice))
    {
      if invalidPassword {
        notice := Shown(InvalidPassword);
      }
    }

    /** `okButton_Click`. */
    method OkClick()
      modifies this`notice, this`password, this`dialogResult
      ensures (notice, password, dialogResult == OK) == GetPasswordEffect(passwordField, old(notice), old(password))
      ensures dialogResult == OK || dialogResult == Undecided
    {
      dialogResult := OK;
      var p := passwordField;
      if |p| == 0 {
        notice := Shown(EnterPassword);
        dialogResult := Undecided;
        return;
      }
      password := Some(p);
    }

    /** `invalidPasswordTimer_Tick`. */
    method TimerTick()
      modifies this`notice
      ensures notice == Hidden(old(notice)) && !notice.visible && !notice.timing
    {
      notice := notice.(visible := false, timing := false);
    }
  }

  /** `GetPGPKeyForm.okButton_Click` on values: the `PGPKey` and `Password`
      properties and whether the form closes. Only an empty key is
      refused, silently; the pass phrase may be empty. */
  function PgpKeyEffect(key: string, password: string, props: (Option<string>, Option<string>))
    : (r: ((Option<string>, Option<string>), bool))
  {
    if key == "" then (props, false)
    else ((Some(key), Some(password)), true)
  }

  /** The form closes exactly when a key was given, and then sets both
      properties as typed; a key of white space is taken. */
  lemma PgpKeyOutcome(key: string, password: string, props: (Option<string>, Option<string>))
    ensures var (q, closes) := PgpKeyEffect(key, password, props);
            && (closes <==> key != "")
            && (closes ==> q == (Some(key), Some(password)))
            && (!closes ==> q == props)
    ensures PgpKeyEffect(" ", "", props) == ((Some(" "), Some("")), true)
  {
  }

  class GetPGPKeyForm {
    var pgpField: string
    var passwordField: string
    /** The `PGPKey` and `Password` properties; `None` is null. */
    var pgpKey: Option<string>
    var password: Option<string>
    var dialogResult: DialogResult

    /** Both properties stay null until OK succeeds. */
    constructor ()
      ensures pgpKey == None && password == None
    {
      pgpField, passwordField := "", "";
      pgpKey, password := None, None;
      dialogResult := Undecided;
    }

    /** `browseButton_Click`, with `chosen` the text of the file picked in
        the open dialog (`None` when it is cancelled). */
    method BrowseClick(chosen: Option<string>)
      modifies this`pgpField
      ensures pgpField == chosen.GetOr(old(pgpField))
    {
      if chosen.Some? {
        pgpField := chosen.value;
      }
    }

    /** `okButton_Click`. */
    method OkClick()
      modifies this`pgpKey, this`password, this`dialogResult
      ensures ((pgpKey, password), dialogResult == OK) == PgpKeyEffect(pgpField, passwordField, old((pgpKey, password)))
      ensures dialogResult == OK || dialogResult == Undecided
    {
      dialogResult := OK;
      if |pgpField| == 0 {
        dialogResult := Undecided;
        return;
      }
      pgpKey := Some(pgpField);
      password := Some(passwordField);
    }
  }
}
