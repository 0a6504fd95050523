/** `ExportForm`: the dialog that chooses how the authenticators are
    exported. The file is written as plain text, as a zip protected by a
    password, or encrypted to a PGP key; the two protections exclude each
    other. */
module Export {
  import opened Wrappers
  import opened Forms
  import opened Text

  /** The error dialogs of `okButton_Click`, in the order they are checked. */
  datatype ExportError =
    | EnterPassword        // the password box is checked but the password is blank
    | PasswordsDontMatch   // the password and its verification differ
    | MissingPGPKey        // the PGP box is checked but no key was given
    | MissingFile          // no file was chosen

  /** What `okButton_Click` reads: the two check boxes and the four text
      fields. */
  datatype Inputs = Inputs(passwordChecked: bool, pgpChecked: bool, password: string, verify: string,
                           pgpKey: string, file: string)

  /** The first check of `okButton_Click` that fails, or `None` when all
      pass. A blank password is refused after trimming, but the password is
      compared with its verification as typed. */
  function Validate(inp: Inputs): (r: Option<ExportError>)
  {
    if inp.passwordChecked && Trim(inp.password) == "" then Some(EnterPassword)
    else if inp.passwordChecked && inp.password != inp.verify then Some(PasswordsDontMatch)
    else if inp.pgpChecked && inp.pgpKey == "" then Some(MissingPGPKey)
    else if inp.file == "" then Some(MissingFile)
    else None
  }

  /** The export the dialog accepts: a file, a password that is not all
      white space and is typed the same twice when a password is asked
      for, and a key when PGP is asked for. */
  predicate Acceptable(inp: Inputs) {
    && inp.file != ""
    && (inp.passwordChecked ==> !IsBlank(inp.password) && inp.password == inp.verify)
    && (inp.pgpChecked ==> inp.pgpKey != "")
  }

  /** The dialog accepts exactly the acceptable exports. */
  lemma ValidateAccepts(inp: Inputs)
    ensures Validate(inp) == None <==> Acceptable(inp)
  {
    TrimEmptyIffBlank(inp.password);
  }

  /** Each error is reported exactly when its own check fails and every
      earlier check passes. */
  lemma ValidateOrder(inp: Inputs)
    ensures Validate(inp) == Some(EnterPassword) <==> inp.passwordChecked && IsBlank(inp.password)
    ensures Validate(inp) == Some(PasswordsDontMatch) <==>
              inp.passwordChecked && !IsBlank(inp.password) && inp.password != inp.verify
    ensures Validate(inp) == Some(MissingPGPKey) <==>
              (inp.passwordChecked ==> !IsBlank(inp.password) && inp.password == inp.verify)
              && inp.pgpChecked && inp.pgpKey == ""
    ensures Validate(inp) == Some(MissingFile) <==>
              (inp.passwordChecked ==> !IsBlank(inp.password) && inp.password == inp.verify)
              && (inp.pgpChecked ==> inp.pgpKey != "") && inp.file == ""
  {
    TrimEmptyIffBlank(inp.password);
  }

  /** The form's properties after OK (`None` for null) and the error
      dialogs shown. */
  datatype Fields = Fields(exportFile: Option<string>, password: Option<string>, pgpKey: Option<string>,
                           errors: seq<ExportError>)

  /** `okButton_Click` on values: the new properties and whether the form
      closes. */
  function OkEffect(inp: Inputs, f: Fields): (r: (Fields, bool))
  {
    match Validate(inp)
    case Some(e) => (f.(errors := f.errors + [e]), false)
    case None =>
      var f := f.(exportFile := Some(inp.file));
      var f := if inp.passwordChecked && inp.password != "" then f.(password := Some(inp.password)) else f;
      var f := if inp.pgpChecked && inp.pgpKey != "" then f.(pgpKey := Some(inp.pgpKey)) else f;
      (f, true)
  }

  /** OK closes the form exactly for an acceptable export. A refusal shows
      one error and sets nothing; an acceptance sets the file, and the
      password or the key exactly when its box is checked: the length
      tests before those two assignments never fail once the checks have
      passed. */
  lemma OkOutcome(inp: Inputs, f: Fields)
    ensures var (g, closes) := OkEffect(inp, f);
            && (closes <==> Acceptable(inp))
            && (!closes ==> g == f.(errors := f.errors + [Validate(inp).value]))
            && (closes ==> g.errors == f.errors && g.exportFile == Some(inp.file)
                           && g.password == (if inp.passwordChecked then Some(inp.password) else f.password)
                           && g.pgpKey == (if inp.pgpChecked then Some(inp.pgpKey) else f.pgpKey))
  {
    ValidateAccepts(inp);
  }

  /** The password is kept as typed: spaces around it are part of it, and
      a verification that differs only in those spaces is refused. */
  lemma PasswordKeptAsTyped(f: Fields)
    ensures var inp := Inputs(true, false, " secret ", " secret ", "", "winauth.zip");
            OkEffect(inp, f).0.password == Some(" secret ")
    ensures var inp := Inputs(true, false, " secret ", "secret", "", "winauth.zip");
            OkEffect(inp, f).0.errors == f.errors + [PasswordsDontMatch]
  {
    var inp := Inputs(true, false, " secret ", " secret ", "", "winauth.zip");
    assert !IsWhiteSpace(inp.password[1]);
    assert !IsBlank(inp.password);
    ValidateAccepts(inp);
    TrimEmptyIffBlank(" secret ");
  }

  /** A calendar date as `DateTime.Today` holds it. */
  datatype Date = Date(year: int, month: int, day: int)

  /** The range `DateTime` allows. */
  predicate ValidDate(d: Date) {
    1 <= d.year <= 9999 && 1 <= d.month <= 12 && 1 <= d.day <= 31
  }

  function DigitChar(n: int): (c: char)
    requires 0 <= n < 10
    ensures IsDigit(c)
  {
    ('0' as int + n) as char
  }

  /** The low `width` decimal digits of `n`, padded with zeros. */
  function Digits(n: nat, width: nat): (r: string)
  {
    if width == 0 then "" else Digits(n / 10, width - 1) + [DigitChar(n % 10)]
  }

  function Pow10(k: nat): (r: nat)
    ensures r >= 1
  {
    if k == 0 then 1 else 10 * Pow10(k - 1)
  }

  /** The number a string of decimal digits spells. */
  function DecimalValue(s: string): (v: nat)
    requires forall i :: 0 <= i < |s| ==> IsDigit(s[i])
  {
    if s == [] then 0
    else
      assert IsDigit(s[|s| - 1]);
      10 * DecimalValue(s[..|s| - 1]) + (s[|s| - 1] as int - '0' as int)
  }

  /** `Digits` writes `width` digits, and they spell `n` back when `n` has
      no more than `width` digits. */
  lemma {:induction false} DigitsRoundTrip(n: nat, width: nat)
    ensures |Digits(n, width)| == width
    ensures forall i :: 0 <= i < width ==> IsDigit(Digits(n, width)[i])
    ensures n < Pow10(width) ==> DecimalValue(Digits(n, width)) == n
  {
    if width > 0 {
      DigitsRoundTrip(n / 10, width - 1);
      var r := Digits(n, width);
      assert r[..|r| - 1] == Digits(n / 10, width - 1);
    }
  }

  /** `DateTime.ToString("yyyy-MM-dd")`: the year in four digits, the month
      and the day in two, all zero-padded. */
  function FormatDate(d: Date): (r: string)
    requires ValidDate(d)
  {
    Digits(d.year, 4) + "-" + Digits(d.month, 2) + "-" + Digits(d.day, 2)
  }

  /** The formatted date has ten characters, dashes at 4 and 7, and reads
      back as the date. */
  lemma FormatDateRoundTrip(d: Date)
    requires ValidDate(d)
    ensures var s := FormatDate(d);
            && |s| == 10 && s[4] == '-' && s[7] == '-'
            && (forall i :: 0 <= i < 10 && i != 4 && i != 7 ==> IsDigit(s[i]))
            && DecimalValue(s[..4]) == d.year && DecimalValue(s[5..7]) == d.month
            && DecimalValue(s[8..]) == d.day
  {
    DigitsRoundTrip(d.year, 4);
    DigitsRoundTrip(d.month, 2);
    DigitsRoundTrip(d.day, 2);
    Dashed(Digits(d.year, 4), Digits(d.month, 2), Digits(d.day, 2));
  }

  /** Where the three parts sit in `a-b-c` for parts of four, two and two
      characters. */
  lemma Dashed(a: string, b: string, c: string)
    requires |a| == 4 && |b| == 2 && |c| == 2
    ensures var s := a + "-" + b + "-" + c;
            && |s| == 10 && s[4] == '-' && s[7] == '-'
            && s[..4] == a && s[5..7] == b && s[8..] == c
            && (forall i :: 0 <= i < 4 ==> s[i] == a[i])
            && (forall i :: 5 <= i < 7 ==> s[i] == b[i - 5])
            && (forall i :: 8 <= i < 10 ==> s[i] == c[i - 8])
  {
  }

  /** The save dialog `browseButton_Click` opens: its file type filter and
      the name it proposes. */
  datatype SaveDialog = SaveDialog(filter: string, fileName: string)

  const ZipFilter: string := "Zip File (*.zip)|*.zip"
  const PgpFilter: string := "PGP File (*.pgp)|*.pgp"
  const TextFilter: string := "Text File (*.txt)|*.txt|Zip File (*.zip)|*.zip|All Files (*.*)|*.*"

  /** The dialog for the chosen protection on day `today`: a zip for a
      password, a .pgp file for a key, plain text otherwise. */
  function ProposedDialog(today: Date, passwordChecked: bool, pgpChecked: bool): (r: SaveDialog)
    requires ValidDate(today)
  {
    var name := "winauth-" + FormatDate(today);
    if passwordChecked then SaveDialog(ZipFilter, name + ".zip")
    else if pgpChecked then SaveDialog(PgpFilter, name + ".pgp")
    else SaveDialog(TextFilter, name + ".txt")
  }

  /** The proposed name is "winauth-", the date and an extension that
      tells the protection; the password wins when both boxes are checked. */
  lemma ProposedName(today: Date, passwordChecked: bool, pgpChecked: bool)
    requires ValidDate(today)
    ensures var n := ProposedDialog(today, passwordChecked, pgpChecked).fileName;
            && |n| == 22 && n[..8] == "winauth-" && n[8..18] == FormatDate(today)
            && (n[18..] == ".zip" <==> passwordChecked)
            && (n[18..] == ".pgp" <==> !passwordChecked && pgpChecked)
            && (n[18..] == ".txt" <==> !passwordChecked && !pgpChecked)
  {
    FormatDateRoundTrip(today);
  }

  class ExportForm {
    var passwordChecked: bool
    var pgpChecked: bool
    var passwordFieldEnabled: bool
    var verifyFieldEnabled: bool
    var pgpFieldEnabled: bool
    var passwordField: string
    var verifyField: string
    var pgpField: string
    var fileField: string
    /** The `ExportFile`, `Password` and `PGPKey` properties; `None` is null. */
    var exportFile: Option<string>
    var password: Option<string>
    var pgpKey: Option<string>
    /** The error dialogs shown, in order. */
    var errors: seq<ExportError>
    var dialogResult: DialogResult

    /** At most one protection is chosen, and each text field is enabled
        exactly when its box is checked. */
    predicate Valid()
      reads this`passwordChecked, this`pgpChecked, this`passwordFieldEnabled, this`verifyFieldEnabled,
            this`pgpFieldEnabled
    {
      && !(passwordChecked && pgpChecked)
      && passwordFieldEnabled == passwordChecked && verifyFieldEnabled == passwordChecked
      && pgpFieldEnabled == pgpChecked
    }

    function GetInputs(): Inputs
      reads this`passwordChecked, this`pgpChecked, this`passwordField, this`verifyField, this`pgpField,
            this`fileField
    {
      Inputs(passwordChecked, pgpChecked, passwordField, verifyField, pgpField, fileField)
    }

    function GetFields(): Fields
      reads this`exportFile, this`password, this`pgpKey, this`errors
    {
      Fields(exportFile, password, pgpKey, errors)
    }

    /** A new dialog: no box checked, nothing typed, no property set. */
    constructor ()
      ensures Valid() && !passwordChecked && !pgpChecked
      ensures GetInputs() == Inputs(false, false, "", "", "", "")
      ensures GetFields() == Fields(None, None, None, [])
    {
      passwordChecked, pgpChecked := false, false;
      passwordFieldEnabled, verifyFieldEnabled, pgpFieldEnabled := false, false, false;
      passwordField, verifyField, pgpField, fileField := "", "", "", "";
      exportFile, password, pgpKey := None, None, None;
      errors := [];
      dialogResult := Undecided;
    }

    /** `passwordCheckbox_CheckedChanged`. Checking the password box
        unchecks the PGP box, which raises that box's own handler; the two
        password fields follow the box. */
    method PasswordCheckedChanged()
      modifies this`pgpChecked, this`passwordFieldEnabled, this`verifyFieldEnabled, this`pgpFieldEnabled
      modifies this`passwordChecked
      ensures passwordChecked == old(passwordChecked)
      ensures pgpChecked == (old(pgpChecked) && !passwordChecked)
      ensures passwordFieldEnabled == passwordChecked && verifyFieldEnabled == passwordChecked
      ensures pgpFieldEnabled == (if passwordChecked && old(pgpChecked) then false else old(pgpFieldEnabled))
      decreases if passwordChecked then 2 else 0
    {
      if passwordChecked && pgpChecked {
        pgpChecked := false;
        PgpCheckedChanged();
      }
      passwordFieldEnabled := passwordChecked;
      verifyFieldEnabled := passwordChecked;
    }

    /** `pgpCheckbox_CheckedChanged`. Checking the PGP box unchecks the
        password box, which raises that box's own handler; the key field
        follows the box. */
    method PgpCheckedChanged()
      modifies this`pgpChecked, this`passwordFieldEnabled, this`verifyFieldEnabled, this`pgpFieldEnabled
      modifies this`passwordChecked
      ensures pgpChecked == old(pgpChecked)
      ensures passwordChecked == (old(passwordChecked) && !pgpChecked)
      ensures pgpFieldEnabled == pgpChecked
      ensures passwordFieldEnabled == (if pgpChecked && old(passwordChecked) then false else old(passwordFieldEnabled))
      ensures verifyFieldEnabled == (if pgpChecked && old(passwordChecked) then false else old(verifyFieldEnabled))
      decreases if pgpChecked then 1 else 0
    {
      if pgpChecked && passwordChecked {
        passwordChecked := false;
        PasswordCheckedChanged();
      }
      pgpFieldEnabled := pgpChecked;
    }

    /** The user clicks the password box: it flips and its handler runs. */
    method ClickPasswordBox()
      requires Valid()
      modifies this`pgpChecked, this`passwordFieldEnabled, this`verifyFieldEnabled, this`pgpFieldEnabled
      modifies this`passwordChecked
      ensures Valid()
      ensures passwordChecked == !old(passwordChecked)
      ensures pgpChecked == (old(pgpChecked) && !passwordChecked)
    {
      passwordChecked := !passwordChecked;
      PasswordCheckedChanged();
    }

    /** The user clicks the PGP box: it flips and its handler runs. */
    method ClickPgpBox()
      requires Valid()
      modifies this`pgpChecked, this`passwordFieldEnabled, this`verifyFieldEnabled, this`pgpFieldEnabled
      modifies this`passwordChecked
      ensures Valid()
      ensures pgpChecked == !old(pgpChecked)
      ensures passwordChecked == (old(passwordChecked) && !pgpChecked)
    {
      pgpChecked := !pgpChecked;
      PgpCheckedChanged();
    }

    /** `pgpBrowseButton_Click`, with `chosen` the text of the file picked
        in the open dialog (`None` when it is cancelled). */
    method PgpBrowseClick(chosen: Option<string>)
      modifies this`pgpField
      ensures pgpField == chosen.GetOr(old(pgpField))
    {
      if chosen.Some? {
        pgpField := chosen.value;
      }
    }

    /** `browseButton_Click`, with `today` for `DateTime.Today` and `dialog`
        for the user's answer to the save dialog it shows (`None` when
        cancelled). */
    method BrowseClick(today: Date, dialog: SaveDialog -> Option<string>)
      requires ValidDate(today)
      modifies this`fileField
      ensures fileField == dialog(ProposedDialog(today, passwordChecked, pgpChecked)).GetOr(old(fileField))
    {
      var sfd: SaveDialog;
      if passwordChecked {
        sfd := SaveDialog(ZipFilter, "winauth-" + FormatDate(today) + ".zip");
      } else if pgpChecked {
        sfd := SaveDialog(PgpFilter, "winauth-" + FormatDate(today) + ".pgp");
      } else {
        sfd := SaveDialog(TextFilter, "winauth-" + FormatDate(today) + ".txt");
      }
      var answer := dialog(sfd);
      if answer.None? {
        return;
      }
      fileField := answer.value;
    }

    /** `okButton_Click`. The OK button closes the form unless a check
        fails. */
    method OkClick()
      modifies this`exportFile, this`password, this`pgpKey, this`errors, this`dialogResult
      ensures var (f, closes) := OkEffect(old(GetInputs()), old(GetFields()));
              && exportFile == f.exportFile && password == f.password && pgpKey == f.pgpKey
              && errors == f.errors && dialogResult == (if closes then OK else Undecided)
    {
      ghost var inp := GetInputs();
      dialogResult := OK;
      if passwordChecked && |Trim(passwordField)| == 0 {
        assert Validate(inp) == Some(EnterPassword);
        Refuse(EnterPassword);
        return;
      }
      if passwordChecked && passwordField != verifyField {
        assert Validate(inp) == Some(PasswordsDontMatch);
        Refuse(PasswordsDontMatch);
        return;
      }
      if pgpChecked && |pgpField| == 0 {
        assert Validate(inp) == Some(MissingPGPKey);
        Refuse(MissingPGPKey);
        return;
      }
      if |fileField| == 0 {
        assert Validate(inp) == Some(MissingFile);
        Refuse(MissingFile);
        return;
      }
      assert Validate(inp) == None;
      exportFile := Some(fileField);
      if passwordChecked && |passwordField| != 0 {
        password := Some(passwordField);
      }
      if pgpChecked && |pgpField| != 0 {
        pgpKey := Some(pgpField);
      }
    }

    /** A failed check: the error is shown and the form stays open. */
    method Refuse(e: ExportError)
      modifies this`errors, this`dialogResult
      ensures errors == old(errors) + [e] && dialogResult == Undecided
    {
      errors := errors + [e];
      dialogResult := Undecided;
    }
  }
}
