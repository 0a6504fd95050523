/** `AddBattleNetAuthenticator`: the form that creates, restores or imports
    a Battle.net authenticator. The first tab shows a freshly enrolled
    authenticator, the second restores one from its serial number and
    restore code, and the third imports one from its hexadecimal private
    key. */
module BattleNetEnrol {
  import opened Wrappers
  import opened Forms
  import opened Text
  import SecretText
  import Enrolment

  /** The serial an imported authenticator gets when it has none. */
  const ImportedSerial: string := "US-Imported"

  /** The length of a private key that holds only the 20-byte secret key. */
  const KeyOnlyLength: nat := 40

  /** The Battle.net authenticator the form stores: its serial number and
      the secret it was made from (the hexadecimal key when imported). */
  datatype BattleNet = BattleNet(serial: string, secret: string)

  /** The error dialogs of the form. */
  datatype BattleNetError =
    | NotCreated            // "You need to create an authenticator ..."
    | EnterSerialAndRestore // "Please enter the Serial number and Restore code"
    | RestoreFailed         // an `InvalidRestoreResponseException`
    | EnterPrivateKey       // "Please enter the Private key"
    | KeyTooShort           // "... at least 40 hexadecimal characters ..."
    | ImportFailed          // any exception while importing

  /** `Regex.Replace(s, "0x", "", RegexOptions.IgnoreCase)`: one pass from
      the left removing every `0x` or `0X`; what the removals bring
      together is not looked at again. */
  function RemoveZeroX(s: string): (r: string)
    ensures |r| <= |s|
    decreases |s|
  {
    if |s| >= 2 && s[0] == '0' && (s[1] == 'x' || s[1] == 'X') then RemoveZeroX(s[2..])
    else if s == [] then []
    else [s[0]] + RemoveZeroX(s[1..])
  }

  /** The private key reduced to its hexadecimal digits: `0x` prefixes are
      removed, then every character outside `[0-9a-f]` (ignoring case). */
  function CleanHex(s: string): (r: string)
    ensures forall i :: 0 <= i < |r| ==> IsHexDigit(r[i])
  {
    Keep(RemoveZeroX(s), IsHexDigit)
  }

  /** A text without any `x` has nothing to remove. */
  lemma {:induction false} RemoveZeroXWithoutX(s: string)
    requires 'x' !in s && 'X' !in s
    ensures RemoveZeroX(s) == s
    decreases |s|
  {
    if s != [] {
      assert 'x' !in s[1..] && 'X' !in s[1..];
      RemoveZeroXWithoutX(s[1..]);
    }
  }

  /** A key that is already a run of hexadecimal digits is kept as it is. */
  lemma CleanHexOfHex(s: string)
    requires forall i :: 0 <= i < |s| ==> IsHexDigit(s[i])
    ensures CleanHex(s) == s
  {
    RemoveZeroXWithoutX(s);
  }

  /** The key written as a listing of bytes, `0x7B, 0x0B, 0xFA, ...`. */
  function Listing(bytes: seq<string>): (r: string)
    ensures bytes == [] ==> r == []
    ensures bytes != [] ==> |r| >= 2 && r[0] == '0' && r[1] == 'x'
  {
    if bytes == [] then []
    else "0x" + bytes[0] + (if |bytes| == 1 then "" else ", " + Listing(bytes[1..]))
  }

  /** The bytes of a listing, written out one after the other. */
  function Concat(bytes: seq<string>): string {
    if bytes == [] then [] else bytes[0] + Concat(bytes[1..])
  }

  /** Both ways of writing the key that the error message suggests,
      `7B0BFA82...` and `0x7B, 0x0B, 0xFA, 0x82, ...`, clean to the same
      digits. */
  lemma {:induction false} CleanHexOfListing(bytes: seq<string>)
    requires AllHex(bytes)
    ensures CleanHex(Listing(bytes)) == Concat(bytes)
    decreases |bytes|
  {
    if bytes != [] {
      var b := bytes[0];
      var sep := if |bytes| == 1 then "" else ", ";
      var rest := if |bytes| == 1 then [] else bytes[1..];
      HexTail(bytes);
      assert Listing(bytes) == "0x" + (b + sep + Listing(rest));
      CleanHexStep(b, sep, Listing(rest));
      CleanHexOfListing(rest);
      if |bytes| == 1 {
        assert Concat(bytes) == b + Concat([]);
      }
    }
  }

  /** Every byte of the listing is written in hexadecimal digits. */
  predicate AllHex(bytes: seq<string>) {
    forall i, j :: 0 <= i < |bytes| && 0 <= j < |bytes[i]| ==> IsHexDigit(bytes[i][j])
  }

  lemma HexTail(bytes: seq<string>)
    requires bytes != [] && AllHex(bytes)
    ensures AllHex(bytes[1..])
    ensures forall j :: 0 <= j < |bytes[0]| ==> IsHexDigit(bytes[0][j])
  {
    var rest := bytes[1..];
    forall i, j | 0 <= i < |rest| && 0 <= j < |rest[i]| ensures IsHexDigit(rest[i][j]) {
      assert rest[i] == bytes[i + 1];
    }
  }

  /** One byte of the listing: its `0x` goes, its digits stay and its
      separator is filtered out. */
  lemma CleanHexStep(b: string, sep: string, tail: string)
    requires forall j :: 0 <= j < |b| ==> IsHexDigit(b[j])
    requires sep == "" || sep == ", "
    requires tail == [] || tail[0] == '0'
    ensures CleanHex("0x" + (b + sep + tail)) == b + CleanHex(tail)
  {
    var t := b + sep + tail;
    DropZeroX(t);
    assert 'x' !in b + sep && 'X' !in b + sep;
    RemoveZeroXSafePrefix(b + sep, tail);
    var removed := RemoveZeroX(tail);
    assert RemoveZeroX("0x" + t) == (b + sep) + removed;
    KeepAppend(b + sep, removed, IsHexDigit);
    KeepAppend(b, sep, IsHexDigit);
    SeparatorIsDropped(sep);
    assert Keep(b, IsHexDigit) == b;
    assert Keep(b + sep, IsHexDigit) == b;
    assert Keep(removed, IsHexDigit) == CleanHex(tail);
  }

  lemma DropZeroX(t: string)
    ensures RemoveZeroX("0x" + t) == RemoveZeroX(t)
  {
    assert ("0x" + t)[2..] == t;
  }

  lemma SeparatorIsDropped(sep: string)
    requires sep == "" || sep == ", "
    ensures Keep(sep, IsHexDigit) == []
  {
    if sep != "" {
      assert Keep(sep[1..], IsHexDigit) == [];
    }
  }

  /** A prefix with no `x` that cannot end a `0` right before an `x` is
      left alone by the `0x` removal. */
  lemma {:induction false} RemoveZeroXSafePrefix(p: string, r: string)
    requires 'x' !in p && 'X' !in p
    requires r == [] || (r[0] != 'x' && r[0] != 'X')
    ensures RemoveZeroX(p + r) == p + RemoveZeroX(r)
    decreases |p|
  {
    if p == [] {
      assert p + r == r;
    } else {
      var s := p + r;
      assert s[1..] == p[1..] + r;
      assert 'x' !in p[1..] && 'X' !in p[1..];
      if |p| >= 2 {
        assert s[1] == p[1];
      } else if |s| >= 2 {
        assert s[1] == r[0];
      }
      assert RemoveZeroX(s) == [p[0]] + RemoveZeroX(s[1..]);
      RemoveZeroXSafePrefix(p[1..], r);
      assert [p[0]] + p[1..] == p;
      ConcatAssoc([p[0]], p[1..], RemoveZeroX(r));
    }
  }

  /** The import tab's authenticator for a cleaned key of at least 40
      digits. Exactly 40 digits are the secret key alone and get the
      imported serial; a longer key is parsed as secret data, which may set
      a serial (`secretDataSerial`, `None` when parsing throws), and the
      imported serial replaces an empty one. `syncOk` says whether `Sync`
      returns normally. */
  function ImportKey(hex: string, secretDataSerial: string -> Option<string>, syncOk: bool): (r: Option<BattleNet>)
    requires |hex| >= KeyOnlyLength
    ensures r.Some? ==> syncOk && r.value.secret == hex && r.value.serial != ""
    ensures |hex| == KeyOnlyLength ==> r == (if syncOk then Some(BattleNet(ImportedSerial, hex)) else None)
    ensures |hex| > KeyOnlyLength ==> (r.Some? <==> syncOk && secretDataSerial(hex).Some?)
    ensures |hex| > KeyOnlyLength && r.Some? ==>
              r.value.serial == (if secretDataSerial(hex).value == "" then ImportedSerial else secretDataSerial(hex).value)
  {
    if |hex| == KeyOnlyLength then
      if syncOk then Some(BattleNet(ImportedSerial, hex)) else None
    else match secretDataSerial(hex)
      case None => None
      case Some(serial) =>
        if syncOk then Some(BattleNet(if serial == "" then ImportedSerial else serial, hex)) else None
  }

  /** What `verifyAuthenticator` changes: the name, the stored
      authenticator and the error dialogs shown. */
  datatype Fields = Fields(name: string, data: Option<BattleNet>, errors: seq<BattleNetError>)

  /** The text boxes `verifyAuthenticator` reads. */
  datatype Inputs = Inputs(tab: int, nameField: string, restoreSerial: string, restoreCode: string, privateKey: string)

  /** The services `verifyAuthenticator` calls: `restore` stands for
      `BattleNetAuthenticator.Restore` (`None` when it throws
      `InvalidRestoreResponseException`), `secretDataSerial` and `syncOk`
      for the import as in `ImportKey`. */
  datatype Services = Services(restore: (string, string) -> Option<BattleNet>,
                               secretDataSerial: string -> Option<string>, syncOk: bool)

  function Fail(f: Fields, e: BattleNetError): (Fields, bool) {
    (f.(errors := f.errors + [e]), false)
  }

  /** `verifyAuthenticator` on the form's fields: the name is always taken
      from the name field; then the selected tab decides. */
  function VerifyEffect(inp: Inputs, svc: Services, f: Fields): (r: (Fields, bool))
  {
    var f1 := f.(name := inp.nameField);
    if inp.tab == 0 then
      if f.data.None? then Fail(f1, NotCreated) else (f1, true)
    else if inp.tab == 1 then
      var serial := Trim(inp.restoreSerial);
      var restore := Trim(inp.restoreCode);
      if serial == "" || restore == "" then Fail(f1, EnterSerialAndRestore)
      else match svc.restore(serial, restore)
        case None => Fail(f1, RestoreFailed)
        case Some(d) => (f1.(data := Some(d)), true)
    else if inp.tab == 2 then
      var key := Trim(inp.privateKey);
      if key == "" then Fail(f1, EnterPrivateKey)
      else
        var hex := CleanHex(key);
        if hex == "" || |hex| < KeyOnlyLength then Fail(f1, KeyTooShort)
        else match ImportKey(hex, svc.secretDataSerial, svc.syncOk)
          case None => Fail(f1, ImportFailed)
          case Some(d) => (f1.(data := Some(d)), true)
    else (f1, true)
  }

  /** Whatever the tab, the name is taken from the name field, a failure
      shows exactly one error and keeps the stored authenticator, and a
      success shows none. */
  lemma VerifyOutcome(inp: Inputs, svc: Services, f: Fields)
    ensures var (g, ok) := VerifyEffect(inp, svc, f);
            && g.name == inp.nameField
            && (ok ==> g.errors == f.errors)
            && (!ok ==> g.data == f.data && |g.errors| == |f.errors| + 1 && g.errors[..|f.errors|] == f.errors)
            && (ok && g.data != f.data ==> inp.tab in {1, 2})
  {
    var (g, ok) := VerifyEffect(inp, svc, f);
    if !ok {
      assert g.errors[..|f.errors|] == f.errors;
    }
  }

  /** The create tab succeeds exactly when an authenticator was created. */
  lemma CreateTabNeedsAuthenticator(inp: Inputs, svc: Services, f: Fields)
    requires inp.tab == 0
    ensures VerifyEffect(inp, svc, f).1 <==> f.data.Some?
    ensures !VerifyEffect(inp, svc, f).1 ==> VerifyEffect(inp, svc, f).0.errors == f.errors + [NotCreated]
  {
  }

  /** The restore tab: a blank serial or restore code is refused before
      the server is asked; otherwise the restored authenticator is stored
      exactly when the restore succeeds. */
  lemma RestoreTab(inp: Inputs, svc: Services, f: Fields)
    requires inp.tab == 1
    ensures var (g, ok) := VerifyEffect(inp, svc, f);
            var serial := Trim(inp.restoreSerial);
            var code := Trim(inp.restoreCode);
            && (serial == "" || code == "" ==> !ok && g.errors == f.errors + [EnterSerialAndRestore])
            && (serial != "" && code != "" ==>
                  (ok <==> svc.restore(serial, code).Some?)
                  && (ok ==> g.data == svc.restore(serial, code))
                  && (!ok ==> g.errors == f.errors + [RestoreFailed]))
  {
  }

  /** The import tab: a blank key, or fewer than 40 hexadecimal digits
      after cleaning, is an error; otherwise the imported authenticator is
      stored, holding the cleaned digits and a serial that is never empty. */
  lemma ImportTab(inp: Inputs, svc: Services, f: Fields)
    requires inp.tab == 2
    ensures var (g, ok) := VerifyEffect(inp, svc, f);
            var key := Trim(inp.privateKey);
            && (key == "" ==> !ok && g.errors == f.errors + [EnterPrivateKey])
            && (key != "" && |CleanHex(key)| < KeyOnlyLength ==> !ok && g.errors == f.errors + [KeyTooShort])
            && (key != "" && |CleanHex(key)| >= KeyOnlyLength ==>
                  (ok <==> ImportKey(CleanHex(key), svc.secretDataSerial, svc.syncOk).Some?)
                  && (ok ==> g.data.Some? && g.data.value.secret == CleanHex(key) && g.data.value.serial != "")
                  && (ok && |CleanHex(key)| == KeyOnlyLength ==> g.data.value.serial == ImportedSerial))
  {
  }

  /** A key pasted as a byte listing imports as the same key written out. */
  lemma ImportListing(inp: Inputs, svc: Services, f: Fields, bytes: seq<string>)
    requires inp.tab == 2 && inp.privateKey == Listing(bytes)
    requires AllHex(bytes)
    requires |Concat(bytes)| >= KeyOnlyLength
    ensures VerifyEffect(inp, svc, f) == VerifyEffect(inp.(privateKey := Concat(bytes)), svc, f)
  {
    var key := Listing(bytes);
    var flat := Concat(bytes);
    CleanHexOfListing(bytes);
    ListingIsTrimmed(bytes);
    ConcatOfHex(bytes);
    assert flat != [];
    VisibleIsTrimmed(flat);
    CleanHexOfHex(flat);
  }

  /** A listing starts with `0` and ends with a digit or an `x`, so
      trimming leaves it alone. */
  lemma ListingIsTrimmed(bytes: seq<string>)
    requires bytes != []
    requires AllHex(bytes)
    ensures Trim(Listing(bytes)) == Listing(bytes)
  {
    ListingEnds(bytes);
    VisibleIsTrimmed(Listing(bytes));
  }

  lemma {:induction false} ListingEnds(bytes: seq<string>)
    requires bytes != []
    requires AllHex(bytes)
    ensures var r := Listing(bytes); !IsWhiteSpace(r[|r| - 1])
    decreases |bytes|
  {
    var b := bytes[0];
    if |bytes| > 1 {
      var rest := bytes[1..];
      HexTail(bytes);
      ListingEnds(rest);
      var t := Listing(rest);
      assert Listing(bytes)[|Listing(bytes)| - 1] == t[|t| - 1];
    } else if b != [] {
      assert IsHexDigit(bytes[0][|b| - 1]);
      assert Listing(bytes)[|Listing(bytes)| - 1] == b[|b| - 1];
    }
  }

  /** The written-out bytes are hexadecimal digits. */
  lemma {:induction false} ConcatOfHex(bytes: seq<string>)
    requires AllHex(bytes)
    ensures forall k :: 0 <= k < |Concat(bytes)| ==> IsHexDigit(Concat(bytes)[k])
    decreases |bytes|
  {
    if bytes != [] {
      var rest := bytes[1..];
      HexTail(bytes);
      ConcatOfHex(rest);
      var c := Concat(bytes);
      forall k | 0 <= k < |c| ensures IsHexDigit(c[k]) {
        if k < |bytes[0]| {
          assert c[k] == bytes[0][k];
        } else {
          assert c[k] == Concat(rest)[k - |bytes[0]|];
        }
      }
    }
  }

  /** A text that starts and ends with visible characters trims to itself. */
  lemma VisibleIsTrimmed(s: string)
    requires s != [] && !IsWhiteSpace(s[0]) && !IsWhiteSpace(s[|s| - 1])
    ensures Trim(s) == s
  {
    TrimPadded(s, "");
    assert s + "" == s;
  }

  class BattleNetForm {
    /** `Authenticator.Name`. */
    var name: string
    var nameField: string
    /** `tabControl1.SelectedIndex`. */
    var tab: int
    var restoreSerialField: string
    var restoreCodeField: string
    var privateKeyField: string
    /** `allowCopyNewButton.Checked`. */
    var allowCopy: bool
    /** `Authenticator.AuthenticatorData`. */
    var data: Option<BattleNet>
    var progressVisible: bool
    var progressValue: int
    /** The error dialogs shown, in order. */
    var errors: seq<BattleNetError>
    var dialogResult: DialogResult
    /** `newSerialNumberField`, `newLoginCodeField` and `newRestoreCodeField`. */
    const serialBox: SecretText.SecretTextBox
    const loginBox: SecretText.SecretTextBox
    const restoreBox: SecretText.SecretTextBox

    /** The three secret text boxes are different controls. */
    predicate Valid()
    {
      serialBox != loginBox && serialBox != restoreBox && loginBox != restoreBox
    }

    function GetFields(): Fields
      reads this`name, this`data, this`errors
    {
      Fields(name, data, errors)
    }

    function GetInputs(): Inputs
      reads this`tab, this`nameField, this`restoreSerialField, this`restoreCodeField, this`privateKeyField
    {
      Inputs(tab, nameField, restoreSerialField, restoreCodeField, privateKeyField)
    }

    /** A new form for an authenticator named `authName`, before `Load`. */
    constructor (authName: string, serial: SecretText.SecretTextBox, login: SecretText.SecretTextBox,
                 restore: SecretText.SecretTextBox)
      requires serial != login && serial != restore && login != restore
      ensures Valid()
      ensures name == authName && data == None && errors == [] && !allowCopy && !progressVisible
      ensures serialBox == serial && loginBox == login && restoreBox == restore
    {
      name := authName;
      nameField := "";
      tab := 0;
      restoreSerialField := "";
      restoreCodeField := "";
      privateKeyField := "";
      allowCopy := false;
      data := None;
      progressVisible := false;
      progressValue := 0;
      errors := [];
      dialogResult := Undecided;
      serialBox := serial;
      loginBox := login;
      restoreBox := restore;
    }

    /** `AddBattleNetAuthenticator_Load`: the name field shows the name and
        the three boxes of the new authenticator are secret. */
    method Load()
      requires Valid()
      modifies this`nameField, serialBox, loginBox, restoreBox
      ensures nameField == name
      ensures serialBox.secretMode && loginBox.secretMode && restoreBox.secretMode
      ensures serialBox.text == old(serialBox.text) && loginBox.text == old(loginBox.text)
      ensures restoreBox.text == old(restoreBox.text)
    {
      nameField := name;
      serialBox.SetSecretMode(true);
      loginBox.SetSecretMode(true);
      restoreBox.SetSecretMode(true);
    }

    /** `allowCopyNewButton_CheckedChanged`: allowing copy unmasks the three
        boxes, and the serial is shown without its dashes so it can be
        pasted into the Battle.net site. */
    method AllowCopyChanged()
      requires Valid()
      modifies serialBox, loginBox, restoreBox
      ensures serialBox.secretMode == !allowCopy && loginBox.secretMode == !allowCopy
      ensures restoreBox.secretMode == !allowCopy
      ensures data.Some? ==>
                serialBox.text == Some(if allowCopy then RemoveChar(data.value.serial, '-') else data.value.serial)
      ensures data.None? ==> serialBox.text == old(serialBox.text)
      ensures loginBox.text == old(loginBox.text) && restoreBox.text == old(restoreBox.text)
    {
      serialBox.SetSecretMode(!allowCopy);
      if data.Some? {
        if allowCopy {
          serialBox.SetText(Some(RemoveChar(data.value.serial, '-')));
        } else {
          serialBox.SetText(Some(data.value.serial));
        }
      }
      loginBox.SetSecretMode(!allowCopy);
      restoreBox.SetSecretMode(!allowCopy);
    }

    /** `newAuthenticatorTimer_Tick` at server time `serverTime`, with
        `currentCode` the authenticator's code then. */
    method Tick(serverTime: nat, currentCode: string)
      modifies this`progressValue, loginBox`text, loginBox`baseText
      ensures data.None? || !progressVisible ==>
                progressValue == old(progressValue) && loginBox.text == old(loginBox.text)
      ensures data.Some? && progressVisible ==>
                && progressValue == Enrolment.Step(serverTime) + 1
                && 1 <= progressValue <= Enrolment.StepSeconds
                && loginBox.text == (if progressValue == 1 then Some(currentCode) else old(loginBox.text))
    {
      if data.Some? && progressVisible {
        var time := Enrolment.Step(serverTime);
        progressValue := time + 1;
        if time == 0 {
          loginBox.SetText(Some(currentCode));
        }
      }
    }

    /** `cancelButton_Click`. */
    method CancelClick(answer: DialogResult)
      modifies this`dialogResult
      ensures dialogResult == Enrolment.CancelResult(data.Some?, answer)
    {
      dialogResult := Cancel;
      if data.Some? {
        if answer == Yes {
          dialogResult := OK;
          return;
        }
        if answer == Cancel {
          dialogResult := Undecided;
        }
      }
    }

    /** `verifyAuthenticator`. */
    method Verify(svc: Services) returns (ok: bool)
      modifies this`name, this`data, this`errors
      ensures var (f, verified) := VerifyEffect(old(GetInputs()), svc, old(GetFields()));
              name == f.name && data == f.data && errors == f.errors && ok == verified
    {
      name := nameField;
      if tab == 0 {
        if data.None? {
          errors := errors + [NotCreated];
          return false;
        }
      } else if tab == 1 {
        var serial := Trim(restoreSerialField);
        var restore := Trim(restoreCodeField);
        if |serial| == 0 || |restore| == 0 {
          errors := errors + [EnterSerialAndRestore];
          return false;
        }
        var restored := svc.restore(serial, restore);
        if restored.None? {
          errors := errors + [RestoreFailed];
          return false;
        }
        data := restored;
      } else if tab == 2 {
        var privatekey := Trim(privateKeyField);
        if |privatekey| == 0 {
          errors := errors + [EnterPrivateKey];
          return false;
        }
        privatekey := CleanHex(privatekey);
        if |privatekey| == 0 || |privatekey| < KeyOnlyLength {
          errors := errors + [KeyTooShort];
          return false;
        }
        var imported := ImportKey(privatekey, svc.secretDataSerial, svc.syncOk);
        if imported.None? {
          errors := errors + [ImportFailed];
          return false;
        }
        data := imported;
      }
      return true;
    }

    /** `okButton_Click`: the OK button closes the form unless verifying
        fails. */
    method OkClick(svc: Services)
      modifies this`name, this`data, this`errors, this`dialogResult
      ensures var (f, verified) := VerifyEffect(old(GetInputs()), svc, old(GetFields()));
              name == f.name && data == f.data && errors == f.errors
              && dialogResult == (if verified then OK else Undecided)
    {
      dialogResult := OK;
      var ok := Verify(svc);
      if !ok {
        dialogResult := Undecided;
      }
    }
  }
}
