/** `AddTrionAuthenticator`: the form that creates a Trion (Glyph)
    authenticator or restores one from the account's email, password,
    device id and the answers to its security questions. */
module TrionEnrol {
  import opened Wrappers
  import opened Forms
  import opened Text
  import SecretText
  import Enrolment

  /** The Trion authenticator the form stores. */
  datatype Trion = Trion(serial: string, deviceId: string)

  /** The error dialogs of the form. */
  datatype TrionError =
    | NotCreated              // "You need to create an authenticator ..."
    | EnterEmailAndPassword   // "Please enter your account email and password"
    | QuestionsFailed         // any exception while fetching the questions
    | EnterDeviceAndAnswers   // "Please enter the device ID and answers ..."
    | RestoreFailed           // any exception while restoring

  /** What the restore tab's handlers change: the stored authenticator, the
      two question labels and the error dialogs shown. */
  datatype Fields = Fields(data: Option<Trion>, question1: string, question2: string, errors: seq<TrionError>)

  /** The text boxes the restore tab reads. */
  datatype Inputs = Inputs(tab: int, email: string, password: string, deviceId: string, answer1: string, answer2: string)

  /** The account services: `questions` stands for
      `TrionAuthenticator.SecurityQuestions` (its two questions, each
      possibly null; `None` when it throws) and `restore` for
      `TrionAuthenticator.Restore` on email, password, device id and the
      two answers (`None` when it throws). */
  datatype Services = Services(questions: (string, string) -> Option<(Option<string>, Option<string>)>,
                               restore: (string, string, string, string, string) -> Option<Trion>)

  function Fail(f: Fields, e: TrionError): Fields {
    f.(errors := f.errors + [e])
  }

  /** `restoreGetQuestionsButton_Click`: the questions are fetched only for
      a non-blank email and password, and a null question shows as an
      empty label. */
  function QuestionsEffect(inp: Inputs, svc: Services, f: Fields): (g: Fields)
  {
    var email := Trim(inp.email);
    var password := Trim(inp.password);
    if email == "" || password == "" then Fail(f, EnterEmailAndPassword)
    else match svc.questions(email, password)
      case None => Fail(f, QuestionsFailed)
      case Some(qs) => f.(question1 := qs.0.GetOr(""), question2 := qs.1.GetOr(""))
  }

  /** `verifyAuthenticator`. The create tab needs an authenticator. Any
      other tab restores: with no first question yet the questions are
      fetched instead; the trimmed device id is required, and both answers,
      untrimmed, only when there is a second question. */
  function VerifyEffect(inp: Inputs, svc: Services, f: Fields): (r: (Fields, bool))
  {
    if inp.tab == 0 then
      if f.data.None? then (Fail(f, NotCreated), false) else (f, true)
    else if f.question1 == "" then (QuestionsEffect(inp, svc, f), false)
    else
      var email := Trim(inp.email);
      var password := Trim(inp.password);
      var deviceId := Trim(inp.deviceId);
      if deviceId == "" || (f.question2 != "" && inp.answer1 == "") || (f.question2 != "" && inp.answer2 == "") then
        (Fail(f, EnterDeviceAndAnswers), false)
      else match svc.restore(email, password, deviceId, inp.answer1, inp.answer2)
        case None => (Fail(f, RestoreFailed), false)
        case Some(d) => (f.(data := Some(d)), true)
  }

  /** Fetching the questions never touches the stored authenticator; it
      asks the account only for a non-blank email and password, and then
      shows exactly the questions it gets or one error. */
  lemma QuestionsOutcome(inp: Inputs, svc: Services, f: Fields)
    ensures var g := QuestionsEffect(inp, svc, f);
            var email := Trim(inp.email);
            var password := Trim(inp.password);
            && g.data == f.data
            && (email == "" || password == "" ==> g == f.(errors := f.errors + [EnterEmailAndPassword]))
            && (email != "" && password != "" && svc.questions(email, password).Some? ==>
                  var qs := svc.questions(email, password).value;
                  g.errors == f.errors
                  && (g.question1 == "" <==> qs.0.None? || qs.0.value == "")
                  && (g.question2 == "" <==> qs.1.None? || qs.1.value == ""))
            && (email != "" && password != "" && svc.questions(email, password).None? ==>
                  g == f.(errors := f.errors + [QuestionsFailed]))
  {
  }

  /** The restore tab succeeds only with a first question on screen, a
      non-blank device id and, when there is a second question, both
      answers; it then stores what the account restored. */
  lemma RestoreNeeds(inp: Inputs, svc: Services, f: Fields)
    requires inp.tab != 0
    ensures var (g, ok) := VerifyEffect(inp, svc, f);
            ok <==> && f.question1 != "" && Trim(inp.deviceId) != ""
                    && (f.question2 != "" ==> inp.answer1 != "" && inp.answer2 != "")
                    && svc.restore(Trim(inp.email), Trim(inp.password), Trim(inp.deviceId),
                                   inp.answer1, inp.answer2).Some?
    ensures var (g, ok) := VerifyEffect(inp, svc, f);
            ok ==> g.data == svc.restore(Trim(inp.email), Trim(inp.password), Trim(inp.deviceId),
                                         inp.answer1, inp.answer2)
  {
  }

  /** Without a first question, OK fetches the questions and keeps the
      form open; the answers are not looked at. */
  lemma FirstOkFetchesQuestions(inp: Inputs, svc: Services, f: Fields)
    requires inp.tab != 0 && f.question1 == ""
    ensures VerifyEffect(inp, svc, f) == (QuestionsEffect(inp, svc, f), false)
    ensures VerifyEffect(inp, svc, f) == VerifyEffect(inp.(answer1 := "", answer2 := ""), svc, f)
  {
  }

  /** Answers are taken as typed: a blank answer of spaces passes the
      check that an empty one fails. */
  lemma AnswersAreNotTrimmed(inp: Inputs, svc: Services, f: Fields)
    requires inp.tab != 0 && f.question1 != "" && f.question2 != "" && Trim(inp.deviceId) != ""
    requires inp.answer1 == " " && inp.answer2 == " "
    ensures VerifyEffect(inp, svc, f).1 <==>
              svc.restore(Trim(inp.email), Trim(inp.password), Trim(inp.deviceId), " ", " ").Some?
    ensures VerifyEffect(inp.(answer1 := ""), svc, f).0 == Fail(f, EnterDeviceAndAnswers)
  {
  }

  /** Every failure keeps the stored authenticator and every outcome but
      a fetch of the questions keeps the labels; the create tab succeeds
      exactly when an authenticator exists. */
  lemma VerifyOutcome(inp: Inputs, svc: Services, f: Fields)
    ensures var (g, ok) := VerifyEffect(inp, svc, f);
            && (!ok ==> g.data == f.data)
            && (ok ==> g.errors == f.errors && g.question1 == f.question1 && g.question2 == f.question2)
            && (inp.tab == 0 ==> (ok <==> f.data.Some?) && (g.question1, g.question2) == (f.question1, f.question2))
            && (!ok ==> |g.errors| <= |f.errors| + 1)
  {
  }

  class TrionForm {
    var nameField: string
    /** `Authenticator.Name`. */
    var name: string
    /** `tabControl1.SelectedIndex`. */
    var tab: int
    var emailField: string
    var passwordField: string
    var deviceIdField: string
    var answer1Field: string
    var answer2Field: string
    /** `restoreQuestion1Label.Text` and `restoreQuestion2Label.Text`. */
    var question1: string
    var question2: string
    /** `allowCopyNewButton.Checked`. */
    var allowCopy: bool
    /** `Authenticator.AuthenticatorData`. */
    var data: Option<Trion>
    /** The error dialogs shown, in order. */
    var errors: seq<TrionError>
    var dialogResult: DialogResult
    /** `newSerialNumberField`, `newLoginCodeField` and `newRestoreCodeField`. */
    const serialBox: SecretText.SecretTextBox
    const loginBox: SecretText.SecretTextBox
    const restoreBox: SecretText.SecretTextBox

    /** The three secret text boxes are different controls. */
    predicate Valid()
    {
      serialBox != loginBox && serialBox != restoreBox && loginBox != restoreBox
    }

    function GetFields(): Fields
      reads this`data, this`question1, this`question2, this`errors
    {
      Fields(data, question1, question2, errors)
    }

    function GetInputs(): Inputs
      reads this`tab, this`emailField, this`passwordField, this`deviceIdField, this`answer1Field, this`answer2Field
    {
      Inputs(tab, emailField, passwordField, deviceIdField, answer1Field, answer2Field)
    }

    /** A new form for an authenticator named `authName`, before `Load`. */
    constructor (authName: string, serial: SecretText.SecretTextBox, login: SecretText.SecretTextBox,
                 restore: SecretText.SecretTextBox)
      requires serial != login && serial != restore && login != restore
      ensures Valid()
      ensures name == authName && data == None && errors == [] && !allowCopy
      ensures question1 == "" && question2 == ""
      ensures serialBox == serial && loginBox == login && restoreBox == restore
    {
      nameField := "";
      name := authName;
      tab := 0;
      emailField := "";
      passwordField := "";
      deviceIdField := "";
      answer1Field := "";
      answer2Field := "";
      question1 := "";
      question2 := "";
      allowCopy := false;
      data := None;
      errors := [];
      dialogResult := Undecided;
      serialBox := serial;
      loginBox := login;
      restoreBox := restore;
    }

    /** `AddTrionAuthenticator_Load`. */
    method Load()
      requires Valid()
      modifies this`nameField, serialBox, loginBox, restoreBox
      ensures nameField == name
      ensures serialBox.secretMode && loginBox.secretMode && restoreBox.secretMode
      ensures serialBox.text == old(serialBox.text) && loginBox.text == old(loginBox.text)
      ensures restoreBox.text == old(restoreBox.text)
    {
      nameField := name;
      serialBox.SetSecretMode(true);
      loginBox.SetSecretMode(true);
      restoreBox.SetSecretMode(true);
    }

    /** `allowCopyNewButton_CheckedChanged`: the serial and restore boxes
        follow the check box; the login code box stays as it is. */
    method AllowCopyChanged()
      requires Valid()
      modifies serialBox, restoreBox
      ensures serialBox.secretMode == !allowCopy && restoreBox.secretMode == !allowCopy
      ensures serialBox.text == old(serialBox.text) && restoreBox.text == old(restoreBox.text)
      ensures unchanged(loginBox)
    {
      serialBox.SetSecretMode(!allowCopy);
      restoreBox.SetSecretMode(!allowCopy);
    }

    /** `newAuthenticatorTimer_Tick`: no progress bar here; the code is
        refreshed at the start of each step. */
    method Tick(serverTime: nat, currentCode: string)
      modifies loginBox`text, loginBox`baseText
      ensures loginBox.text == (if data.Some? && Enrolment.Step(serverTime) == 0 then Some(currentCode)
                                else old(loginBox.text))
    {
      if data.Some? {
        var time := Enrolment.Step(serverTime);
        if time == 0 {
          loginBox.SetText(Some(currentCode));
        }
      }
    }

    /** `cancelButton_Click`. */
    method CancelClick(answer: DialogResult)
      modifies this`dialogResult
      ensures dialogResult == Enrolment.CancelResult(data.Some?, answer)
    {
      dialogResult := Cancel;
      if data.Some? {
        if answer == Yes {
          dialogResult := OK;
          return;
        }
        if answer == Cancel {
          dialogResult := Undecided;
        }
      }
    }

    /** `restoreGetQuestionsButton_Click`. */
    method GetQuestionsClick(svc: Services)
      modifies this`question1, this`question2, this`errors
      ensures GetFields() == QuestionsEffect(GetInputs(), svc, old(GetFields()))
    {
      var email := Trim(emailField);
      var password := Trim(passwordField);
      if |email| == 0 || |password| == 0 {
        errors := errors + [EnterEmailAndPassword];
        return;
      }
      var qs := svc.questions(email, password);
      if qs.None? {
        errors := errors + [QuestionsFailed];
        return;
      }
      question1 := qs.value.0.GetOr("");
      question2 := qs.value.1.GetOr("");
    }

    /** `verifyAuthenticator`. */
    method Verify(svc: Services) returns (ok: bool)
      modifies this`data, this`question1, this`question2, this`errors
      ensures var (f, verified) := VerifyEffect(old(GetInputs()), svc, old(GetFields()));
              data == f.data && question1 == f.question1 && question2 == f.question2
              && errors == f.errors && ok == verified
    {
      if tab == 0 {
        if data.None? {
          errors := errors + [NotCreated];
          return false;
        }
        return true;
      }
      if |question1| == 0 {
        GetQuestionsClick(svc);
        return false;
      }
      var email := Trim(emailField);
      var password := Trim(passwordField);
      var deviceId := Trim(deviceIdField);
      var answer1 := answer1Field;
      var answer2 := answer2Field;
      if |deviceId| == 0 || (|question2| != 0 && |answer1| == 0) || (|question2| != 0 && |answer2| == 0) {
        errors := errors + [EnterDeviceAndAnswers];
        return false;
      }
      var restored := svc.restore(email, password, deviceId, answer1, answer2);
      if restored.None? {
        errors := errors + [RestoreFailed];
        return false;
      }
      data := restored;
      return true;
    }

    /** `okButton_Click`: the OK button closes the form unless verifying
        fails. */
    method OkClick(svc: Services)
      modifies this`data, this`question1, this`question2, this`errors, this`dialogResult
      ensures var (f, verified) := VerifyEffect(old(GetInputs()), svc, old(GetFields()));
              data == f.data && question1 == f.question1 && question2 == f.question2
              && errors == f.errors && dialogResult == (if verified then OK else Undecided)
    {
      dialogResult := OK;
      var ok := Verify(svc);
      if !ok {
        dialogResult := Undecided;
      }
    }
  }
}
