/** `AddGoogleAuthenticator`: the form that turns a secret code, or an
    `otpauth://` key URI, into a Google authenticator. Clicking OK the first
    time enrols the key and shows its code; clicking it again, with the code
    on screen, saves the authenticator. */
module GoogleEnrol {
  import opened Wrappers
  import opened Forms
  import opened Text
  import SecretText
  import Enrolment

  const Scheme: string := "otpauth://"

  /** The three groups of `otpauth://([^/]+)/([^?]+)\?(.*)`: the type, the
      label and the query string. */
  datatype KeyUri = KeyUri(authType: string, accountLabel: string, query: string)

  /** What a match of the pattern requires of its groups. */
  predicate WellFormedUri(u: KeyUri) {
    && u.authType != "" && '/' !in u.authType
    && u.accountLabel != "" && '?' !in u.accountLabel
    && '\n' !in u.query
  }

  /** The text of a key URI, the shortest string the pattern matches with
      these groups. */
  function UriText(u: KeyUri): string {
    Scheme + u.authType + "/" + u.accountLabel + "?" + u.query
  }

  /** The first index at or after `i` that holds `c`. */
  function IndexFrom(s: string, c: char, i: nat): (r: Option<nat>)
    requires i <= |s|
    ensures r.Some? ==> i <= r.value < |s| && s[r.value] == c && c !in s[i..r.value]
    ensures r.None? ==> c !in s[i..]
    decreases |s| - i
  {
    if i == |s| then None
    else if s[i] == c then Some(i)
    else
      var r := IndexFrom(s, c, i + 1);
      assert r.Some? ==> s[i..r.value] == [s[i]] + s[i + 1..r.value];
      assert r.None? ==> s[i..] == [s[i]] + s[i + 1..];
      r
  }

  /** `IndexFrom` finds the first occurrence and no other. */
  lemma IndexFromIs(s: string, c: char, i: nat, k: nat)
    requires i <= k < |s| && s[k] == c && c !in s[i..k]
    ensures IndexFrom(s, c, i) == Some(k)
  {
  }

  /** Where `.*` stops: the next line break, or the end. */
  function LineEnd(s: string, i: nat): (e: nat)
    requires i <= |s|
    ensures i <= e <= |s| && '\n' !in s[i..e]
    ensures e < |s| ==> s[e] == '\n'
  {
    match IndexFrom(s, '\n', i)
    case None => |s|
    case Some(k) => k
  }

  /** Key URI `u` is matched at index `i` of `s`: the scheme in any case,
      then the type, `/`, the label, `?` and the query up to the end of
      the line. */
  predicate Occurs(s: string, i: nat, u: KeyUri) {
    var j := i + |Scheme|;
    var a := j + |u.authType|;
    var b := a + 1 + |u.accountLabel|;
    var e := b + 1 + |u.query|;
    && e <= |s| && EqualsIgnoreCase(s[i..j], Scheme)
    && s[j..a] == u.authType && s[a] == '/'
    && s[a + 1..b] == u.accountLabel && s[b] == '?'
    && s[b + 1..e] == u.query && (e == |s| || s[e] == '\n')
  }

  /** The pattern tried at index `i` under `RegexOptions.IgnoreCase`. The
      greedy `[^/]+` can only end at the first `/`, `[^?]+` at the first `?`
      after it, and `.*` at the first line break. */
  function MatchAt(s: string, i: nat): Option<KeyUri>
    requires i <= |s|
  {
    if !StartsWithIgnoreCase(s[i..], Scheme) then None
    else
      var j := i + |Scheme|;
      match IndexFrom(s, '/', j)
      case None => None
      case Some(a) =>
        if a == j then None
        else match IndexFrom(s, '?', a + 1)
          case None => None
          case Some(b) =>
            if b == a + 1 then None
            else Some(KeyUri(s[j..a], s[a + 1..b], s[b + 1..LineEnd(s, b + 1)]))
  }

  /** What the pattern matches at `i` is a key URI that occurs there. */
  lemma MatchAtOccurs(s: string, i: nat)
    requires i <= |s| && MatchAt(s, i).Some?
    ensures WellFormedUri(MatchAt(s, i).value) && Occurs(s, i, MatchAt(s, i).value)
  {
    var j := i + |Scheme|;
    assert s[i..][..|Scheme|] == s[i..j];
  }

  /** Where `Regex.Match` finds the pattern: the leftmost index from `i`
      at which it matches. */
  function FirstMatch(s: string, i: nat): (r: Option<nat>)
    requires i <= |s|
    ensures r.Some? ==> i <= r.value <= |s| && MatchAt(s, r.value).Some?
    ensures r.Some? ==> forall m :: i <= m < r.value ==> MatchAt(s, m).None?
    ensures r.None? ==> forall k :: i <= k <= |s| ==> MatchAt(s, k).None?
    decreases |s| - i
  {
    if MatchAt(s, i).Some? then Some(i)
    else if i == |s| then None
    else FirstMatch(s, i + 1)
  }

  /** `Regex.Match(s, ...)`: the groups of the leftmost match. */
  function FindKeyUri(s: string): (r: Option<KeyUri>)
    ensures r.Some? <==> FirstMatch(s, 0).Some?
  {
    match FirstMatch(s, 0)
    case None => None
    case Some(k) => MatchAt(s, k)
  }

  /** What is found is a key URI, at the leftmost index where one starts. */
  lemma FoundKeyUriOccurs(s: string)
    requires FindKeyUri(s).Some?
    ensures WellFormedUri(FindKeyUri(s).value)
    ensures Occurs(s, FirstMatch(s, 0).value, FindKeyUri(s).value)
    ensures forall m :: 0 <= m < FirstMatch(s, 0).value ==> MatchAt(s, m).None?
  {
    MatchAtOccurs(s, FirstMatch(s, 0).value);
  }

  /** A key URI is read back as the groups it was written from. */
  lemma KeyUriRoundTrip(u: KeyUri)
    requires WellFormedUri(u)
    ensures FindKeyUri(UriText(u)) == Some(u)
  {
    MatchAtUriText(u);
  }

  lemma MatchAtUriText(u: KeyUri)
    requires WellFormedUri(u)
    ensures MatchAt(UriText(u), 0) == Some(u)
  {
    UriTextParts(u);
    MatchAtParts(UriText(u), u);
  }

  /** A text laid out as the groups of `u` matches at its start. */
  lemma MatchAtParts(s: string, u: KeyUri)
    requires WellFormedUri(u)
    requires var n := |Scheme|;
             var a := n + |u.authType|;
             var b := a + 1 + |u.accountLabel|;
             && |s| == b + 1 + |u.query| && s[..n] == Scheme
             && s[n..a] == u.authType && s[a] == '/'
             && s[a + 1..b] == u.accountLabel && s[b] == '?'
             && s[b + 1..] == u.query
    ensures MatchAt(s, 0) == Some(u)
  {
    var n := |Scheme|;
    var a := n + |u.authType|;
    var b := a + 1 + |u.accountLabel|;
    SchemeStarts(s);
    IndexFromIs(s, '/', n, a);
    IndexFromIs(s, '?', a + 1, b);
    LineEndOfLastLine(s, b + 1);
    assert MatchAt(s, 0) == Some(KeyUri(s[n..a], s[a + 1..b], s[b + 1..|s|]));
    assert s[b + 1..|s|] == u.query;
  }

  /** Where the groups sit in the text of a key URI. */
  lemma UriTextParts(u: KeyUri)
    ensures var s := UriText(u);
            var n := |Scheme|;
            var a := n + |u.authType|;
            var b := a + 1 + |u.accountLabel|;
            && |s| == b + 1 + |u.query| && s[..n] == Scheme
            && s[n..a] == u.authType && s[a] == '/'
            && s[a + 1..b] == u.accountLabel && s[b] == '?'
            && s[b + 1..] == u.query
  {
  }

  lemma SchemeStarts(s: string)
    requires |s| >= |Scheme| && s[..|Scheme|] == Scheme
    ensures StartsWithIgnoreCase(s[0..], Scheme)
  {
    assert s[0..] == s;
    assert EqualsIgnoreCase(Scheme, Scheme);
  }

  lemma LineEndOfLastLine(s: string, i: nat)
    requires i <= |s| && '\n' !in s[i..]
    ensures LineEnd(s, i) == |s|
  {
  }

  /** No key URI starts in a text without a `:`, which the scheme needs. */
  lemma NoKeyUriWithoutColon(s: string)
    requires ':' !in s
    ensures FindKeyUri(s).None?
  {
    forall k | 0 <= k <= |s|
      ensures MatchAt(s, k).None?
    {
      if k + 7 < |s| {
        assert s[k..][7] == s[k + 7];
      }
      NotSchemeWithoutColon(s[k..]);
    }
  }

  /** Case folding leaves `:` alone, so a text that starts with the scheme
      in any case has its `:`. */
  lemma NotSchemeWithoutColon(t: string)
    requires |t| > 7 ==> t[7] != ':'
    ensures !StartsWithIgnoreCase(t, Scheme)
  {
    if |t| >= |Scheme| {
      assert Scheme[7] == ':';
      assert Lower(t[..|Scheme|][7]) != ':';
    }
  }

  /** The error dialogs of the form. */
  datatype GoogleError = EnterSecret | OnlyTotp | InvalidSecret | CannotCreate

  /** What a successful `Enroll` leaves: the secret key as `Base32` encodes
      it, the current code and the measured server time difference. */
  datatype Enrolled = Enrolled(encodedKey: string, code: string, serverTimeDiff: int)

  /** The outcome of `verifyAuthenticator` for one input. `newName` is the key
      URI's label when it was applied to the name. */
  datatype Verdict =
    | NoKey
    | Rejected(error: GoogleError, newName: Option<string>)
    | Accepted(secret: string, newName: Option<string>, enrolled: Enrolled)

  /** The text a non-empty input stands for and the label it applies to
      the name: the `secret` parameter of a TOTP key URI found in it, or
      else the input itself. `None` when the key URI is not TOTP.
      `secretParam` stands for `ParseQueryString(query)["secret"]`. */
  function Candidate(input: string, secretParam: string -> Option<string>): (c: Option<(string, Option<string>)>)
    ensures c.None? <==> FindKeyUri(input).Some? && !EqualsIgnoreCase(FindKeyUri(input).value.authType, "totp")
    ensures c.Some? ==> c.value.1 == (if FindKeyUri(input).Some? then Some(FindKeyUri(input).value.accountLabel) else None)
    ensures c.Some? && FindKeyUri(input).None? ==> c.value.0 == input
  {
    match FindKeyUri(input)
    case Some(u) =>
      if !EqualsIgnoreCase(u.authType, "totp") then None
      else Some((secretParam(u.query).GetOr(input), Some(u.accountLabel)))
    case None => Some((input, None))
  }

  /** The outcome of `verifyAuthenticator`: only ASCII letters and digits of
      the candidate are kept. `enroll` stands for `GoogleAuthenticator.Enroll`
      followed by the `Base32` encoding of the key, `None` when it throws. */
  function Judge(input: string, secretParam: string -> Option<string>, enroll: string -> Option<Enrolled>): (v: Verdict)
    ensures v.NoKey? <==> input == ""
    ensures v.Accepted? ==> v.secret != "" && enroll(v.secret) == Some(v.enrolled)
                            && forall i :: 0 <= i < |v.secret| ==> IsAsciiAlphanumeric(v.secret[i])
    ensures v == Rejected(OnlyTotp, None) <==> input != "" && Candidate(input, secretParam).None?
    ensures !v.NoKey? && !(v == Rejected(OnlyTotp, None)) ==> v.newName == Candidate(input, secretParam).value.1
  {
    if input == "" then NoKey
    else match Candidate(input, secretParam)
      case None => Rejected(OnlyTotp, None)
      case Some(c) => Enrol(Keep(c.0, IsAsciiAlphanumeric), c.1, enroll)
  }

  /** The filtered secret is rejected when empty, else handed to `enroll`. */
  function Enrol(secret: string, newName: Option<string>, enroll: string -> Option<Enrolled>): (v: Verdict)
    requires forall i :: 0 <= i < |secret| ==> IsAsciiAlphanumeric(secret[i])
    ensures !v.NoKey? && v != Rejected(OnlyTotp, None) && v.newName == newName
    ensures v.Rejected? <==> secret == "" || enroll(secret).None?
    ensures v.Accepted? ==> v.secret == secret
  {
    if secret == "" then Rejected(InvalidSecret, newName)
    else match enroll(secret)
      case None => Rejected(CannotCreate, newName)
      case Some(e) => Accepted(secret, newName, e)
  }

  /** A TOTP key URI enrols the letters and digits of its `secret`
      parameter, and its label names the authenticator. */
  lemma KeyUriEnrolsItsSecret(u: KeyUri, secretParam: string -> Option<string>, enroll: string -> Option<Enrolled>,
                              secret: string)
    requires WellFormedUri(u) && EqualsIgnoreCase(u.authType, "totp")
    requires secretParam(u.query) == Some(secret)
    ensures Judge(UriText(u), secretParam, enroll) == Enrol(Keep(secret, IsAsciiAlphanumeric), Some(u.accountLabel), enroll)
  {
    KeyUriRoundTrip(u);
  }

  /** A bare key of letters and digits is enrolled as it is, and leaves the
      name alone. */
  lemma PlainKeyEnrolsItself(key: string, secretParam: string -> Option<string>, enroll: string -> Option<Enrolled>)
    requires key != "" && forall i :: 0 <= i < |key| ==> IsAsciiAlphanumeric(key[i])
    ensures Judge(key, secretParam, enroll) == Enrol(key, None, enroll)
  {
    assert ':' !in key;
    NoKeyUriWithoutColon(key);
  }

  /** `Regex.Replace(key, ".{3}", "$0 ")`: scanning from the left, every
      three characters without a line break get a space after them. */
  function Grouped(s: string): (r: string)
    decreases |s|
  {
    if |s| >= 3 && '\n' !in s[..3] then s[..3] + " " + Grouped(s[3..])
    else if s == [] then []
    else [s[0]] + Grouped(s[1..])
  }

  /** The key as the secret code field shows it after enrolment. */
  function DisplayedKey(key: string): string {
    Trim(Grouped(key))
  }

  /** On a single line, the grouping is the chunking the secret text box
      paints with, plus a trailing space when the last group is full. */
  lemma {:induction false} GroupedIsSpaced(s: string)
    requires '\n' !in s
    ensures Grouped(s) == SecretText.Spaced(s, 3) + (if |s| > 0 && |s| % 3 == 0 then " " else "")
    decreases |s|
  {
    if |s| > 3 {
      assert '\n' !in s[..3] && '\n' !in s[3..];
      GroupedIsSpaced(s[3..]);
      var tail := if |s| % 3 == 0 then " " else "";
      assert |s[3..]| % 3 == |s| % 3;
      assert Grouped(s) == s[..3] + " " + Grouped(s[3..]);
      assert SecretText.Spaced(s, 3) == s[..3] + " " + SecretText.Spaced(s[3..], 3);
      assert Grouped(s[3..]) == SecretText.Spaced(s[3..], 3) + tail;
    } else if |s| == 3 {
      assert s[3..] == [];
    } else {
      GroupedShort(s);
    }
  }

  /** Fewer than three characters are left as they are. */
  lemma {:induction false} GroupedShort(s: string)
    requires |s| < 3
    ensures Grouped(s) == s
    decreases |s|
  {
    if s != [] {
      GroupedShort(s[1..]);
      assert [s[0]] + s[1..] == s;
    }
  }

  /** The chunked string starts and ends with the value's first and last
      characters. */
  lemma {:induction false} SpacedEnds(t: string, n: nat)
    requires n > 0 && t != []
    ensures var r := SecretText.Spaced(t, n); r != [] && r[0] == t[0] && r[|r| - 1] == t[|t| - 1]
    decreases |t|
  {
    if |t| > n {
      SpacedEnds(t[n..], n);
      JoinedEnds(t[..n], SecretText.Spaced(t[n..], n));
      assert t[n..][|t[n..]| - 1] == t[|t| - 1];
    }
  }

  lemma JoinedEnds(a: string, rest: string)
    requires a != [] && rest != []
    ensures var r := a + " " + rest; r[0] == a[0] && r[|r| - 1] == rest[|rest| - 1]
  {
  }

  /** An encoded key of letters and digits is shown in groups of three
      separated by single spaces, and removing the spaces gives it back. */
  lemma DisplayedKeyRoundTrip(key: string)
    requires forall i :: 0 <= i < |key| ==> IsAsciiAlphanumeric(key[i])
    ensures DisplayedKey(key) == SecretText.Spaced(key, 3)
    ensures RemoveChar(DisplayedKey(key), ' ') == key
  {
    DisplayedKeyIsSpaced(key);
    assert ' ' !in key;
    SecretText.SpacedRoundTrip(key, 3);
  }

  lemma DisplayedKeyIsSpaced(key: string)
    requires forall i :: 0 <= i < |key| ==> IsAsciiAlphanumeric(key[i])
    ensures DisplayedKey(key) == SecretText.Spaced(key, 3)
  {
    AlphanumericIsVisible(key);
    GroupedIsSpaced(key);
    TrimSpacedKey(key);
  }

  /** Trimming the chunked key and its padding leaves the chunked key. */
  lemma TrimSpacedKey(key: string)
    requires forall i :: 0 <= i < |key| ==> IsAsciiAlphanumeric(key[i])
    ensures var r := SecretText.Spaced(key, 3);
            Trim(r + (if |key| > 0 && |key| % 3 == 0 then " " else "")) == r
  {
    var pad := if |key| > 0 && |key| % 3 == 0 then " " else "";
    if key != [] {
      SpacedEnds(key, 3);
      TrimVisibleEnds(key, SecretText.Spaced(key, 3), pad);
    }
  }

  lemma TrimVisibleEnds(key: string, r: string, pad: string)
    requires forall i :: 0 <= i < |key| ==> IsAsciiAlphanumeric(key[i])
    requires key != [] && r != [] && r[0] == key[0] && r[|r| - 1] == key[|key| - 1]
    requires pad == "" || pad == " "
    ensures Trim(r + pad) == r
  {
    assert IsAsciiAlphanumeric(key[0]) && IsAsciiAlphanumeric(key[|key| - 1]);
    assert IsBlank(pad);
    TrimPadded(r, pad);
  }

  /** Letters and digits are neither line breaks nor white space. */
  lemma AlphanumericIsVisible(key: string)
    requires forall i :: 0 <= i < |key| ==> IsAsciiAlphanumeric(key[i])
    ensures '\n' !in key && ' ' !in key
    ensures forall i :: 0 <= i < |key| ==> !IsWhiteSpace(key[i])
  {
  }

  /** Everything `verifyAuthenticator` and the OK button change: the name,
      the name, secret and code fields, the progress bar's visibility, the
      stored authenticator, the sync warning flag, how many sync warnings
      and which error dialogs were shown. */
  datatype Fields = Fields(name: string, nameField: string, secretCodeField: string, code: Option<string>,
                           progressVisible: bool, data: Option<Enrolled>,
                           syncErrorWarned: bool, syncWarnings: nat, errors: seq<GoogleError>)

  /** The sync warning has been shown once exactly when the flag is set. */
  predicate WarnedOnce(f: Fields) {
    f.syncWarnings == if f.syncErrorWarned then 1 else 0
  }

  /** The end of `verifyAuthenticator` once the secret is filtered: an
      empty secret or a failing `Enroll` is an error; otherwise the
      authenticator is stored, its key and code are shown, and the sync
      warning is given if the server time could not be read and it has not
      been given before. */
  function EnrolEffect(secret: string, enroll: string -> Option<Enrolled>, f: Fields): (r: (Fields, bool))
    requires forall i :: 0 <= i < |secret| ==> IsAsciiAlphanumeric(secret[i])
  {
    if secret == "" then (f.(errors := f.errors + [InvalidSecret]), false)
    else match enroll(secret)
      case None => (f.(errors := f.errors + [CannotCreate]), false)
      case Some(e) =>
        var warn := e.serverTimeDiff == 0 && !f.syncErrorWarned;
        (f.(data := Some(e), progressVisible := true, secretCodeField := DisplayedKey(e.encodedKey),
            code := Some(e.code), syncErrorWarned := f.syncErrorWarned || warn,
            syncWarnings := f.syncWarnings + (if warn then 1 else 0)), true)
  }

  /** `verifyAuthenticator(input)` on the form's fields: an empty input
      changes nothing; otherwise the name is reset from the name field, a
      key URI that is not TOTP is an error, a label renames, and the
      candidate's letters and digits are enrolled. */
  function VerifyEffect(input: string, secretParam: string -> Option<string>, enroll: string -> Option<Enrolled>,
                        f: Fields): (r: (Fields, bool))
  {
    if input == "" then (f, false)
    else
      var f1 := f.(name := f.nameField);
      match Candidate(input, secretParam)
      case None => (f1.(errors := f1.errors + [OnlyTotp]), false)
      case Some(c) =>
        var f2 := if c.1.Some? then f1.(nameField := c.1.value, name := c.1.value) else f1;
        EnrolEffect(Keep(c.0, IsAsciiAlphanumeric), enroll, f2)
  }

  /** `okButton_Click` on the form's fields, with the result the OK button
      leaves. */
  function OkEffect(secretParam: string -> Option<string>, enroll: string -> Option<Enrolled>, f: Fields)
    : (r: (Fields, DialogResult))
  {
    var key := Trim(f.secretCodeField);
    if key == "" then (f.(errors := f.errors + [EnterSecret]), Undecided)
    else
      var (g, ok) := VerifyEffect(key, secretParam, enroll, f);
      (g, if ok && f.progressVisible then OK else Undecided)
  }

  /** `verifyButton_Click` on the form's fields: a blank secret code is an
      error; anything else is verified. */
  function VerifyClickEffect(secretParam: string -> Option<string>, enroll: string -> Option<Enrolled>, f: Fields)
    : (r: Fields)
  {
    var key := Trim(f.secretCodeField);
    if key == "" then f.(errors := f.errors + [EnterSecret])
    else VerifyEffect(key, secretParam, enroll, f).0
  }

  /** The Verify button changes the fields exactly as the OK button does; it
      only never closes the form. */
  lemma VerifyClickIsOkWithoutClosing(secretParam: string -> Option<string>, enroll: string -> Option<Enrolled>,
                                      f: Fields)
    ensures VerifyClickEffect(secretParam, enroll, f) == OkEffect(secretParam, enroll, f).0
    ensures Trim(f.secretCodeField) == "" ==> VerifyClickEffect(secretParam, enroll, f).errors == f.errors + [EnterSecret]
  {
  }

  /** `verifyAuthenticator` succeeds exactly when the input is judged
      acceptable, and then stores what was enrolled for the judged secret,
      names the authenticator after the label, and shows the key in groups
      of three and the code. Every outcome error is shown as its dialog. */
  lemma VerifyFollowsJudge(input: string, secretParam: string -> Option<string>, enroll: string -> Option<Enrolled>,
                           f: Fields)
    ensures var (g, ok) := VerifyEffect(input, secretParam, enroll, f);
            var v := Judge(input, secretParam, enroll);
            && ok == v.Accepted?
            && g.errors == f.errors + (if v.Rejected? then [v.error] else [])
            && (v.Accepted? ==> g.data == Some(v.enrolled) && g.progressVisible && g.code == Some(v.enrolled.code)
                                && g.secretCodeField == DisplayedKey(v.enrolled.encodedKey))
            && (!v.Accepted? ==> g.data == f.data && g.progressVisible == f.progressVisible
                                 && g.secretCodeField == f.secretCodeField && g.code == f.code)
            && (!v.NoKey? ==> g.name == g.nameField == (if v.newName.Some? then v.newName.value else f.nameField))
  {
    if input != "" {
      match Candidate(input, secretParam)
      case None =>
      case Some(c) =>
        var f1 := f.(name := f.nameField);
        var f2 := if c.1.Some? then f1.(nameField := c.1.value, name := c.1.value) else f1;
        EnrolEffectFollowsEnrol(Keep(c.0, IsAsciiAlphanumeric), c.1, enroll, f2);
    }
  }

  /** Enrolling on the form's fields does what the verdict of `Enrol` says,
      and leaves the names alone. */
  lemma EnrolEffectFollowsEnrol(secret: string, newName: Option<string>, enroll: string -> Option<Enrolled>,
                                f: Fields)
    requires forall i :: 0 <= i < |secret| ==> IsAsciiAlphanumeric(secret[i])
    ensures var (g, ok) := EnrolEffect(secret, enroll, f);
            var v := Enrol(secret, newName, enroll);
            && ok == v.Accepted?
            && g.errors == f.errors + (if v.Rejected? then [v.error] else [])
            && (v.Accepted? ==> g.data == Some(v.enrolled) && g.progressVisible && g.code == Some(v.enrolled.code)
                                && g.secretCodeField == DisplayedKey(v.enrolled.encodedKey))
            && (!v.Accepted? ==> g.data == f.data && g.progressVisible == f.progressVisible
                                 && g.secretCodeField == f.secretCodeField && g.code == f.code)
            && g.name == f.name && g.nameField == f.nameField
  {
  }

  /** The sync warning is shown at most once per form. */
  lemma VerifyWarnsOnce(input: string, secretParam: string -> Option<string>, enroll: string -> Option<Enrolled>,
                        f: Fields)
    requires WarnedOnce(f)
    ensures WarnedOnce(VerifyEffect(input, secretParam, enroll, f).0)
    ensures VerifyEffect(input, secretParam, enroll, f).0.syncWarnings <= 1
  {
    if input != "" {
      var f1 := f.(name := f.nameField);
      match Candidate(input, secretParam)
      case None =>
      case Some(c) =>
        var f2 := if c.1.Some? then f1.(nameField := c.1.value, name := c.1.value) else f1;
        EnrolWarnsOnce(Keep(c.0, IsAsciiAlphanumeric), enroll, f2);
    }
  }

  lemma EnrolWarnsOnce(secret: string, enroll: string -> Option<Enrolled>, f: Fields)
    requires forall i :: 0 <= i < |secret| ==> IsAsciiAlphanumeric(secret[i])
    requires WarnedOnce(f)
    ensures WarnedOnce(EnrolEffect(secret, enroll, f).0)
  {
  }

  /** The OK button closes the form only when a non-blank code verifies
      while a code was already on screen. */
  lemma OkClosesOnlyWhenShown(secretParam: string -> Option<string>, enroll: string -> Option<Enrolled>, f: Fields)
    ensures var key := Trim(f.secretCodeField);
            OkEffect(secretParam, enroll, f).1 == OK <==>
              key != "" && Judge(key, secretParam, enroll).Accepted? && f.progressVisible
  {
    var key := Trim(f.secretCodeField);
    if key != "" {
      VerifyFollowsJudge(key, secretParam, enroll, f);
    }
  }

  /** The two-step OK: a first click that enrols a secret keeps the form
      open and shows the key; the second click reads back exactly the key
      shown and enrols it again, closing the form if that succeeds. */
  lemma SecondClickEnrolsShownKey(secretParam: string -> Option<string>, enroll: string -> Option<Enrolled>,
                                  f: Fields)
    requires !f.progressVisible
    requires var key := Trim(f.secretCodeField); key != "" && Judge(key, secretParam, enroll).Accepted?
    ensures var (g, r) := OkEffect(secretParam, enroll, f);
            var e := Judge(Trim(f.secretCodeField), secretParam, enroll).enrolled;
            && r == Undecided && g.progressVisible && g.data == Some(e)
            && ((forall i :: 0 <= i < |e.encodedKey| ==> IsAsciiAlphanumeric(e.encodedKey[i])) && e.encodedKey != "" ==>
                  && Trim(g.secretCodeField) == DisplayedKey(e.encodedKey)
                  && Judge(Trim(g.secretCodeField), secretParam, enroll) == Enrol(e.encodedKey, None, enroll)
                  && (OkEffect(secretParam, enroll, g).1 == OK <==> enroll(e.encodedKey).Some?))
  {
    var key := Trim(f.secretCodeField);
    VerifyFollowsJudge(key, secretParam, enroll, f);
    var g := OkEffect(secretParam, enroll, f).0;
    var k := Judge(key, secretParam, enroll).enrolled.encodedKey;
    if (forall i :: 0 <= i < |k| ==> IsAsciiAlphanumeric(k[i])) && k != "" {
      ShownKeyJudged(k, secretParam, enroll);
      OkClosesOnlyWhenShown(secretParam, enroll, g);
    }
  }

  /** The key on screen reads back, through the same judgement, as the
      key it shows. */
  lemma ShownKeyJudged(k: string, secretParam: string -> Option<string>, enroll: string -> Option<Enrolled>)
    requires k != "" && forall i :: 0 <= i < |k| ==> IsAsciiAlphanumeric(k[i])
    ensures Trim(DisplayedKey(k)) == DisplayedKey(k) != ""
    ensures Judge(DisplayedKey(k), secretParam, enroll) == Enrol(k, None, enroll)
  {
    var shown := DisplayedKey(k);
    TrimIdempotent(Grouped(k));
    DisplayedKeyIsSpaced(k);
    SpacedEnds(k, 3);
    ShownKeyIsVisible(k);
    ShownKeyReadsBack(k);
    NoKeyUriWithoutColon(shown);
    assert Candidate(shown, secretParam) == Some((shown, None));
  }

  /** The shown key has no `:`. */
  lemma ShownKeyIsVisible(key: string)
    requires forall i :: 0 <= i < |key| ==> IsAsciiAlphanumeric(key[i])
    ensures ':' !in DisplayedKey(key)
  {
    DisplayedKeyIsSpaced(key);
    SpacedChars(key, 3);
  }

  /** Filtering the shown key back to letters and digits gives the key. */
  lemma ShownKeyReadsBack(key: string)
    requires forall i :: 0 <= i < |key| ==> IsAsciiAlphanumeric(key[i])
    ensures Keep(DisplayedKey(key), IsAsciiAlphanumeric) == key
  {
    DisplayedKeyRoundTrip(key);
    SpacedChars(key, 3);
    KeepAgrees(DisplayedKey(key), IsAsciiAlphanumeric, x => x != ' ');
  }

  /** The chunked string holds only the value's characters and spaces. */
  lemma {:induction false} SpacedChars(t: string, n: nat)
    requires n > 0
    ensures forall i :: 0 <= i < |SecretText.Spaced(t, n)| ==>
              SecretText.Spaced(t, n)[i] == ' ' || SecretText.Spaced(t, n)[i] in t
    decreases |t|
  {
    if |t| > n {
      SpacedChars(t[n..], n);
      var r := SecretText.Spaced(t[n..], n);
      var s := SecretText.Spaced(t, n);
      assert s == t[..n] + " " + r;
      forall i | 0 <= i < |s|
        ensures s[i] == ' ' || s[i] in t
      {
        if i < n {
          assert s[i] == t[i];
        } else if i > n {
          assert s[i] == r[i - n - 1];
          assert r[i - n - 1] == ' ' || r[i - n - 1] in t[n..];
        }
      }
    }
  }

  class GoogleForm {
    /** `Authenticator.Name`. */
    var name: string
    var nameField: string
    var secretCodeField: string
    /** `codeField`, a secret text box. */
    const codeBox: SecretText.SecretTextBox
    var progressVisible: bool
    var progressValue: int
    /** `Authenticator.AuthenticatorData`. */
    var data: Option<Enrolled>
    var syncErrorWarned: bool
    /** How many times the sync warning was shown. */
    var syncWarnings: nat
    /** The error dialogs shown, in order. */
    var errors: seq<GoogleError>
    var dialogResult: DialogResult

    function GetFields(): Fields
      reads this`name, this`nameField, this`secretCodeField, codeBox`text, this`progressVisible
      reads this`data, this`syncErrorWarned, this`syncWarnings, this`errors
    {
      Fields(name, nameField, secretCodeField, codeBox.text, progressVisible, data, syncErrorWarned, syncWarnings, errors)
    }

    /** A new form for an authenticator named `authName`, before `Load`. */
    constructor (authName: string, box: SecretText.SecretTextBox)
      ensures WarnedOnce(GetFields())
      ensures name == authName && codeBox == box && data == None
      ensures !progressVisible && !syncErrorWarned && errors == [] && dialogResult == Undecided
    {
      name := authName;
      nameField := "";
      secretCodeField := "";
      codeBox := box;
      progressVisible := false;
      progressValue := 0;
      data := None;
      syncErrorWarned := false;
      syncWarnings := 0;
      errors := [];
      dialogResult := Undecided;
    }

    /** `AddGoogleAuthenticator_Load`. */
    method Load()
      modifies this`nameField, codeBox
      ensures nameField == name && codeBox.secretMode
      ensures codeBox.text == old(codeBox.text)
    {
      nameField := name;
      codeBox.SetSecretMode(true);
    }

    /** `verifyAuthenticator`, on the text the QR-code branches leave. */
    method Verify(input: string, secretParam: string -> Option<string>, enroll: string -> Option<Enrolled>)
      returns (ok: bool)
      modifies this`name, this`nameField, this`data, this`progressVisible, this`secretCodeField
      modifies this`syncErrorWarned, this`syncWarnings, this`errors, codeBox`text, codeBox`baseText
      ensures (GetFields(), ok) == VerifyEffect(input, secretParam, enroll, old(GetFields()))
    {
      if input == "" {
        return false;
      }
      name := nameField;
      var privatekey := input;
      var m := FindKeyUri(privatekey);
      if m.Some? {
        if !EqualsIgnoreCase(m.value.authType, "totp") {
          errors := errors + [OnlyTotp];
          return false;
        }
        nameField := m.value.accountLabel;
        name := nameField;
        privatekey := secretParam(m.value.query).GetOr(privatekey);
      }
      ok := EnrolSecret(Keep(privatekey, IsAsciiAlphanumeric), enroll);
    }

    /** The end of `verifyAuthenticator`, from the filtered secret on. */
    method EnrolSecret(secret: string, enroll: string -> Option<Enrolled>) returns (ok: bool)
      requires forall i :: 0 <= i < |secret| ==> IsAsciiAlphanumeric(secret[i])
      modifies this`data, this`progressVisible, this`secretCodeField
      modifies this`syncErrorWarned, this`syncWarnings, this`errors, codeBox`text, codeBox`baseText
      ensures (GetFields(), ok) == EnrolEffect(secret, enroll, old(GetFields()))
    {
      if |secret| == 0 {
        errors := errors + [InvalidSecret];
        return false;
      }
      var enrolled := enroll(secret);
      if enrolled.None? {
        errors := errors + [CannotCreate];
        return false;
      }
      var e := enrolled.value;
      ghost var f := GetFields();
      var warn := e.serverTimeDiff == 0 && !syncErrorWarned;
      data := enrolled;
      progressVisible := true;
      secretCodeField := DisplayedKey(e.encodedKey);
      codeBox.SetText(Some(e.code));
      if warn {
        syncErrorWarned := true;
        syncWarnings := syncWarnings + 1;
      }
      assert GetFields() == f.(data := Some(e), progressVisible := true, secretCodeField := DisplayedKey(e.encodedKey),
                               code := Some(e.code), syncErrorWarned := f.syncErrorWarned || warn,
                               syncWarnings := f.syncWarnings + (if warn then 1 else 0));
      ok := true;
    }

    /** `okButton_Click`. The OK button closes the form unless the handler
        says otherwise. */
    method OkClick(secretParam: string -> Option<string>, enroll: string -> Option<Enrolled>)
      modifies this`name, this`nameField, this`data, this`progressVisible, this`secretCodeField
      modifies this`syncErrorWarned, this`syncWarnings, this`errors, codeBox`text, codeBox`baseText
      modifies this`dialogResult
      ensures (GetFields(), dialogResult) == OkEffect(secretParam, enroll, old(GetFields()))
    {
      dialogResult := OK;
      var privatekey := Trim(secretCodeField);
      if |privatekey| == 0 {
        errors := errors + [EnterSecret];
        dialogResult := Undecided;
        return;
      }
      var first := !progressVisible;
      var ok := Verify(privatekey, secretParam, enroll);
      if !ok {
        dialogResult := Undecided;
        return;
      }
      if first {
        dialogResult := Undecided;
      }
    }

    /** `verifyButton_Click`: verifies the secret code field without
        touching the dialog result. */
    method VerifyClick(secretParam: string -> Option<string>, enroll: string -> Option<Enrolled>)
      modifies this`name, this`nameField, this`data, this`progressVisible, this`secretCodeField
      modifies this`syncErrorWarned, this`syncWarnings, this`errors, codeBox`text, codeBox`baseText
      ensures GetFields() == VerifyClickEffect(secretParam, enroll, old(GetFields()))
    {
      var privatekey := Trim(secretCodeField);
      if |privatekey| == 0 {
        errors := errors + [EnterSecret];
        return;
      }
      var _ := Verify(privatekey, secretParam, enroll);
    }

    /** `cancelButton_Click`: the Cancel button closes the form unless an
        enrolled authenticator would be lost. */
    method CancelClick(answer: DialogResult)
      modifies this`dialogResult
      ensures dialogResult == Enrolment.CancelResult(data.Some?, answer)
    {
      dialogResult := Cancel;
      if data.Some? {
        if answer == Yes {
          dialogResult := OK;
          return;
        }
        if answer == Cancel {
          dialogResult := Undecided;
        }
      }
    }

    /** `timer_Tick` at server time `serverTime` with `currentCode` the
        authenticator's code then. The step is taken on the whole second
        count; see `Enrolment.StepAsWritten` for the 32-bit cast the source
        applies first. */
    method Tick(serverTime: nat, currentCode: string)
      modifies this`progressValue, codeBox`text, codeBox`baseText
      ensures data.None? || !progressVisible ==>
                progressValue == old(progressValue) && codeBox.text == old(codeBox.text)
      ensures data.Some? && progressVisible ==>
                && progressValue == Enrolment.Step(serverTime) + 1
                && 1 <= progressValue <= Enrolment.StepSeconds
                && codeBox.text == (if progressValue == 1 then Some(currentCode) else old(codeBox.text))
    {
      if data.Some? && progressVisible {
        var time := Enrolment.Step(serverTime);
        progressValue := time + 1;
        if time == 0 {
          codeBox.SetText(Some(currentCode));
        }
      }
    }
  }
}
