/** `SecretTextBox`: a text box that keeps its real value aside and, in
    secret mode, shows stars in the underlying control and paints the real
    value itself, spaced out in chunks. */
module SecretText {
  import opened Wrappers
  import opened Text
  import CSharp

  /** A font as the text box saves it: family name and size. */
  datatype Font = Font(family: string, size: real)

  /** What the underlying `TextBox.Text` holds after `base.Text = v`: in
      secret mode a non-empty value becomes a star per character; `null` is
      stored as the empty string. */
  function Masked(v: Option<string>, secretMode: bool): (r: string)
    ensures v.Some? ==> |r| == |v.value|
    ensures v.None? ==> r == ""
    ensures secretMode ==> forall i :: 0 <= i < |r| ==> r[i] == '*'
    ensures !secretMode && v.Some? ==> r == v.value
  {
    match v
    case None => ""
    case Some(s) => if secretMode && s != "" then Stars(|s|) else s
  }

  function Stars(n: nat): (r: string)
    ensures |r| == n && forall i :: 0 <= i < n ==> r[i] == '*'
  {
    if n == 0 then "" else Stars(n - 1) + "*"
  }

  /** `t` cut into chunks of `n` characters joined by single spaces: the
      string the `OnPaint` loop builds, before trimming. */
  function Spaced(t: string, n: nat): string
    requires n > 0
    decreases |t|
  {
    if |t| <= n then t else t[..n] + " " + Spaced(t[n..], n)
  }

  /** The text `OnPaint` draws for the stored value and `SpaceOut`. */
  function Painted(text: Option<string>, spaceOut: nat): string {
    if spaceOut != 0 && text.Some? then Trim(Spaced(text.value, spaceOut)) else text.GetOr("")
  }

  /** The chunk of `t` starting at `lo` is at `p` in `s`, followed by a
      space unless it is the last. */
  predicate ChunkAt(s: string, t: string, n: nat, lo: nat, p: nat) {
    var hi := if lo + n < |t| then lo + n else |t|;
    lo <= hi && p + (hi - lo) <= |s| && s[p..p + (hi - lo)] == t[lo..hi]
    && (hi < |t| ==> p + (hi - lo) < |s| && s[p + (hi - lo)] == ' ')
  }

  /** Chunk `k` of the value, `t[k*n .. min((k+1)*n, |t|)]`, sits at
      `k * (n + 1)` in the spaced string (`lo + k` with `lo == k * n`), and
      a space follows every chunk but the last. */
  lemma SpacedChunk(t: string, n: nat, k: nat, lo: nat)
    requires n > 0 && lo == k * n && lo < |t|
    ensures ChunkAt(Spaced(t, n), t, n, lo, lo + k)
  {
    OffsetIsProduct(k, n);
    SpacedChunkFrom(t, n, k, lo);
    ChunkBeforeSuffix(Spaced(t, n), t, n, lo, lo + k);
  }

  /** Where the rest of the value from `lo` on, spaced, follows, chunk `lo`
      of the value starts. */
  lemma ChunkBeforeSuffix(s: string, t: string, n: nat, lo: nat, p: nat)
    requires n > 0 && lo < |t| && p <= |s| && s[p..] == Spaced(t[lo..], n)
    ensures ChunkAt(s, t, n, lo, p)
  {
    SpacedHead(t[lo..], n);
    var hi := if lo + n < |t| then lo + n else |t|;
    assert s[p..p + (hi - lo)] == s[p..][..hi - lo];
    assert t[lo..][..hi - lo] == t[lo..hi];
  }

  /** `k * n` counted up chunk by chunk. */
  function Offset(k: nat, n: nat): nat {
    if k == 0 then 0 else Offset(k - 1, n) + n
  }

  lemma {:induction false} OffsetIsProduct(k: nat, n: nat)
    ensures Offset(k, n) == k * n
  {
    if k > 0 {
      OffsetIsProduct(k - 1, n);
      assert k * n == (k - 1) * n + n;
    }
  }

  /** What follows chunk `k` of the spaced string is the rest of the value,
      spaced. */
  lemma {:induction false} SpacedChunkFrom(t: string, n: nat, k: nat, lo: nat)
    requires n > 0 && lo == Offset(k, n) && lo < |t|
    ensures lo + k <= |Spaced(t, n)| && Spaced(t, n)[lo + k..] == Spaced(t[lo..], n)
    decreases k
  {
    if k == 0 {
      assert t[lo..] == t;
    } else {
      SpacedChunkFrom(t[n..], n, k - 1, lo - n);
      var r := Spaced(t[n..], n);
      assert Spaced(t, n) == t[..n] + " " + r;
      assert t[n..][lo - n..] == t[lo..];
      assert Spaced(t, n)[lo + k..] == r[(lo - n) + (k - 1)..];
    }
  }

  /** The spaced string starts with the first chunk, followed by a space
      when there is more. */
  lemma SpacedHead(u: string, n: nat)
    requires n > 0 && |u| > 0
    ensures var h := if n < |u| then n else |u|;
            h <= |Spaced(u, n)| && Spaced(u, n)[..h] == u[..h]
            && (n < |u| ==> n < |Spaced(u, n)| && Spaced(u, n)[n] == ' ')
  {
  }

  /** The spaced string holds the value's characters and one space per chunk
      boundary. */
  lemma {:induction false} SpacedLength(t: string, n: nat)
    requires n > 0
    ensures |t| > 0 ==> |Spaced(t, n)| == |t| + (|t| - 1) / n
    ensures |t| == 0 ==> Spaced(t, n) == ""
    decreases |t|
  {
    if |t| > n {
      SpacedLength(t[n..], n);
      assert (|t| - 1) / n == (|t| - n - 1) / n + 1 by {
        DivShift(|t| - n - 1, n);
      }
    } else if |t| > 0 {
      assert (|t| - 1) / n == 0;
    }
  }

  lemma DivShift(a: nat, n: nat)
    requires n > 0
    ensures (a + n) / n == a / n + 1
  {
    assert a + n == (a / n + 1) * n + a % n;
    CSharp.DivUnique(a + n, n, a / n + 1, a % n);
  }

  /** Removing the spaces again gives the value back, when it had none. */
  lemma {:induction false} SpacedRoundTrip(t: string, n: nat)
    requires n > 0 && ' ' !in t
    ensures RemoveChar(Spaced(t, n), ' ') == t
    decreases |t|
  {
    if |t| > n {
      assert ' ' !in t[..n];
      assert ' ' !in t[n..];
      SpacedRoundTrip(t[n..], n);
      RemoveCharAppend(t[..n] + " ", Spaced(t[n..], n), ' ');
      RemoveCharAppend(t[..n], " ", ' ');
      assert RemoveChar(" ", ' ') == "";
      assert t[..n] + t[n..] == t;
    }
  }

  /** One round of the `OnPaint` loop: the chunk at `i`, a space, and the
      spaced rest. */
  lemma SpacedStep(s: string, i: nat, n: nat)
    requires n > 0 && i + n < |s|
    ensures Spaced(s[i..], n) == s[i..i + n] + " " + Spaced(s[i + n..], n)
  {
    assert s[i..][n..] == s[i + n..];
    assert s[i..][..n] == s[i..i + n];
  }

  class SecretTextBox {
    /** `m_text`, the real value. */
    var text: Option<string>
    /** `m_spaceOut`. */
    var spaceOut: int
    /** `m_secretMode`. */
    var secretMode: bool
    /** `m_fontFamily` and `m_fontSize`, captured on the first `SecretMode`
        assignment. */
    var savedFont: Option<Font>
    /** The control's current font. */
    var font: Font
    /** `base.Text`, what the underlying text box shows. */
    var baseText: string
    var enabled: bool
    /** The `ControlStyles.UserPaint` style: the box paints itself. */
    var userPaint: bool

    /** `new SecretTextBox()` with the designer's font. */
    constructor (initialFont: Font)
      ensures text == None && spaceOut == 0 && !secretMode && savedFont == None
      ensures font == initialFont && baseText == "" && enabled && !userPaint
    {
      text := None;
      spaceOut := 0;
      secretMode := false;
      savedFont := None;
      font := initialFont;
      baseText := "";
      enabled := true;
      userPaint := false;
    }

    /** The `Text` getter: the stored value in secret mode, the underlying
        text otherwise. */
    function GetText(): (r: Option<string>)
      reads this
      ensures secretMode ==> r == text
      ensures !secretMode ==> r == Some(baseText)
    {
      if secretMode then text else Some(baseText)
    }

    /** The `Text` setter. */
    method SetText(v: Option<string>)
      modifies this`text, this`baseText
      ensures text == v && baseText == Masked(v, secretMode)
      ensures GetText() == (if secretMode || v.Some? then v else Some(""))
    {
      text := v;
      baseText := match v
        case None => ""
        case Some(s) => if secretMode && s != "" then Stars(|s|) else s;
    }

    /** The `SecretMode` setter: the box is disabled while secret, the
        stored value is re-applied so the mask follows the mode, the font is
        captured the first time, and restored whenever secret mode ends. */
    method SetSecretMode(value: bool)
      modifies this
      ensures secretMode == value && enabled == !value && userPaint == value
      ensures text == old(text) && spaceOut == old(spaceOut)
      ensures baseText == Masked(old(text), value)
      ensures savedFont == (if old(savedFont).None? then Some(old(font)) else old(savedFont))
      ensures font == (if value then old(font) else savedFont.value)
      ensures value ==> GetText() == old(text)
    {
      secretMode := value;
      enabled := !value;
      userPaint := value;
      SetText(text);
      if savedFont.None? {
        savedFont := Some(font);
      }
      if !value {
        font := savedFont.value;
      }
    }

    /** The text `OnPaint` draws. A negative `SpaceOut` makes the source's
        loop index go negative and `Substring` throw, so it is excluded. */
    method Paint() returns (shown: string)
      requires spaceOut >= 0
      ensures shown == Painted(text, spaceOut)
    {
      var t := text;
      if spaceOut != 0 && text.Some? {
        var s := text.value;
        var n := spaceOut;
        var sb := "";
        var i := 0;
        assert s[0..] == s;
        while i < |s|
          invariant 0 <= i
          invariant i < |s| ==> sb + Spaced(s[i..], n) == Spaced(s, n)
          invariant i >= |s| ==> sb == Spaced(s, n)
          decreases |s| - i
        {
          if i + n >= |s| {
            sb := sb + s[i..];
          } else {
            SpacedStep(s, i, n);
            ConcatAssoc(sb, s[i..i + n] + " ", Spaced(s[i + n..], n));
            sb := sb + (s[i..i + n] + " ");
          }
          i := i + n;
        }
        t := Some(Trim(sb));
      }
      shown := t.GetOr("");
    }
  }
}
