/** What the three enrolment forms (Google, Battle.net, Trion) share word
    for word: the 30-second step their timers show, and the Cancel button's
    warning when an authenticator has been created but not saved. */
module Enrolment {
  import opened Forms
  import CSharp

  /** The time step of section 4.1 of RFC 6238 (X = 30 seconds). */
  const StepSeconds: int := 30

  /** The position inside the current step as the timers compute it:
      `(int)(ServerTime / 1000L) % 30`. The cast keeps the low 32 bits of
      the second count before the remainder is taken. */
  function StepAsWritten(serverTime: int): (r: int)
    ensures -StepSeconds < r < StepSeconds
  {
    CSharp.Rem(CSharp.ToInt32(CSharp.Div(serverTime, 1000)), StepSeconds)
  }

  /** Until the second count leaves the 32-bit range the cast changes
      nothing and the timers show the intended step. */
  lemma StepAsWrittenAgrees(serverTime: nat)
    requires CSharp.IsInt32(CSharp.Div(serverTime, 1000))
    ensures StepAsWritten(serverTime) == Step(serverTime)
  {
    CSharp.DivRemNonNegative(serverTime, 1000);
    CSharp.DivRemNonNegative(serverTime / 1000, StepSeconds);
  }

  /** One second past 03:14:07 UTC on 19 January 2038 the cast wraps: the
      second count 2^31 becomes -2^31 and the step position -8, so the
      progress value the timers assign is -7, outside 1..30. */
  lemma StepAsWrittenWrapsIn2038()
    ensures StepAsWritten(0x8000_0000 * 1000) == -8
    ensures StepAsWritten(0x8000_0000 * 1000) + 1 < 1
  {
    var seconds := CSharp.Div(0x8000_0000 * 1000, 1000);
    assert seconds == 0x8000_0000;
    assert CSharp.ToInt32(seconds) == -0x8000_0000;
    assert -0x8000_0000 == -71582788 * 30 - 8;
    CSharp.DivUnique(0x8000_0000, 30, 71582788, 8);
  }

  /** The step position computed on the whole second count, which the
      timers evidently intend: the seconds elapsed in the current 30-second
      step. `serverTime` is the server's clock in milliseconds since the
      Unix epoch. */
  function Step(serverTime: nat): (r: int)
    ensures 0 <= r < StepSeconds
    ensures (serverTime / 1000 - r) % StepSeconds == 0
  {
    (serverTime / 1000) % StepSeconds
  }

  /** At every instant the progress the timers show lies in 1..30, it is 1
      exactly at the start of a step, when the code changes, and one second
      later it has moved on by one, wrapping from 30 back to 1. */
  lemma StepProgressInRange(serverTime: nat)
    ensures 1 <= Step(serverTime) + 1 <= StepSeconds
    ensures Step(serverTime) == 0 <==> (serverTime / 1000) % StepSeconds == 0
    ensures Step(serverTime + 1000) + 1 == (if Step(serverTime) + 1 == StepSeconds then 1 else Step(serverTime) + 2)
  {
  }

  /** The result the Cancel button leaves. The button closes the form with
      `Cancel` unless an authenticator has been created; then the user is
      warned it is not saved: Yes saves it (OK), Cancel keeps the form open
      (`Undecided`), No closes it without saving. */
  function CancelResult(created: bool, answer: DialogResult): (r: DialogResult)
    ensures r == OK <==> created && answer == Yes
    ensures r == Undecided <==> created && answer == Cancel
    ensures r == Cancel <==> !created || (answer != Yes && answer != Cancel)
  {
    if created && answer == Yes then OK
    else if created && answer == Cancel then Undecided
    else Cancel
  }
}
