/** What the WinForms dialogs of WinAuth share: the dialog result a button
    handler leaves behind, and the error label a timer hides again. */
module Forms {
  import Wrappers

  /** System.Windows.Forms.DialogResult. `Undecided` is the enum's `None`: a
      Click handler that assigns it keeps the modal form open. */
  datatype DialogResult = Undecided | OK | Cancel | Yes | No | Retry

  /** An error label and the timer that hides it: the message the label
      holds (`None` for an empty text), whether it is visible, and whether
      the timer is enabled. */
  datatype Notice<M> = Notice(text: Wrappers.Option<M>, visible: bool, timing: bool)

  /** What a handler leaves to report `m`: the label shows it and the timer
      starts. */
  function Shown<M>(m: M): Notice<M> {
    Notice(Wrappers.Some(m), true, true)
  }

  /** What the timer's tick leaves: the label hidden and the timer stopped,
      with its text kept. */
  function Hidden<M>(n: Notice<M>): Notice<M> {
    n.(visible := false, timing := false)
  }
}
