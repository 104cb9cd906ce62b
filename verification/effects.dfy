/** What the world outside the core looks like to it: replies of the external
    collaborators (network, translation backend, file system) and the
    observable writes to the window (dialogs, the progress bar, the buttons). */
module Effects {

  newtype byte = x: int | 0 <= x < 256

  /** The outcome of one call into code the model cannot see: either it raised
      an exception whose text is `detail`, or it returned `value`. */
  datatype Reply<+T> = Raised(detail: string) | Returned(value: T)

  /** One observable effect on the window, in the order it happens. */
  datatype UiEvent =
    | ShowError(message: string)
    | ShowInfo(message: string)
    | SetProgress(value: nat)
    | SetTranslateEnabled(enabled: bool)
    | SetCountLabel(text: string)

  /** The successive values written to the progress bar. */
  function ProgressOf(log: seq<UiEvent>): (values: seq<nat>)
    ensures |values| <= |log|
  {
    if |log| == 0 then []
    else
      var last := log[|log| - 1];
      ProgressOf(log[..|log| - 1]) + (if last.SetProgress? then [last.value] else [])
  }

  /** Reading the progress values off a log distributes over concatenation. */
  lemma {:induction false} ProgressOfAppend(a: seq<UiEvent>, b: seq<UiEvent>)
    ensures ProgressOf(a + b) == ProgressOf(a) + ProgressOf(b)
    decreases |b|
  {
    if |b| == 0 {
      assert a + b == a;
    } else {
      var b' := b[..|b| - 1];
      assert (a + b)[..|a + b| - 1] == a + b';
      ProgressOfAppend(a, b');
    }
  }
}
