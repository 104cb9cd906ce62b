/** The two actions of the window: "Grab Chapters" (`grab_chapters`) and
    "Translate" (`start_translation`). Each takes the window state and the
    replies of the collaborators and yields the events the user sees; the new
    window state is those events replayed on the old one (for "Grab
    Chapters", on the old one with the new chapter list). */
module App {
  import opened Wrappers
  import opened Effects
  import opened Decimal
  import opened Epub
  import opened Translation

  /** The state the two actions read and write: the discovered chapters, the
      count label, whether Translate is enabled, and the progress bar value. */
  datatype AppState = AppState(chapterUrls: seq<ChapterRef>, countLabel: string, translateEnabled: bool, progress: nat)

  /** A freshly opened window: no chapters and Translate disabled. */
  const Initial := AppState([], "", false, 0)

  const MissingUrlMessage := "Please enter the novel URL."
  const GrabErrorPrefix := "An error occurred while grabbing chapters: "
  const CountLabelPrefix := "Chapters Grabbed: "
  const NoChaptersMessage := "No chapters were processed successfully."
  const SuccessMessage := "EPUB file created successfully!"
  const EpubErrorPrefix := "An error occurred while creating the EPUB file: "

  function Effect(s: AppState, e: UiEvent): AppState {
    match e
    case SetProgress(v) => s.(progress := v)
    case SetTranslateEnabled(b) => s.(translateEnabled := b)
    case SetCountLabel(t) => s.(countLabel := t)
    case _ => s
  }

  /** Dialogs change no state. */
  predicate DialogOnly(log: seq<UiEvent>) {
    forall k :: 0 <= k < |log| ==> log[k].ShowError? || log[k].ShowInfo?
  }

  /** The window state after the events of `log`, applied in order. The
      chapter list is never touched by an event. */
  function Replay(s: AppState, log: seq<UiEvent>): (t: AppState)
    ensures t.chapterUrls == s.chapterUrls
  {
    if |log| == 0 then s
    else Effect(Replay(s, log[..|log| - 1]), log[|log| - 1])
  }

  /** Dialogs leave the window state as it was, and after any log the
      progress bar holds the last value written to it. */
  lemma {:induction false} ReplayEffects(s: AppState, log: seq<UiEvent>)
    ensures DialogOnly(log) ==> Replay(s, log) == s
    ensures var values := ProgressOf(log);
      Replay(s, log).progress == (if |values| == 0 then s.progress else values[|values| - 1])
    decreases |log|
  {
    if |log| > 0 {
      var init := log[..|log| - 1];
      ReplayEffects(s, init);
      assert forall k :: 0 <= k < |init| ==> init[k] == log[k];
    }
  }

  /** Translate can only be clicked when some chapters were discovered. */
  predicate Consistent(s: AppState) {
    s.translateEnabled ==> |s.chapterUrls| > 0
  }

  datatype Grabbed = Grabbed(state: AppState, log: seq<UiEvent>)

  /** "Grab Chapters": an empty URL is refused and a failing discovery is
      reported, both leaving the state as it was; otherwise the chapter list
      is replaced, the count is shown, and Translate is enabled exactly when
      the list is non-empty. */
  function GrabChapters(s: AppState, url: string, discovered: Reply<seq<ChapterRef>>): (r: Grabbed)
    ensures url == "" ==> r == Grabbed(s, [ShowError(MissingUrlMessage)])
    ensures url != "" && discovered.Raised? ==> r == Grabbed(s, [ShowError(GrabErrorPrefix + discovered.detail)])
    ensures url != "" && discovered.Returned? ==>
      && r.state.chapterUrls == discovered.value
      && (r.state.translateEnabled <==> |discovered.value| > 0)
      && r.state.progress == s.progress
      && |CountLabelPrefix| <= |r.state.countLabel|
      && r.state.countLabel[..|CountLabelPrefix|] == CountLabelPrefix
      && IsDigits(r.state.countLabel[|CountLabelPrefix|..])
      && ParseDigits(r.state.countLabel[|CountLabelPrefix|..]) == |discovered.value|
      && Canonical(r.state.countLabel[|CountLabelPrefix|..])
      && (forall k :: 0 <= k < |r.log| ==> !r.log[k].ShowError? && !r.log[k].ShowInfo?)
  {
    if url == "" then
      Grabbed(s, [ShowError(MissingUrlMessage)])
    else
      match discovered
      case Raised(e) =>
        Grabbed(s, [ShowError(GrabErrorPrefix + e)])
      case Returned(refs) =>
        var count := NatToString(|refs|);
        var log := [SetCountLabel(CountLabelPrefix + count), SetTranslateEnabled(|refs| > 0)];
        var s' := s.(chapterUrls := refs);
        var t := Replay(s', log);
        assert t == s'.(countLabel := CountLabelPrefix + count, translateEnabled := |refs| > 0) by {
          assert log[..1] == [SetCountLabel(CountLabelPrefix + count)] && log[..1][..0] == [];
          assert Replay(s', log[..1]) == Effect(Replay(s', []), log[0]);
          assert t == Effect(Replay(s', log[..1]), log[1]);
        }
        assert (CountLabelPrefix + count)[|CountLabelPrefix|..] == count;
        ParseFormat(|refs|);
        Grabbed(t, log)
  }

  /** How the run ends once the loop is over. */
  datatype Ending = Ending(log: seq<UiEvent>, artifact: Option<Artifact>)

  /** After the loop: no surviving chapter is an error and nothing is built;
      otherwise the book is created and the outcome reported. */
  function Conclude(req: Request, chapters: seq<Chapter>, coverRead: Reply<seq<byte>>, write: Reply<()>): (e: Ending)
    ensures |e.log| == 1 && (e.log[0].ShowError? || e.log[0].ShowInfo?)
    ensures e.artifact.Some? <==> chapters != [] && (req.coverPath == "" || coverRead.Returned?) && write.Returned?
    ensures chapters == [] ==> e.log == [ShowError(NoChaptersMessage)]
    ensures e.artifact.Some? ==>
      && e.log == [ShowInfo(SuccessMessage)]
      && e.artifact.value.path == JoinPath(req.outputDir, req.epubFileName)
      && ChaptersOf(e.artifact.value.book) == chapters
      && e.artifact.value.book == BuildBook(req.title, req.author, chapters, CoverBytes(req.coverPath, coverRead))
  {
    if chapters == [] then
      Ending([ShowError(NoChaptersMessage)], None)
    else
      match CreateEpub(req.title, req.author, chapters, req.outputDir, req.epubFileName, req.coverPath, coverRead, write)
      case Failure(detail) => Ending([ShowError(EpubErrorPrefix + detail)], None)
      case Success(a) => Ending([ShowInfo(SuccessMessage)], Some(a))
  }

  /** The concluding dialog tells the outcome: the success message exactly
      when a package was written, and when assembly raised, the EPUB error
      with the text of the exception. */
  lemma ConcludeDialog(req: Request, chapters: seq<Chapter>, coverRead: Reply<seq<byte>>, write: Reply<()>)
    ensures var e := Conclude(req, chapters, coverRead, write);
      && (e.log[0].ShowInfo? <==> e.artifact.Some?)
      && (chapters != [] && e.artifact.None? ==>
            e.log == [ShowError(EpubErrorPrefix + (if req.coverPath != "" && coverRead.Raised? then coverRead.detail else write.detail))])
  {
  }

  datatype RunReport = RunReport(state: AppState, log: seq<UiEvent>, artifact: Option<Artifact>)

  /** The chapters a validated request attempts: the first ones, in discovered order. */
  function Attempted(s: AppState, req: Request): (refs: seq<ChapterRef>)
    ensures |refs| <= req.requested && |refs| <= |s.chapterUrls|
    ensures |refs| == req.requested || |refs| == |s.chapterUrls|
    ensures refs == s.chapterUrls[..|refs|]
  {
    s.chapterUrls[..Clamp(req.requested, |s.chapterUrls|)]
  }

  /** "Translate": validate the form, then disable Translate, reset the
      progress bar, attempt the first `n` chapters, conclude, and enable
      Translate again. `outs[i]` is what the collaborators did for the `i`-th
      discovered chapter; only the attempted ones are consulted. */
  function StartTranslation(s: AppState, form: Form, outs: seq<Attempt>, coverRead: Reply<seq<byte>>, write: Reply<()>): (r: RunReport)
    requires |outs| == |s.chapterUrls|
    ensures Validate(form).Failure? ==> r == RunReport(s, [ShowError(Validate(form).error)], None)
    ensures Validate(form).Success? ==>
      && r.state.chapterUrls == s.chapterUrls
      && r.state.translateEnabled
  {
    match Validate(form)
    case Failure(msg) =>
      ReplayEffects(s, [ShowError(msg)]);
      RunReport(Replay(s, [ShowError(msg)]), [ShowError(msg)], None)
    case Success(req) =>
      var refs := Attempted(s, req);
      var n := |refs|;
      var ending := Conclude(req, Survivors(refs, outs[..n]), coverRead, write);
      var log := RunLog(AttemptLog(outs[..n], n), ending.log);
      RunReport(Replay(s, log), log, ending.artifact)
  }

  /** The events of a validated run: disable Translate, reset the progress
      bar to 0, the attempts' events, the concluding dialog, enable Translate. */
  function RunLog(attempts: seq<UiEvent>, ending: seq<UiEvent>): (log: seq<UiEvent>)
    requires |ending| == 1 && (ending[0].ShowError? || ending[0].ShowInfo?)
    ensures |log| == |attempts| + 4
    ensures log[0] == SetTranslateEnabled(false) && log[1] == SetProgress(0)
    ensures log[2..|log| - 2] == attempts
    ensures log[|log| - 2] == ending[0] && log[|log| - 1] == SetTranslateEnabled(true)
  {
    var log := [SetTranslateEnabled(false), SetProgress(0)] + attempts + ending + [SetTranslateEnabled(true)];
    assert log[2..|log| - 2] == attempts;
    log
  }

  /** The bar receives 0 and then exactly the attempts' progress values. */
  lemma RunLogProgress(attempts: seq<UiEvent>, ending: seq<UiEvent>)
    requires |ending| == 1 && (ending[0].ShowError? || ending[0].ShowInfo?)
    ensures ProgressOf(RunLog(attempts, ending)) == [0] + ProgressOf(attempts)
  {
    var head := [SetTranslateEnabled(false), SetProgress(0)];
    var tail := ending + [SetTranslateEnabled(true)];
    assert RunLog(attempts, ending) == head + attempts + tail;
    assert ProgressOf(head) == [0] by {
      assert head[..1] == [SetTranslateEnabled(false)];
      ProgressOfNone(head[..1]);
    }
    assert ProgressOf(tail) == [] by {
      ProgressOfNone(tail);
    }
    assert ProgressOf(head + attempts) == [0] + ProgressOf(attempts) by {
      ProgressOfAppend(head, attempts);
    }
    ProgressOfAppend(head + attempts, tail);
  }

  /** Only the first and the last event of a run log touch Translate, when
      the attempts' events do not. */
  lemma RunLogToggles(attempts: seq<UiEvent>, ending: seq<UiEvent>)
    requires |ending| == 1 && (ending[0].ShowError? || ending[0].ShowInfo?)
    requires forall i :: 0 <= i < |attempts| ==> attempts[i].ShowError? || attempts[i].SetProgress?
    ensures var log := RunLog(attempts, ending);
      forall k :: 0 < k < |log| - 1 ==> !log[k].SetTranslateEnabled?
  {
    var log := RunLog(attempts, ending);
    forall k | 2 <= k < |log| - 2
      ensures !log[k].SetTranslateEnabled?
    {
      assert log[k] == log[2..|log| - 2][k - 2];
    }
  }

  /** Logs without progress writes hold no progress values. */
  lemma {:induction false} ProgressOfNone(log: seq<UiEvent>)
    requires forall k :: 0 <= k < |log| ==> !log[k].SetProgress?
    ensures ProgressOf(log) == []
    decreases |log|
  {
    if |log| > 0 {
      ProgressOfNone(log[..|log| - 1]);
    }
  }

  /** In a validated run Translate is disabled first and enabled last, and
      nothing in between touches it, so it stays disabled while the chapters
      are processed and is enabled again however the run ends. */
  lemma RunTogglesTranslate(s: AppState, form: Form, outs: seq<Attempt>, coverRead: Reply<seq<byte>>, write: Reply<()>)
    requires |outs| == |s.chapterUrls|
    requires Validate(form).Success?
    ensures var r := StartTranslation(s, form, outs, coverRead, write);
      && |r.log| >= 4
      && r.log[0] == SetTranslateEnabled(false)
      && r.log[|r.log| - 1] == SetTranslateEnabled(true)
      && (forall k :: 0 < k < |r.log| - 1 ==> !r.log[k].SetTranslateEnabled?)
      && r.state.translateEnabled
  {
    var req := Validate(form).value;
    var refs := Attempted(s, req);
    var n := |refs|;
    var ending := Conclude(req, Survivors(refs, outs[..n]), coverRead, write);
    RunLogToggles(AttemptLog(outs[..n], n), ending.log);
  }

  /** A validated run attempts exactly `min(requested, discovered)` chapters,
      the first ones in discovered order: the events after the progress reset
      are those of attempts `0 .. n-1`, one each, in order. */
  lemma RunAttempts(s: AppState, form: Form, outs: seq<Attempt>, coverRead: Reply<seq<byte>>, write: Reply<()>)
    requires |outs| == |s.chapterUrls|
    requires Validate(form).Success?
    ensures var requested := ParseDigits(form.count);
      var n := if requested < |s.chapterUrls| then requested else |s.chapterUrls|;
      var r := StartTranslation(s, form, outs, coverRead, write);
      && |r.log| == n + 4
      && r.log[1] == SetProgress(0)
      && (forall i :: 0 <= i < n ==> r.log[2 + i] == AttemptEvent(outs[i], i, n))
  {
    var req := Validate(form).value;
    var refs := Attempted(s, req);
    var n := |refs|;
    var attempts := AttemptLog(outs[..n], n);
    AttemptLogEvents(outs[..n], n);
    var log := StartTranslation(s, form, outs, coverRead, write).log;
    assert log[2..|log| - 2] == attempts;
    forall i | 0 <= i < n
      ensures log[2 + i] == AttemptEvent(outs[i], i, n)
    {
      assert log[2 + i] == attempts[i];
      assert outs[..n][i] == outs[i];
    }
  }

  /** The book is built exactly when some attempted chapter survived and
      neither reading the cover nor writing the package raised; when none
      survived the run ends with the "no chapters" error. */
  lemma RunAssemblyGate(s: AppState, form: Form, outs: seq<Attempt>, coverRead: Reply<seq<byte>>, write: Reply<()>)
    requires |outs| == |s.chapterUrls|
    ensures var r := StartTranslation(s, form, outs, coverRead, write);
      match Validate(form)
      case Failure(_) => r.artifact.None?
      case Success(req) =>
        var n := |Attempted(s, req)|;
        var survived := exists i :: 0 <= i < n && Survives(outs[i]);
        && (r.artifact.Some? <==> survived && (form.coverPath == "" || coverRead.Returned?) && write.Returned?)
        && (r.log[|r.log| - 2].ShowInfo? <==> r.artifact.Some?)
        && (!survived ==> r.log[|r.log| - 2] == ShowError(NoChaptersMessage))
  {
    match Validate(form)
    case Failure(_) =>
    case Success(req) =>
      var refs := Attempted(s, req);
      var n := |refs|;
      SurvivorsNonEmpty(refs, outs[..n]);
      ConcludeDialog(req, Survivors(refs, outs[..n]), coverRead, write);
      assert forall i :: 0 <= i < n ==> outs[..n][i] == outs[i];
  }

  /** The package of a successful run is written at `join(output_dir, name + ".epub")`,
      is the book `create_epub` builds from the form's title, author and cover
      (so the facts of `BookNavigation`, `BookFileNames`, `BookContents` and
      `BookResources` hold of it), and holds, in order, the pair of every
      attempted chapter that survived, each under the title it was discovered with. */
  lemma RunArtifact(s: AppState, form: Form, outs: seq<Attempt>, coverRead: Reply<seq<byte>>, write: Reply<()>)
    requires |outs| == |s.chapterUrls|
    requires StartTranslation(s, form, outs, coverRead, write).artifact.Some?
    ensures Validate(form).Success?
    ensures var a := StartTranslation(s, form, outs, coverRead, write).artifact.value;
      var req := Validate(form).value;
      var n := |Attempted(s, req)|;
      var ids := Where(outs[..n], Survives);
      var chapters := ChaptersOf(a.book);
      && a.path == JoinPath(form.outputDir, form.fileName + EpubExtension)
      && a.book == BuildBook(form.title, form.author, chapters, CoverBytes(form.coverPath, coverRead))
      && |chapters| == |ids|
      && (forall k :: 0 <= k < |ids| ==>
            chapters[k] == Chapter(s.chapterUrls[ids[k]].title, outs[ids[k]].translation.value))
  {
    var req := Validate(form).value;
    var refs := Attempted(s, req);
    var n := |refs|;
    SurvivorsSubsequence(refs, outs[..n]);
  }

  /** What a validated run produces, in terms of its attempted chapters:
      the bar receives 0 and then the attempts' values and is left at the last
      one; a package is written exactly when some chapter survived and no I/O
      raised, and it holds the surviving pairs. */
  lemma RunOutcome(s: AppState, form: Form, outs: seq<Attempt>, coverRead: Reply<seq<byte>>, write: Reply<()>)
    requires |outs| == |s.chapterUrls|
    requires Validate(form).Success?
    ensures var r := StartTranslation(s, form, outs, coverRead, write);
      var refs := Attempted(s, Validate(form).value);
      var n := |refs|;
      var kept := Survivors(refs, outs[..n]);
      var values := ProgressOf(r.log);
      && values == [0] + ProgressOf(AttemptLog(outs[..n], n))
      && r.state.progress == values[|values| - 1]
      && (r.artifact.Some? <==> kept != [] && (form.coverPath == "" || coverRead.Returned?) && write.Returned?)
      && (r.artifact.Some? ==> ChaptersOf(r.artifact.value.book) == kept)
  {
    var req := Validate(form).value;
    var refs := Attempted(s, req);
    var n := |refs|;
    var ending := Conclude(req, Survivors(refs, outs[..n]), coverRead, write);
    RunLogProgress(AttemptLog(outs[..n], n), ending.log);
    ReplayEffects(s, StartTranslation(s, form, outs, coverRead, write).log);
  }

  /** Every value the run writes to the progress bar lies in 0..100, the
      values never decrease, and the bar is left at the last of them. */
  lemma RunProgress(s: AppState, form: Form, outs: seq<Attempt>, coverRead: Reply<seq<byte>>, write: Reply<()>)
    requires |outs| == |s.chapterUrls|
    requires Validate(form).Success?
    ensures var r := StartTranslation(s, form, outs, coverRead, write);
      var values := ProgressOf(r.log);
      && |values| > 0 && values[0] == 0
      && ProgressSane(values, |Attempted(s, Validate(form).value)|)
      && r.state.progress == values[|values| - 1]
  {
    var req := Validate(form).value;
    var n := |Attempted(s, req)|;
    var middle := ProgressOf(AttemptLog(outs[..n], n));
    ProgressBounds(outs[..n], n);
    RunOutcome(s, form, outs, coverRead, write);
    SaneAfterReset(middle, n);
  }

  /** Putting the reset to 0 in front of a sane progress sequence keeps it sane. */
  lemma SaneAfterReset(middle: seq<nat>, n: nat)
    requires ProgressSane(middle, n)
    ensures ProgressSane([0] + middle, n)
  {
    var values := [0] + middle;
    assert forall k :: 0 < k < |values| ==> values[k] == middle[k - 1];
  }

  /** Translate is enabled only when chapters were discovered, from the
      opening of the window on, across both actions; so a run started from the
      window always attempts at least one chapter. */
  lemma ActionsKeepConsistent(s: AppState, url: string, discovered: Reply<seq<ChapterRef>>,
                              form: Form, outs: seq<Attempt>, coverRead: Reply<seq<byte>>, write: Reply<()>)
    requires Consistent(s)
    requires |outs| == |s.chapterUrls|
    ensures Consistent(Initial)
    ensures Consistent(GrabChapters(s, url, discovered).state)
    ensures s.translateEnabled ==> Consistent(StartTranslation(s, form, outs, coverRead, write).state)
    ensures s.translateEnabled && Validate(form).Success? ==> |Attempted(s, Validate(form).value)| >= 1
  {
  }

  /** The scenario below: three attempts whose second translation raises. */
  function ScenarioAttempts(raw: string, text: string, detail: string): seq<Attempt> {
    [Attempt(Returned(raw), Returned(text)), Attempt(Returned(raw), Raised(detail)), Attempt(Returned(raw), Returned(text))]
  }

  /** The chapters the scenario keeps: the first and the third. */
  lemma ScenarioSurvivors(refs: seq<ChapterRef>, raw: string, text: string, detail: string)
    requires |refs| == 3 && raw != "" && text != ""
    ensures Survivors(refs, ScenarioAttempts(raw, text, detail))
      == [Chapter(refs[0].title, text), Chapter(refs[2].title, text)]
  {
    var outs := ScenarioAttempts(raw, text, detail);
    assert Survives(outs[0]) && !Survives(outs[1]) && Survives(outs[2]);
    assert Survivors(refs[..1], outs[..1]) == [Chapter(refs[0].title, text)] by {
      assert refs[..1][..0] == [] && outs[..1][..0] == [];
    }
    assert Survivors(refs[..2], outs[..2]) == [Chapter(refs[0].title, text)] by {
      assert refs[..2][..1] == refs[..1] && outs[..2][..1] == outs[..1];
    }
  }

  /** The events of the scenario's three attempts: 33, the second chapter's
      error, 99. */
  lemma ScenarioEvents(raw: string, text: string, detail: string)
    requires raw != "" && text != ""
    ensures AttemptLog(ScenarioAttempts(raw, text, detail), 3)
      == [SetProgress(33), ShowError(ChapterErrorPrefix + detail), SetProgress(99)]
  {
    var outs := ScenarioAttempts(raw, text, detail);
    assert Completes(outs[0]) && Raises(outs[1]) && Completes(outs[2]);
    assert ProgressAfter(0, 3) == 33 && ProgressAfter(2, 3) == 99;
    assert AttemptLog(outs[..1], 3) == [SetProgress(33)] by {
      assert outs[..1][..0] == [];
    }
    assert AttemptLog(outs[..2], 3) == [SetProgress(33), ShowError(ChapterErrorPrefix + detail)] by {
      assert outs[..2][..1] == outs[..1];
    }
  }

  lemma ScenarioProgress(raw: string, text: string, detail: string)
    requires raw != "" && text != ""
    ensures ProgressOf(AttemptLog(ScenarioAttempts(raw, text, detail), 3)) == [33, 99]
  {
    ScenarioEvents(raw, text, detail);
    var e1 := [SetProgress(33)];
    var e2 := e1 + [ShowError(ChapterErrorPrefix + detail)];
    var e3 := e2 + [SetProgress(99)];
    assert ProgressOf(e1) == [33] by {
      assert e1[..0] == [];
    }
    assert ProgressOf(e2) == [33] by {
      assert e2[..1] == e1;
    }
    assert e3[..2] == e2;
    assert e3 == [SetProgress(33), ShowError(ChapterErrorPrefix + detail), SetProgress(99)];
  }

  /** A complete form asking for three chapters is accepted. */
  lemma ScenarioRequest(form: Form)
    requires form.title != "" && form.author != "" && form.outputDir != "" && form.count == "3"
    ensures Validate(form).Success? && Validate(form).value.requested == 3
      && Validate(form).value.coverPath == form.coverPath
  {
    assert IsDigits(form.count) && ParseDigits(form.count) == 3 by {
      assert form.count[..0] == [];
    }
  }

  /** The package of the scenario below: the first and third chapters. */
  lemma ScenarioPackage(refs: seq<ChapterRef>, form: Form, outs: seq<Attempt>,
                        raw: string, text: string, detail: string, coverRead: Reply<seq<byte>>)
    requires |refs| == 5 && |outs| == 5 && raw != "" && text != ""
    requires outs[..3] == ScenarioAttempts(raw, text, detail)
    requires form.title != "" && form.author != "" && form.outputDir != "" && form.count == "3"
    requires form.coverPath == ""
    ensures var r := StartTranslation(AppState(refs, "", true, 0), form, outs, coverRead, Returned(()));
      && r.artifact.Some?
      && ChaptersOf(r.artifact.value.book) == [Chapter(refs[0].title, text), Chapter(refs[2].title, text)]
  {
    var s := AppState(refs, "", true, 0);
    ScenarioRequest(form);
    var req := Validate(form).value;
    assert Attempted(s, req) == refs[..3];
    ScenarioSurvivors(refs[..3], raw, text, detail);
    RunOutcome(s, form, outs, coverRead, Returned(()));
  }

  /** The progress bar of the scenario below: 0, 33, 99. */
  lemma ScenarioBar(refs: seq<ChapterRef>, form: Form, outs: seq<Attempt>,
                    raw: string, text: string, detail: string, coverRead: Reply<seq<byte>>)
    requires |refs| == 5 && |outs| == 5 && raw != "" && text != ""
    requires outs[..3] == ScenarioAttempts(raw, text, detail)
    requires form.title != "" && form.author != "" && form.outputDir != "" && form.count == "3"
    ensures var r := StartTranslation(AppState(refs, "", true, 0), form, outs, coverRead, Returned(()));
      && ProgressOf(r.log) == [0, 33, 99]
      && r.state.progress == 99
  {
    var s := AppState(refs, "", true, 0);
    ScenarioRequest(form);
    var req := Validate(form).value;
    assert Attempted(s, req) == refs[..3];
    ScenarioProgress(raw, text, detail);
    RunOutcome(s, form, outs, coverRead, Returned(()));
  }

  /** Five chapters discovered, three requested, the second one's translation
      raises: two documents holding the first and third chapters, and a
      progress bar that goes 0, 33, 99 and stays short of 100. */
  lemma ScenarioSecondOfThreeFails(refs: seq<ChapterRef>, form: Form, outs: seq<Attempt>,
                                   raw: string, text: string, detail: string, coverRead: Reply<seq<byte>>)
    requires |refs| == 5 && |outs| == 5 && raw != "" && text != ""
    requires outs[..3] == ScenarioAttempts(raw, text, detail)
    requires form.title != "" && form.author != "" && form.outputDir != "" && form.count == "3"
    requires form.coverPath == ""
    ensures var r := StartTranslation(AppState(refs, "", true, 0), form, outs, coverRead, Returned(()));
      && r.artifact.Some?
      && ChaptersOf(r.artifact.value.book) == [Chapter(refs[0].title, text), Chapter(refs[2].title, text)]
      && ProgressOf(r.log) == [0, 33, 99]
      && r.state.progress == 99
  {
    ScenarioPackage(refs, form, outs, raw, text, detail, coverRead);
    ScenarioBar(refs, form, outs, raw, text, detail, coverRead);
  }
}
