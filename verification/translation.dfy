/** The translate-and-build run, apart from the window it runs in: input
    validation, the clamp on the chapter count, the ordered pass over the
    first `n` chapters in which each chapter either survives or is dropped,
    and the progress values written along the way. */
module Translation {
  import opened Wrappers
  import opened Effects
  import opened Decimal
  import opened Epub

  /** One discovered chapter: where to fetch it and its display title. */
  datatype ChapterRef = ChapterRef(url: string, title: string)

  /** What the collaborators did for one attempted chapter. `content` is the
      reply of `get_chapter_content`; `translation` is the reply of
      `translate_text(clean_text(content))`, consulted only when the content
      is non-empty. A `None` reply is modelled as the empty string. */
  datatype Attempt = Attempt(content: Reply<string>, translation: Reply<string>)

  /** The attempt raised an exception, so the loop body was abandoned. */
  predicate Raises(a: Attempt) {
    a.content.Raised? || (a.content.value != "" && a.translation.Raised?)
  }

  /** The attempt ran to its end (whether or not it kept the chapter). */
  predicate Completes(a: Attempt) {
    !Raises(a)
  }

  /** The attempt appended a `(title, translated)` pair. */
  predicate Survives(a: Attempt) {
    a.content.Returned? && a.content.value != "" && a.translation.Returned? && a.translation.value != ""
  }

  /** The text of the exception a raising attempt raised. */
  function FailureDetail(a: Attempt): string
    requires Raises(a)
  {
    if a.content.Raised? then a.content.detail else a.translation.detail
  }

  /** The pair a surviving attempt keeps: the discovered title, unchanged, and the translation. */
  function Kept(r: ChapterRef, a: Attempt): Chapter
    requires Survives(a)
  {
    Chapter(r.title, a.translation.value)
  }

  /** The raw text of the form's entries. */
  datatype Form = Form(title: string, author: string, fileName: string, outputDir: string, count: string, coverPath: string)

  /** A request that passed validation. */
  datatype Request = Request(title: string, author: string, epubFileName: string, outputDir: string, requested: nat, coverPath: string)

  const EpubExtension := ".epub"
  const FillAllFieldsMessage := "Please fill in all fields."
  const InvalidCountMessage := "Please enter a valid number of chapters to translate."
  const ChapterErrorPrefix := "An error occurred while translating a chapter: "

  /** Input validation. The file name always has `.epub` appended before it is
      checked, so its emptiness test never rejects anything: a request is
      accepted exactly when title, author and output directory are non-empty
      and the count is a digit string whose value is positive. */
  function Validate(f: Form): (r: Result<Request, string>)
    ensures r.Success? <==>
      f.title != "" && f.author != "" && f.outputDir != "" && IsDigits(f.count) && ParseDigits(f.count) > 0
    ensures r.Success? ==>
      r.value == Request(f.title, f.author, f.fileName + EpubExtension, f.outputDir, ParseDigits(f.count), f.coverPath)
    ensures r.Failure? ==>
      r.error == (if f.title == "" || f.author == "" || f.outputDir == "" then FillAllFieldsMessage else InvalidCountMessage)
  {
    var epubFileName := f.fileName + EpubExtension;
    if f.title == "" || f.author == "" || epubFileName == "" || f.outputDir == "" then
      Failure(FillAllFieldsMessage)
    else if !IsDigits(f.count) || ParseDigits(f.count) <= 0 then
      Failure(InvalidCountMessage)
    else
      Success(Request(f.title, f.author, epubFileName, f.outputDir, ParseDigits(f.count), f.coverPath))
  }

  /** The number of chapters attempted: the smaller of the requested and the discovered count. */
  function Clamp(requested: nat, discovered: nat): (n: nat)
    ensures n <= requested && n <= discovered
    ensures n == requested || n == discovered
  {
    if requested < discovered then requested else discovered
  }

  /** The positions of the elements `keep` accepts, in increasing order. */
  function Where<T>(xs: seq<T>, keep: T -> bool): (ids: seq<nat>)
    ensures |ids| <= |xs|
    ensures forall k :: 0 <= k < |ids| ==> ids[k] < |xs| && keep(xs[ids[k]])
    ensures forall j, k :: 0 <= j < k < |ids| ==> ids[j] < ids[k]
    ensures forall i :: 0 <= i < |xs| && keep(xs[i]) ==> i in ids
  {
    if |xs| == 0 then []
    else
      var init := xs[..|xs| - 1];
      assert forall i :: 0 <= i < |init| ==> init[i] == xs[i];
      Where(init, keep) + (if keep(xs[|xs| - 1]) then [|xs| - 1] else [])
  }

  /** The `chapters` list the loop builds over the attempted references
      `refs`, where `outs[i]` is what happened to `refs[i]`. */
  function Survivors(refs: seq<ChapterRef>, outs: seq<Attempt>): seq<Chapter>
    requires |refs| == |outs|
  {
    if |refs| == 0 then []
    else
      var i := |refs| - 1;
      Survivors(refs[..i], outs[..i]) + (if Survives(outs[i]) then [Kept(refs[i], outs[i])] else [])
  }

  /** The progress value after attempt `i` (0-based) of `n` completes:
      `(i+1) * (100 // n)`. It never exceeds 100 and is 100 exactly after the
      last attempt when `n` divides 100. */
  function ProgressAfter(i: nat, n: nat): (p: nat)
    requires i < n
    ensures p <= 100
    ensures p == 100 <==> i + 1 == n && 100 % n == 0
  {
    var q := 100 / n;
    assert n * q + 100 % n == 100;
    ProgressBelowFull(i + 1, n, q);
    (i + 1) * q
  }

  /** Arithmetic behind `ProgressAfter`: `m * (100 // n)` for `m <= n`. */
  lemma ProgressBelowFull(m: nat, n: nat, q: nat)
    requires 0 < m <= n && q == 100 / n
    ensures m * q <= n * q <= 100
    ensures m * q == 100 <==> m == n && 100 % n == 0
  {
    assert n * q + 100 % n == 100;
    if m < n {
      assert m * q + q <= n * q by {
        assert (m + 1) * q <= n * q;
      }
      if q == 0 {
        assert m * q == 0;
      } else {
        assert m * q < 100;
      }
    }
  }

  lemma ProgressMonotone(i: nat, j: nat, n: nat)
    requires i <= j < n
    ensures ProgressAfter(i, n) <= ProgressAfter(j, n)
  {
    var q := 100 / n;
    assert (i + 1) * q <= (j + 1) * q;
  }

  /** What attempt `i` of `n` shows: a chapter error dialog if it raised,
      otherwise the new progress value. */
  function AttemptEvent(a: Attempt, i: nat, n: nat): UiEvent
    requires i < n
  {
    if Raises(a) then ShowError(ChapterErrorPrefix + FailureDetail(a))
    else SetProgress(ProgressAfter(i, n))
  }

  /** The events of the first `|outs|` attempts of a run of `n`. */
  function AttemptLog(outs: seq<Attempt>, n: nat): (log: seq<UiEvent>)
    requires |outs| <= n
    ensures |log| == |outs|
    ensures forall i :: 0 <= i < |log| ==> log[i].ShowError? || log[i].SetProgress?
  {
    if |outs| == 0 then []
    else
      var i := |outs| - 1;
      AttemptLog(outs[..i], n) + [AttemptEvent(outs[i], i, n)]
  }

  /** The body of the `try` for one chapter: fetch the content and, when it
      is non-empty, clean and translate it, keeping the pair when the
      translation is non-empty. Returns the kept pair, if any, and the text of
      the exception, if one was raised. */
  method AttemptChapter(r: ChapterRef, a: Attempt) returns (kept: Option<Chapter>, failure: Option<string>)
    ensures kept.Some? <==> Survives(a)
    ensures kept.Some? ==> kept.value == Kept(r, a)
    ensures failure.Some? <==> Raises(a)
    ensures failure.Some? ==> failure.value == FailureDetail(a)
  {
    kept, failure := None, None;
    match a.content {
      case Raised(e) =>
        failure := Some(e);
      case Returned(content) =>
        if content != "" {
          match a.translation {
            case Raised(e) =>
              failure := Some(e);
            case Returned(translated) =>
              if translated != "" {
                kept := Some(Chapter(r.title, translated));
              }
          }
        }
    }
  }

  /** The attempt log holds exactly one event per attempt, at its position. */
  lemma {:induction false} AttemptLogEvents(outs: seq<Attempt>, n: nat)
    requires |outs| <= n
    ensures forall i :: 0 <= i < |outs| ==> AttemptLog(outs, n)[i] == AttemptEvent(outs[i], i, n)
    decreases |outs|
  {
    if |outs| > 0 {
      var j := |outs| - 1;
      AttemptLogEvents(outs[..j], n);
      forall i | 0 <= i < j
        ensures outs[..j][i] == outs[i]
      {
      }
    }
  }

  /** The loop of the run: for each attempted chapter, in order, keep its
      pair if it survives, then either report its exception or write the new
      progress value, and go on with the next chapter. */
  method TranslateChapters(refs: seq<ChapterRef>, outs: seq<Attempt>) returns (chapters: seq<Chapter>, log: seq<UiEvent>)
    requires |refs| == |outs|
    ensures chapters == Survivors(refs, outs)
    ensures log == AttemptLog(outs, |refs|)
  {
    var n := |refs|;
    chapters := [];
    log := [];
    for i := 0 to n
      invariant chapters == Survivors(refs[..i], outs[..i])
      invariant log == AttemptLog(outs[..i], n)
    {
      var kept, failure := AttemptChapter(refs[i], outs[i]);
      if kept.Some? {
        chapters := chapters + [kept.value];
      }
      if failure.Some? {
        log := log + [ShowError(ChapterErrorPrefix + failure.value)];
      } else {
        log := log + [SetProgress(ProgressAfter(i, n))];
      }
      assert refs[..i + 1][..i] == refs[..i];
      assert outs[..i + 1][..i] == outs[..i];
      assert Survivors(refs[..i + 1], outs[..i + 1]) == Survivors(refs[..i], outs[..i])
        + (if Survives(outs[i]) then [Kept(refs[i], outs[i])] else []);
      assert AttemptLog(outs[..i + 1], n) == AttemptLog(outs[..i], n) + [AttemptEvent(outs[i], i, n)];
    }
    assert refs[..n] == refs && outs[..n] == outs;
  }

  /** The kept chapters are an order-preserving subsequence of the attempted
      references: the `k`-th kept pair comes from the `k`-th surviving
      attempt, with the reference's title unchanged, and an attempt is kept
      exactly when its content and its translation are both non-empty. */
  lemma {:induction false} SurvivorsSubsequence(refs: seq<ChapterRef>, outs: seq<Attempt>)
    requires |refs| == |outs|
    ensures var kept := Survivors(refs, outs);
      var ids := Where(outs, Survives);
      && |kept| == |ids|
      && (forall k :: 0 <= k < |ids| ==> kept[k] == Kept(refs[ids[k]], outs[ids[k]]))
    decreases |refs|
  {
    if |refs| > 0 {
      var i := |refs| - 1;
      var refs', outs' := refs[..i], outs[..i];
      SurvivorsSubsequence(refs', outs');
      var ids' := Where(outs', Survives);
      var tail: seq<nat> := if Survives(outs[i]) then [i] else [];
      assert Where(outs, Survives) == ids' + tail;
      assert Survivors(refs, outs) == Survivors(refs', outs')
        + (if Survives(outs[i]) then [Kept(refs[i], outs[i])] else []);
      forall k | 0 <= k < |ids'|
        ensures refs'[ids'[k]] == refs[ids'[k]] && outs'[ids'[k]] == outs[ids'[k]]
      {
      }
    }
  }

  /** Some pair is kept exactly when some attempt survives. */
  lemma SurvivorsNonEmpty(refs: seq<ChapterRef>, outs: seq<Attempt>)
    requires |refs| == |outs|
    ensures Survivors(refs, outs) != [] <==> exists i :: 0 <= i < |outs| && Survives(outs[i])
  {
    SurvivorsSubsequence(refs, outs);
    var ids := Where(outs, Survives);
    if exists i :: 0 <= i < |outs| && Survives(outs[i]) {
      var i :| 0 <= i < |outs| && Survives(outs[i]);
      assert i in ids;
    }
  }

  /** The progress bar receives one value per attempt that did not raise,
      `ProgressAfter` of that attempt's position, in attempt order. */
  lemma {:induction false} ProgressValues(outs: seq<Attempt>, n: nat)
    requires |outs| <= n
    ensures var values := ProgressOf(AttemptLog(outs, n));
      var ids := Where(outs, Completes);
      && |values| == |ids|
      && (forall k :: 0 <= k < |ids| ==> values[k] == ProgressAfter(ids[k], n))
    decreases |outs|
  {
    if |outs| > 0 {
      var i := |outs| - 1;
      ProgressValues(outs[..i], n);
      assert outs[..i] == outs[..|outs| - 1];
      ProgressOfAppend(AttemptLog(outs[..i], n), [AttemptEvent(outs[i], i, n)]);
      assert ProgressOf([AttemptEvent(outs[i], i, n)])
          == (if Completes(outs[i]) then [ProgressAfter(i, n)] else []) by {
        assert [AttemptEvent(outs[i], i, n)][..0] == [];
      }
    }
  }

  /** Progress values that never exceed 100, never decrease, and are 100
      only when `n` divides 100. */
  predicate ProgressSane(values: seq<nat>, n: nat) {
    && (forall k :: 0 <= k < |values| ==> values[k] <= 100)
    && (forall j, k :: 0 <= j < k < |values| ==> values[j] <= values[k])
    && (forall k :: 0 <= k < |values| && values[k] == 100 ==> n > 0 && 100 % n == 0)
  }

  /** Across the loop the progress value never exceeds 100, never decreases,
      and reaches 100 only when `n` divides 100. */
  lemma ProgressBounds(outs: seq<Attempt>, n: nat)
    requires |outs| <= n
    ensures ProgressSane(ProgressOf(AttemptLog(outs, n)), n)
  {
    ProgressValues(outs, n);
    var ids := Where(outs, Completes);
    forall j, k | 0 <= j < k < |ids|
      ensures ProgressAfter(ids[j], n) <= ProgressAfter(ids[k], n)
    {
      ProgressMonotone(ids[j], ids[k], n);
    }
  }

  /** When `n` divides 100 and the last attempt does not raise, the bar ends at 100. */
  lemma ProgressReachesFull(outs: seq<Attempt>, n: nat)
    requires 0 < |outs| == n && 100 % n == 0 && Completes(outs[n - 1])
    ensures var values := ProgressOf(AttemptLog(outs, n));
      |values| > 0 && values[|values| - 1] == 100
  {
    ProgressValues(outs, n);
    var ids := Where(outs, Completes);
    assert n - 1 in ids;
  }
}
