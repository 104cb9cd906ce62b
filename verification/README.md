# Web-novel translator: the acquisition, translation and assembly core

This project models the core of `translator_gui.py` in Dafny. That core has three parts:

- **"Grab Chapters"** (`TranslatorApp.grab_chapters`) asks a collaborator for the novel's ordered chapter list and stores it. It shows the count and enables "Translate" only when the list is non-empty.
- **"Translate"** (`TranslatorApp.start_translation`) runs these steps:
  - validates the form;
  - clamps the requested count to the number of discovered chapters;
  - walks the first `n` chapters in order (fetch, clean, translate), keeping a `(title, translated)` pair for each chapter that yields non-empty text;
  - reports every exception in a dialog without stopping, and writes `(i+1) * (100 // n)` to the progress bar after each attempt that did not raise; a chapter whose content or translation is empty is dropped without a dialog and still moves the bar;
  - builds the package only when some pair was kept.
- **`create_epub`** builds the book and writes it. The book holds:
  - one `chap_<k>.xhtml` document per kept pair;
  - an optional `cover.jpg`;
  - a table of contents;
  - the NCX and navigation items;
  - the fixed stylesheet;
  - the spine, which is `'nav'` followed by the documents.

The model is split into modules:

| module | file | contents |
|---|---|---|
| `Wrappers` | `wrappers.dfy` | `Option`, `Result` |
| `Effects` | `effects.dfy` | `Reply` values and the UI event log |
| `Decimal` | `decimal.dfy` | `str.isdigit`, `int()` and `f"{n}"` on naturals |
| `Epub` | `epub.dfy` | `create_epub` |
| `Translation` | `translation.dfy` | validation, clamp, per-chapter loop, progress |
| `App` | `app.dfy` | the window state and the two actions |

Every call into a collaborator becomes an input of type `Reply<T>`, which is either `Raised(detail)` or `Returned(value)`. The collaborators are:

- discovery;
- fetching one chapter;
- cleaning plus translating it;
- reading the cover file;
- writing the package.

The dialogs and widget updates an action makes are a list of `UiEvent`s. The window state after the action is that list replayed on the state before it; for "Grab Chapters", replayed on that state with the new chapter list.

The model follows the code where its behaviour is easy to misread:

- **Count validation.** A count is rejected unless it is a non-empty digit string whose value is positive. So `"+3"` and `" 3"` are refused, along with `"0"`.
- **File name check.** `".epub"` is appended before the emptiness check, so an empty file name is never refused.
- **Zero discovered chapters.** With zero chapters the run is not refused up front. It attempts nothing and ends with "No chapters were processed successfully.". When actions are taken one at a time, `App.ActionsKeepConsistent` shows this cannot be reached from the window, because Translate stays disabled until a non-empty list was grabbed. A grab clicked during a run is another matter (see "Left out").
- **Progress.** The bar uses integer division. It ends at 100 only when `n` divides 100, and after three chapters it shows 33, 66 and 99.
- **Atomic actions.** Each action is modelled as one step that completes before the next begins. The chapters are processed one after another, and there is no cancellation or atomic write.

## Model

| member | source | states |
|---|---|---|
| Decimal.ParseDigits | translator_gui.py:149 | the value of a digit string is 0 exactly when every digit is `0` |
| Decimal.NatToString | translator_gui.py:127 | `f"{n}"` is a digit string that starts with `0` only for 0 |
| Decimal.ParseFormat | translator_gui.py:127 | reading back the text `f"{n}"` with `int()` gives `n` |
| Decimal.FormatParse | translator_gui.py:149 | for a digit string without leading zeros, `int()` then `f"{}"` gives the string back |
| Epub.ChapterFileName | translator_gui.py:194 | the name of the k-th document is `chap_<m>.xhtml` with `m = k+1`, written without leading zeros |
| Epub.ChapterNameUnique | translator_gui.py:194 | the k-th name is the only name carrying the number `k+1` without leading zeros, so `chap_01.xhtml` is not a chapter name |
| Epub.ChapterDocument | translator_gui.py:193-196 | each document keeps the chapter title and language `en`, and its content is the `<h1>` heading of the title followed by exactly the translated body |
| Epub.HtmlDocumentsAppend | translator_gui.py:204 | the `isinstance(ch, EpubHtml)` filter distributes over the concatenation of item lists |
| Epub.HtmlDocumentsOfItems | translator_gui.py:196 | filtering the added chapter items gives back the chapter documents unchanged |
| Epub.BookDocuments | translator_gui.py:193-215 | the book's documents are one per chapter in order, and the TOC filter before the NCX/nav/stylesheet items are added sees the same documents as the spine filter after |
| Epub.BookRoundTrip | translator_gui.py:193-196 | reading the `(title, body)` pairs back out of the built book gives the input chapters |
| Epub.BookContents | translator_gui.py:193-196 | the k-th document of the book has the k-th chapter's title, language `en`, and content `<h1>title</h1>` followed by exactly its body |
| Epub.BookFileNames | translator_gui.py:193-194 | the k-th document is named `chap_<k+1>.xhtml`, with the number written without leading zeros; the names have no gaps and no repeats |
| Epub.BookNavigation | translator_gui.py:203-215 | one TOC link per document, in order, with href the document's name and title and uid the chapter title; the spine is `'nav'` followed by the same documents in order |
| Epub.BookResources | translator_gui.py:188-212 | title, language `en`, the single author, a cover named `cover.jpg` exactly when bytes were read, and the one fixed stylesheet item |
| Epub.JoinPath | translator_gui.py:218 | an absolute name is the path. Otherwise the path is the directory, then a `/` exactly when the directory is non-empty and does not already end in `/`, then the name |
| Epub.CreateEpub | translator_gui.py:187-218 | succeeds exactly when the cover read (if any) and the write did not raise. On success the package is at `join(output_dir, name)`, holds the given chapters, has a cover exactly when a cover path was given, and is the book `BuildBook` describes, so `BookContents`, `BookNavigation`, `BookFileNames` and `BookResources` hold of it. On failure the error text is that of the cover read when it raised, otherwise that of the write |
| Translation.Validate | translator_gui.py:138-151 | accepted exactly when title, author and output directory are non-empty and the count is digits with positive value; which message each rejection shows; the request carries `name + ".epub"` |
| Translation.Clamp | translator_gui.py:153 | the attempted count is the minimum of the requested and discovered counts |
| Translation.ProgressAfter | translator_gui.py:169 | `(i+1) * (100 // n)` is at most 100 and equals 100 iff `i` is the last attempt and `n` divides 100 |
| Translation.ProgressMonotone | translator_gui.py:169 | a later attempt's progress value is never smaller |
| Translation.AttemptLogEvents | translator_gui.py:161-173 | the i-th attempt shows either the chapter error dialog (when it raised) or its progress value, one event per attempt in order |
| Translation.AttemptChapter | translator_gui.py:162-173 | one loop body: the pair is kept iff content and translation are both non-empty, and the exception text is reported iff a call raised |
| Translation.TranslateChapters | translator_gui.py:159-173 | the loop builds exactly the surviving pairs and the attempt events |
| Translation.SurvivorsSubsequence | translator_gui.py:159-168 | the kept pairs are, in order, those of the surviving attempts, each with the discovered title unchanged |
| Translation.SurvivorsNonEmpty | translator_gui.py:164-168 | some pair is kept exactly when some attempt survived |
| Translation.ProgressValues | translator_gui.py:169-173 | the bar receives `ProgressAfter(i, n)` for every attempt `i` that did not raise, in attempt order, and nothing for the ones that raised |
| Translation.ProgressBounds | translator_gui.py:169 | the progress values never exceed 100, never decrease, and reach 100 only when `n` divides 100 |
| Translation.ProgressReachesFull | translator_gui.py:169 | when `n` divides 100 and the last attempt does not raise, the bar ends at 100 |
| App.Replay | translator_gui.py:117-185 | no UI event changes the stored chapter list |
| App.ReplayEffects | translator_gui.py:156-169 | dialogs change no state, and the bar is left at the last value written to it |
| App.GrabChapters | translator_gui.py:117-135 | an empty URL or a failing discovery shows an error and changes nothing. Otherwise no dialog is shown, the list is replaced, the label carries the count written without leading zeros, and Translate is enabled iff the list is non-empty |
| App.Conclude | translator_gui.py:175-183 | exactly one final dialog; a package iff some pair was kept and no I/O raised; "No chapters..." when none was kept; on success the success dialog, and the package is the book built from the request's title, author and cover bytes and the kept pairs, at the joined path |
| App.ConcludeDialog | translator_gui.py:176-181 | the final dialog is the success one exactly when a package was written; when assembly raised it is the EPUB error followed by the text of the exception (the cover read's when that raised, otherwise the write's) |
| App.Attempted | translator_gui.py:153-161 | the attempted chapters are the first `min(requested, discovered)` discovered ones, in order |
| App.StartTranslation | translator_gui.py:137-185 | an invalid form shows its message and changes nothing; a valid one keeps the chapter list and leaves Translate enabled |
| App.RunLogProgress | translator_gui.py:156-169 | the run writes 0 to the bar and then exactly the attempts' values |
| App.RunTogglesTranslate | translator_gui.py:155-185 | Translate is disabled first, enabled last, and untouched in between |
| App.RunAttempts | translator_gui.py:153-173 | a valid run has one event per attempted chapter, after the reset to 0, for exactly the first `min(requested, discovered)` chapters in order |
| App.RunAssemblyGate | translator_gui.py:175-183 | the package is written iff some attempted chapter survived and no I/O raised; with no survivor the run ends with "No chapters were processed successfully."; the last dialog is the success one exactly when the package was written |
| App.RunArtifact | translator_gui.py:175-218 | a written package is at `join(output_dir, name + ".epub")` and is the book built from the form's title, author and cover. It holds, in order, the pair of every surviving attempted chapter with its discovered title |
| App.RunOutcome | translator_gui.py:153-185 | the bar receives 0 then the attempts' values and is left at the last; the package condition and its chapters |
| App.RunProgress | translator_gui.py:156-169 | every value the run writes to the bar is in 0..100, the values never decrease, and the bar is left at the last |
| App.ActionsKeepConsistent | translator_gui.py:117-185 | when actions are taken one at a time, Translate is enabled only while the chapter list is non-empty, from window creation through both actions, so a run started from the window attempts at least one chapter |
| App.ScenarioPackage | translator_gui.py:153-183 | with five chapters discovered, three requested and the second translation raising, a package is written holding chapters 1 and 3 |
| App.ScenarioBar | translator_gui.py:156-170 | in the same run the bar goes 0, 33, 99 and is left at 99 |
| App.ScenarioSecondOfThreeFails | translator_gui.py:153-185 | with five chapters discovered, three requested and the second translation raising, the book holds chapters 1 and 3 and the bar goes 0, 33, 99 |

## Left out

- The Tkinter window is not modelled: layout, the browse dialogs, the `"Error"`/`"Success"` dialog captions, and exceptions raised by widget calls. Dialogs and widget updates are events in a log.
- Logging, `tqdm`, `dotenv` and the translation client's set-up are left out. They do not affect the outcome.
- `get_chapter_urls`, `get_chapter_content`, `clean_text` and `translate_text` are collaborators and are inputs. Cleaning and translating are one reply, because the loop only sees their composition. A `None` reply is modelled as the empty string, since the code only tests truthiness.
- `get_chapter_urls` is assumed to return a list. Its elements are taken to be `(url, title)` pairs, as line 161 unpacks them.
- ebooklib internals are not modelled: uids assigned by `add_item`, the internals of `set_cover` (cover image item and cover page), the contents of the NCX and nav documents, and `write_epub` with its zip layout. Reading the cover file's bytes and writing the package are inputs that may raise.
- Epub.HtmlDocuments: the class hierarchy of ebooklib is not part of this model. The `isinstance(ch, epub.EpubHtml)` filters at lines 204 and 215 are modelled on the assumption that the NCX item, the nav item, the stylesheet item and the cover page are not `EpubHtml`.
- Epub.BuildBook: the TOC at line 204 is a lazily evaluated generator. The model evaluates it over the items present at that line. `Epub.BookDocuments` proves that, under the assumption above, it yields the same documents as the spine filter at line 215.
- Epub.JoinPath: models POSIX `os.path.join` only. A Windows drive letter or backslash is treated as an ordinary character.
- Decimal.IsDigit: accepts only ASCII `0`-`9`. Python's `str.isdigit` also accepts other Unicode digits (superscripts and digits of other scripts), and `int()` may then reject them.
- Translation.Validate: accepts digit strings of any length. Since CPython 3.11, `int()` raises `ValueError` on a string of more than 4300 digits (the default `int_max_str_digits`). At line 149 that error is not caught, so no dialog appears and no run starts.
- App.StartTranslation: re-entry through `self.update()` is not modelled. The calls at lines 157 and 170 run the Tk event loop during a run, and "Grab Chapters" is never disabled.
  - A grab during a run can replace the chapter list. If it returns `[]`, it disables Translate, and line 185 then enables Translate with an empty list. `App.ActionsKeepConsistent` covers only actions taken one at a time.
  - A grab that returns chapters re-enables Translate mid-run, which lets a second `start_translation` nest inside the first.
- Epub.CreateEpub: a failing write is modelled as producing no package. `write_epub` may raise after it has created the file, leaving a partial package on disk.

