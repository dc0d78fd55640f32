# picture-frame, modelled in Dafny

A model of a digital picture frame. The slideshow (`picture-frame/main.py`) repeats a loop.
It scans the image folder and reconciles its play list with the scan. It loads the current
picture through a two-entry `lru_cache`; the load corrects the EXIF orientation and scales
the picture to fit the screen. It then fades the picture in and draws a word-wrapped caption.
It holds the picture while handling window events, and moves to the next picture. A small
web server (`picture-frame/server.py`) admits uploads up to a limit, stamps the file times of
uploaded pictures, and edits the caption table. A helper (`helpers.py`) creates the missing
thumbnails.

Modules, in dependency order:

- `Wrappers`: `Option`.
- `Arith`: facts about Euclidean division.
- `Text`: Python's `str.strip`, `str.split()`, the `<` order on `str` and `sorted` of a set of
  names, `set(...)` of a list, and the leading-dot test. It also defines `JoinSpace`, which is
  `" ".join`. No source file calls it; the model uses it to state that wrapping keeps the words.
  The play list holds `PosixPath` values under one common folder. The model compares them by
  file name, which agrees because `PurePosixPath` compares case-sensitively. Windows paths, which
  compare without case, are not modelled.
- `ImageLoad`: the orientation rule, the exact aspect fit, `load_image` without its cache, and
  the `Surface` class whose alpha the fade changes.
- `Fade`: `int(255 / (duration * fps))` and `range(0, 256, step)`, and `fade_in` as a method on
  a surface.
- `Caption`: the caption lookup, the greedy wrap loop, and the line layout.
- `LoadCache`: the least-recently-used cache as a pure function on its entries. It has a `Cache`
  class whose `Get` is proved against that function.
- `Playback`: the event handling of the hold, the play-list rules, and the `Player` class. Its
  fields are the module-level variables of the main loop: `image_files`, `idx`, `running`,
  `screen_width`, `screen_height` and `IMG_DESCR`.
- `Server`: the upload admission rule, the timestamp precedence, the upload loop as a pure
  function, pure `Renamed`/`Deleted` table edits, and the `Server` class with `Upload`,
  `Delete` and `Rename`.
- `Thumbnails`: the hidden-name filter, the thumbnail pass as a pure function, and the
  `GenerateThumbnails` loop proved against it.

The outside world is passed in as parameters:

- Folder contents are sets of file names.
- Per decoded file: its size and orientation; whether PIL can open it.
- The window size that `screen.get_size()` reports when a picture is loaded. It can differ from `screen_width` and `screen_height` when a resize event has not been read yet.
- The date parsers, modelled as partial functions.
- The order `random.shuffle` produced.
- The event batches that `pygame.event.get()` returned.
- Whether a save of the caption file succeeded.

Some behaviour that is described for the frame is not in the code, and the model follows the
code:

- The cache key is the path alone, not the path and the screen size. A picture cached before a
  window resize keeps its old size.
- The fade need not end at alpha 255. With the default one-second fade it ends at 248.
- There are no remote next, previous, pause or resume commands.
- There is no bound on consecutive skipped pictures.

Two more properties of the code:

- `Path(IMAGE_FOLDER).glob("*")` lists names that begin with a dot. Only the thumbnail helper
  skips hidden names.
- A stop event (window close or Escape) clears `running` but does not end the hold. The current
  picture stays up until the display time has passed, and the index still advances.

## Model

| member | source | states |
|---|---|---|
| Text.IsSpace | picture-frame/server.py:80 | the characters Python's `str.isspace` accepts, which are the ones `strip()` and `split()` treat as whitespace |
| Text.LeadingSpace | picture-frame/server.py:80 | the length of the longest whitespace prefix: every character before it is whitespace, and the next one is not |
| Text.TrailingSpace | picture-frame/server.py:80 | the length of the longest whitespace suffix: every character in it is whitespace, and the one before it is not |
| Text.Strip | picture-frame/server.py:80 | the result is a slice of the input with only whitespace cut from either side, it has no whitespace at either end, and an input without such whitespace is returned unchanged |
| Text.StripEmptyIffBlank | picture-frame/server.py:80-81 | a string strips to empty exactly when every character is Python whitespace |
| Text.Words | picture-frame/main.py:120 | `split()` with no separator: every item is a non-empty run of non-whitespace |
| Text.WordsOfEmpty | picture-frame/main.py:120 | the empty string splits to no words |
| Text.WordsOfWord | picture-frame/main.py:120 | a non-empty run without whitespace splits to itself alone |
| Text.WordsSplitAt | picture-frame/main.py:120 | any whitespace character separates the words before it from those after it; with the two rows above this determines `split()` on every string |
| Text.WordsOfJoin | picture-frame/main.py:120 | splitting a space-joined list of words gives back the same words |
| Text.LexLess | picture-frame/main.py:146 | Python's `<` on `str`: a proper prefix is smaller, otherwise the first differing character decides |
| Text.LexLessIrreflexive | picture-frame/main.py:146 | no name is smaller than itself |
| Text.LexLessTransitive | picture-frame/main.py:146 | the order is transitive |
| Text.LexLessTotal | picture-frame/main.py:146 | of two different names one is smaller |
| Text.SortNames | picture-frame/main.py:145-146 | `sorted` of a set: a strictly increasing sequence holding exactly the set's names |
| Text.StrictlySortedUnique | picture-frame/main.py:175 | two strictly increasing sequences with the same names are equal, so the sorted play list is unique |
| ImageLoad.RotationFor | picture-frame/main.py:77-85 | orientation 3, 6, 8 rotate by 180, 270, 90 degrees; every other value and a missing or failed EXIF read give no rotation |
| ImageLoad.RotationUprights | picture-frame/main.py:77-82 | for the unmirrored EXIF orientations 1, 3, 6 and 8, the counter-clockwise `rotate` angle and the clockwise turn the tag asks for add up to whole turns, so the picture ends upright |
| ImageLoad.OrientedSize | picture-frame/main.py:77-83 | a quarter turn (orientation 6 or 8) swaps width and height; all else keeps the size |
| ImageLoad.AspectFit | picture-frame/main.py:87-95 | fails exactly when a side of the picture is zero (the division raises) |
| ImageLoad.AspectFitIsRatioFloor | picture-frame/main.py:92-93 | both scaled sides are `int(side * min(sw/iw, sh/ih))` in exact arithmetic |
| ImageLoad.AspectFitFits | picture-frame/main.py:92-93 | the scaled picture fits the screen, touches one screen side, and its other side is the largest whole size within the proportional length |
| ImageLoad.LoadImage | picture-frame/main.py:97-105 | loading fails exactly when decoding fails or a side is zero; a loaded picture fits the screen |
| Fade.Truncate | picture-frame/main.py:108 | `int()` of a float truncates toward zero |
| Fade.FadeStep | picture-frame/main.py:108 | the step is missing exactly when `duration * fps` is zero; otherwise it is `255 / (duration * fps)` truncated toward zero, for a positive and for a negative product |
| Fade.AlphaSchedule | picture-frame/main.py:108 | `range(0, 256, step)` raises exactly on a zero step and is empty for a negative step |
| Fade.AlphaScheduleShape | picture-frame/main.py:108 | for a positive step: `255 // step + 1` alphas, starting at 0, rising by `step`, strictly increasing, all in 0..255 |
| Fade.AlphaScheduleEnd | picture-frame/main.py:108 | the last alpha lies in (255 - step, 255], and equals 255 exactly when the step divides 255 |
| Fade.DefaultFade | picture-frame/main.py:107-108 | a one-second fade has step 8: 32 frames, the last at alpha 248 |
| Fade.LongFadeRaises | picture-frame/main.py:108 | a fade longer than 8.5 seconds gives step 0, for which `range` raises |
| Fade.NegativeFadeIsEmpty | picture-frame/main.py:108 | a duration of -1 gives step -8, for which the schedule is empty |
| Fade.FadeIn | picture-frame/main.py:107-116 | presents exactly the scheduled alphas and leaves the picture opaque; on a zero step it leaves the picture untouched |
| Caption.CaptionFor | picture-frame/main.py:194-195 | the stored description of the file name, or the name itself when there is none |
| Caption.StripJoin | picture-frame/main.py:123 | for a trimmed line and a word, the stripped `"{line} {word}"` is the word alone when the line is empty, and otherwise the line, one space and the word |
| Caption.FirstWordKept | picture-frame/main.py:123 | appending a word to a non-empty line does not change that line's first word |
| Caption.WrapLines | picture-frame/main.py:118-129 | at least one line; only the first may be empty, and it is empty exactly when there are no words or the first word is too wide; every line fits or is a single word; every break was forced, because the next word did not fit; every word-boundary prefix of a line holding a space fits, so each line grew only by words that fitted; the lines rejoin to the caption's words in order |
| Caption.LineTop | picture-frame/main.py:131-141 | the line slots below line `i` end exactly 20 pixels above the bottom of the screen |
| Caption.LayoutLines | picture-frame/main.py:131-141 | one blit per line; line `i`'s backing box is at x = 10 and y = LineTop, sized text + (20, 10); its text is at (20, y + 5) |
| Caption.DrawCaption | picture-frame/main.py:118-141 | the drawn lines are the wrap of the caption against `screen_width - 40`, with every property `WrapLines` states, and each line is placed as `LayoutLines` states |
| LoadCache.Find | picture-frame/main.py:97 | the index of the key's entry, or -1 exactly when the key is not cached |
| LoadCache.Access | picture-frame/main.py:97-98 | a hit returns the cached value; a miss returns the loaded one; either way the key becomes the most recently used entry |
| LoadCache.AccessWellFormed | picture-frame/main.py:97 | the cache stays within two entries, one per key |
| LoadCache.AccessHitKeeps | picture-frame/main.py:97 | a hit keeps the same entries: nothing is loaded and nothing is evicted |
| LoadCache.AccessMissEvicts | picture-frame/main.py:97 | a miss adds the loaded entry and evicts exactly the least recently used entry when the cache is full |
| LoadCache.AccessSubset | picture-frame/main.py:97 | after a call the cache holds only earlier entries and the one just used |
| LoadCache.AccessAgain | picture-frame/main.py:97-105 | a second call with the same path returns the first result whatever decoding would yield now; a failed load stays failed while cached |
| LoadCache.LastTwoCached | picture-frame/main.py:97 | the two most recently used distinct paths are both cached |
| LoadCache.AlternationScenario | picture-frame/main.py:97 | loading A, B, A, C leaves A and C cached and B evicted |
| LoadCache.AccessSurfaces | picture-frame/main.py:97 | the cache never comes to hold a surface other than those it held and the one returned |
| LoadCache.Cache.Get | picture-frame/main.py:97-105 | the new entries and the result are those of `Access`; a hit returns the cached surface; a miss makes a fresh opaque surface of the fitted size exactly when loading succeeds |
| Playback.HandleBatch | picture-frame/main.py:201-206 | `running` survives a batch exactly when it was set and the batch has no quit or Escape event |
| Playback.HandleHold | picture-frame/main.py:199-207 | `running` survives the hold exactly when no polled batch has a stop event |
| Playback.EventsAfterStopIgnored | picture-frame/main.py:202-204 | the events after a stop event in the same batch are not read |
| Playback.LastResizeWins | picture-frame/main.py:205-206 | the screen size after a batch is the last resize before any stop event |
| Playback.NoResizeKeepsSize | picture-frame/main.py:205-206 | a batch without resizes keeps the screen size |
| Playback.StrictlySortedDistinct | picture-frame/main.py:175 | a sorted play list holds no name twice |
| Playback.Advance | picture-frame/main.py:190 | `(idx + 1) % n` stays in range, steps by one and wraps from the last picture to the first |
| Playback.AdvanceTimesIs | picture-frame/main.py:209 | `k` advances from position `i` land on `(i + k) % n` |
| Playback.FullRound | picture-frame/main.py:209 | `n` advances return to the starting picture |
| Playback.EveryPictureComesRound | picture-frame/main.py:209 | every picture is reached from any position within fewer than `n` advances |
| Playback.Picked | picture-frame/main.py:178-187 | the index used at line 187 is in range, and it is the old index when that is still in range |
| Playback.ReconciledUnique | picture-frame/main.py:175 | without shuffling, a changed scan determines the play list |
| Playback.ReconciledLength | picture-frame/main.py:168-175 | the reconciled play list holds each scanned name exactly once |
| Playback.Player.constructor | picture-frame/main.py:148-155 | the first play list is the scan, sorted or in the shuffled order; `idx = 0`; `running` is set |
| Playback.Player.Hold | picture-frame/main.py:199-207 | the running flag and screen size afterwards are those of `HandleHold`; the play list and index are untouched |
| Playback.Player.Reconcile | picture-frame/main.py:167-179 | the caption table is reread; the play list is unchanged when the name set is, and otherwise is the scan sorted or shuffled; the index is reset to 0 only when past the end |
| Playback.Player.Present | picture-frame/main.py:193-209 | a zero step aborts and stops the loop; otherwise the alphas are the schedule, the caption is the table's and is drawn as `DrawCaption` states for the screen size before the hold, the hold runs, and the index advances even when a stop event arrived |
| Playback.Player.ShowCurrent | picture-frame/main.py:186-209 | the picture at `idx` goes through the cache, where a miss loads it fitted to the window size; a failed load skips to the next index and keeps the screen size; a loaded one is presented, with its caption drawn as `DrawCaption` states; every other cached surface is left as it was, and the returned one keeps its alpha or has it cleared |
| Playback.Player.Step | picture-frame/main.py:158-209 | an empty scan changes nothing; otherwise the play list is reconciled and the picked picture is handled as `ShowCurrent` states; in both cases the cached surfaces other than the returned one are left as they were, and the returned one keeps its alpha or has it cleared |
| Playback.Player.Run | picture-frame/main.py:158 | the loop takes at most one round per input round; `running` was set after every round but the last, the loop ends only when the rounds run out or `running` is cleared, nothing runs when `running` starts cleared, and only the last round can have aborted; no cached surface ends with an alpha other than its old one or cleared |
| Server.Server.constructor | picture-frame/server.py:16-40 | the server starts with the configured `MAX_IMAGES`, the folders on disk, and the caption table read from the file, which is also what is saved |
| Server.Admitted | picture-frame/server.py:93-95 | an upload is admitted exactly when the folder is not full and the new files fit the limit |
| Server.Precedence | picture-frame/server.py:104-117 | a strict EXIF parse wins, then a lenient one, then the client's milliseconds / 1000, else no time |
| Server.SelectTimestamp | picture-frame/server.py:104-117 | the step-by-step assignments to `ts` give the precedence result |
| Server.SaveFile | picture-frame/server.py:100-120 | the saved name is in the folder; both times are the chosen time when there is one, and no stamped time remains otherwise; other files keep their times |
| Server.UploadFrom | picture-frame/server.py:96-126 | only uploaded names are added; a complete upload adds every non-empty name to both folders; a failed one names an uploaded picture that was saved |
| Server.FirstFailure | picture-frame/server.py:96-122 | the index of the first named entry PIL cannot open, or the number of entries when there is none: every entry before it opens or is empty, and the entry at it fails |
| Server.AfterEntry | picture-frame/server.py:97-125 | a named entry that opens adds its name to both folders and stamps its file with its time, or leaves it with no stamp; every other name keeps its time |
| Server.UploadFromReports | picture-frame/server.py:96-126 | an upload reports the name of the first entry that fails, and reports nothing exactly when no entry fails |
| Server.UploadFromSaves | picture-frame/server.py:96-101 | the pictures saved are the names of the entries up to and including the first that fails; later entries are never read |
| Server.UploadFromThumbs | picture-frame/server.py:96-125 | thumbnails are made for the entries before the first that fails, and not for it or the later ones |
| Server.UploadFromTimes | picture-frame/server.py:100-120 | each saved name carries the time that the last entry saving it chose by `Precedence`, or no stamp when that entry had none; every name not saved keeps its time |
| Server.EmptyEntriesSkipped | picture-frame/server.py:96-97 | an empty upload entry has no effect: dropping it gives the same result |
| Server.UploadBound | picture-frame/server.py:93-95 | an admitted upload leaves at most `MAX_IMAGES` pictures |
| Server.Deleted | picture-frame/server.py:70 | the key is gone, other keys are untouched, and a missing key changes nothing |
| Server.Renamed | picture-frame/server.py:80-82 | a name that strips to nothing leaves the table alone; otherwise the stripped name is stored; other keys are untouched |
| Server.RenameBlankIsNoop | picture-frame/server.py:80-81 | a whitespace-only name leaves the table unchanged |
| Server.RenameIdempotent | picture-frame/server.py:80-82 | renaming again to the stored name changes nothing |
| Server.CaptionAfterEdit | picture-frame/server.py:70-82 | in the edited table, the caption that `CaptionFor` looks up is the new name after a rename that is not blank, and the file name after a delete |
| Server.Server.Upload | picture-frame/server.py:87-126 | a refused upload changes nothing; an admitted one changes the folders as `UploadFrom` says and stays within the limit; the caption table is untouched |
| Server.Server.Delete | picture-frame/server.py:64-74 | a missing picture changes nothing; a missing thumbnail leaves the table and the file as they were; only when both removals succeed is the key dropped and the table saved |
| Server.Server.Rename | picture-frame/server.py:77-84 | the table becomes `Renamed` of it and the form's name, and it is saved only when the name is not blank |
| Thumbnails.Visible | helpers.py:8 | exactly the listed names that do not start with '.' |
| Thumbnails.VisibleAppend | helpers.py:8 | the filter keeps listing order |
| Thumbnails.VisibleDistinct | helpers.py:8 | filtering a listing without duplicates gives one without duplicates |
| Thumbnails.Needs | helpers.py:12 | a name needs a thumbnail when its original exists and no thumbnail of that name does |
| Thumbnails.Pass | helpers.py:9-16 | the loop over the names as a function: the thumbnails written in order, and whether the pass ran to the end |
| Thumbnails.PassWrites | helpers.py:9-16 | only names whose original exists, that had no thumbnail and that opened are written, each once; the pass completes exactly when every name that needs a thumbnail opens, and then all of them are written |
| Thumbnails.GenerateThumbnails | helpers.py:5-16 | writes what `Pass` over the visible names says, and the thumbnail folder gains exactly the written names |
| Thumbnails.NoHiddenWritten | helpers.py:8 | the helper writes only listed names, and never one that starts with '.' |
| Thumbnails.SecondPassWritesNothing | helpers.py:12 | a second pass after a complete one writes nothing |
| Thumbnails.NothingNeeded | helpers.py:12 | when no listed name needs a thumbnail, nothing is written and the pass completes |
| Thumbnails.NeededIn | helpers.py:12 | the names that need a thumbnail beforehand, in listing order |
| Thumbnails.PassInOrder | helpers.py:9-16 | a complete pass over distinct names writes exactly the needed names, in listing order |
| Thumbnails.CompleteRun | helpers.py:8-16 | a complete run writes the visible needed names in listing order |

## Left out

- Rendering and timing: pygame display set-up, `fill`, `blit`, `flip`, `clock.tick`, `time.sleep` and the wall clock. The hold is a given sequence of event batches, and a frame of the fade is recorded by its alpha.
- PIL, pygame and exifread internals: decoding, `rotate`, `smoothscale`, `thumbnail`, `exif_transpose` and tag reading. They appear only through their results, and the blend of an alpha frame is not modelled.
- Flask routes, templates, `redirect`, the `index` page with its mtime sort and date strings, `get_image`, and the Flask thread. The web server and the slideshow share the folders concurrently; the model treats each request and each round as atomic.
- YAML configuration and JSON caption-file I/O: the caption table is a parameter, and `load_img_descr` returning `{}` on error is the caller's choice of that parameter. `save_img_descr` is a success flag.
- `random.shuffle`: any arrangement of the scanned names is accepted as its result.
- The `LOOP` setting, `image_count` and the log `print`s, which the code never uses for control.
- ImageLoad.AspectFit: it computes in exact arithmetic. The source divides IEEE doubles, which can be one pixel short when the exact product is a whole number.
- Fade.FadeStep: it computes `255 / (duration * fps)` in exact arithmetic rather than IEEE doubles.
- Server.Precedence: `int(ms) / 1000` is float division in the source, and it is exact division over the reals in the model. A large millisecond count can round differently in IEEE doubles.
- Server.Precedence: a parser that raises anything other than `ValueError` or `TypeError` is not modelled. Such an error would end the request.
- Server.UploadFrom: only a file PIL cannot open ends an upload early. Save, EXIF-read and `utime` failures are not modelled, nor a client timestamp that `int()` rejects. The time zone of `.timestamp()` is the parsers' concern.
- Server.CaptionAfterEdit: it is a fact about the server's table only. The frame reads the fixed file `img_descr.json`, while the server writes its configured `IMG_DESCR_FILE`. The two agree only with the default setting, and a failed save never reaches the frame.
- Server.Server.Upload: `json.loads` of the `timestamps` form field runs before the limit test and raises on malformed text, which fails the request with nothing saved. The model takes the client times as an already parsed map.
- Server.Server.Upload: `secure_filename` is imported but never called. The client's file name is joined to the image folder as it stands, so a name holding a separator or `..`, or an absolute name, is saved outside the folder. The model treats names as atoms inside the folder, so it does not show this.
- Server.Server.Delete: `os.remove` failures other than a missing file are not modelled, and neither is a `filename` naming a path outside the folders.
- Thumbnails.GenerateThumbnails: `os.makedirs` is not modelled. A directory named like a listed file counts as an existing thumbnail.
- Playback.Player.Run: the value of `running` after each round is returned as the ghost output `flags`, which the compiled loop does not need. The contract does not repeat, for each cycle, what `Step` states about that round.
- Playback.Player.Step: a failed load is identified by `None` from the cache; the exception message `load_image` prints is not modelled.
