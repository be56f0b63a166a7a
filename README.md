# auraframe in Dafny

auraframe is a Raspberry Pi picture frame that listens to the room, recognises
the music playing and shows the album artwork. While nothing plays, it shows a
slideshow. This project models the core of that program and proves properties
of it:

- **Canonical release selection** (`auraframe/canonical.py`):
  - text normalisation and the cache key;
  - building candidates, the suspicious-token and allow-list tables;
  - the allow-list album override, the score, and the choice of the best release;
  - the on-disk release cache with its time-to-live;
  - the resolver that combines the cache and the scoring.
- **One cycle of the recognizer thread** (`auraframe/recognizer.py`):
  - the release session (one accepted result per track, plus at most one upgrade inside a window);
  - the display write on a match, the idle/slideshow transition when nothing matches or the recognizer fails;
  - the sleep slices.
- **The shared state** (`auraframe/state.py`), as a class whose fields the recognizer and the display loop update.
- **The recognition-result parser** (`auraframe/audio.py`, `extract_track_info`).
- **The pure layout helpers of the display** (`auraframe/imaging.py`):
  - picking the next slide;
  - the binary-search ellipsis;
  - greedy word wrapping;
  - splitting a trailing parenthetical off a title.
- **The display loop's state machine** (`auraframe/app.py`): the listening toggle, when the now-playing panel is re-rendered, slide advance, and dropping the crossfade frame on a mode change.
- **The older single-file program `auraframe.py`**: its parser, its image picker, its recognizer cycle and its toggle, side by side with the package version, with lemmas that show where the two agree and where they differ.

Modules:

| module | file |
|---|---|
| `Optional`, `Text`, `PyJson` | Option type; Python string helpers; a Python-value model |
| `State` | `state.py` |
| `Canonical`, `CanonicalChoice`, `CanonicalDemo` | `canonical.py` |
| `ReleaseCache` | `canonical.py` |
| `Recognizer`, `Audio`, `Imaging`, `App` | `recognizer.py`, `audio.py`, `imaging.py`, `app.py` |
| `Legacy` | `auraframe.py` |

How inputs are modelled:

- Everything the program obtains from outside becomes a parameter. This includes:
  - the clock (`now`);
  - the result of Shazam recognition (an `Outcome`);
  - whether an artwork download or a render succeeded;
  - whether a file exists;
  - the text width measured by the font (an arbitrary function `string -> real`).
- Classes hold the fields the source mutates. Each class has a `View()` function, and each method is proved to move `View()` exactly as a pure transition function says.
- The lemmas state the program's promises about those transition functions.

## Model

| member | source | states |
|---|---|---|
| Canonical.NormalizeText | auraframe/canonical.py:53-56 | the result is normalised: only `[a-z0-9]` runs separated by single spaces, no leading or trailing space; empty input gives "" |
| Canonical.CollapseRunsShape | auraframe/canonical.py:56 | replacing every run of non-`[a-z0-9]` characters by one space leaves only key characters and single spaces |
| Canonical.StripKeepsShape | auraframe/canonical.py:56 | stripping such a collapsed string yields a normalised string |
| Canonical.NormalizeFixesNormalized | auraframe/canonical.py:53-56 | a normalised string is a fixed point of normalisation |
| Canonical.NormalizeIdempotent | auraframe/canonical.py:53-56 | normalising twice is the same as normalising once |
| Canonical.MakeKey | auraframe/canonical.py:219-221 | the key's length is the two normalised lengths plus the two-character separator |
| Canonical.MakeKeyInjective | auraframe/canonical.py:219-221 | equal keys come from equal normalised artists and equal normalised titles, and conversely |
| Canonical.BuildCandidate | auraframe/canonical.py:59-74 | the provider is kept and every missing field becomes "" |
| Canonical.SuspiciousTokens | auraframe/canonical.py:101-103 | a token is reported exactly when it is in the table and occurs in the normalised album |
| Canonical.AllowlistBonus | auraframe/canonical.py:86-98 | the bonus is 120 exactly when some allow-list entry names the preferred artist and title and has the album's normalisation; otherwise it is 0 |
| Canonical.ApplyAllowlistOverride | auraframe/canonical.py:110-135 | only the album can change; it changes exactly when the preferred artist and title are non-empty and some entry applies, and then it becomes that entry's album |
| Canonical.LengthTerm | auraframe/canonical.py:162-164 | the length term lies in [-4, 4] |
| Canonical.ScoreUpperBound | auraframe/canonical.py:138-179 | no score exceeds 154, and none exceeds 124 for an empty album |
| Canonical.OverlappingTokensBothCount | auraframe/canonical.py:15-37 | an album containing "music presents" is penalised for both "presents" and "music presents", so its album penalty is at most -80 |
| CanonicalChoice.Truthy | auraframe/canonical.py:187-189 | the kept candidates are exactly the present ones |
| CanonicalChoice.Rewritten | auraframe/canonical.py:191-195 | rewriting keeps the candidate count |
| CanonicalChoice.ChooseBestRelease | auraframe/canonical.py:182-207 | the result is the first candidate of maximal score among the rewritten candidates, with its score; with no present candidate, no release and score 0 |
| CanonicalChoice.FirstMaximum | auraframe/canonical.py:199-206 | the index returned holds a maximal score, and every earlier index scores strictly less |
| CanonicalChoice.BestChoiceUnique | auraframe/canonical.py:182-207 | the choice is determined: two best choices for the same input are equal |
| CanonicalChoice.FirstMaxUnique | auraframe/canonical.py:199-206 | the first maximum is unique |
| CanonicalDemo.Demo | auraframe/canonical.py:290-303 | the worked example chooses the plain "Kind of Blue" release |
| CanonicalDemo.DemoChoosesKindOfBlue | auraframe/canonical.py:290-303 | every best choice for the example's two releases is the plain release |
| CanonicalDemo.DemoRewrittenScore | auraframe/canonical.py:290-303 | the example's winner scores 152.2 |
| CanonicalDemo.AlternateScore | auraframe/canonical.py:138-179 | the plain release scores 2.2 + 20 + 10 + 120 against the compilation |
| CanonicalDemo.ChoiceAmongEqual | auraframe/canonical.py:182-207 | when all rewritten candidates are one release, that release is the choice |
| ReleaseCache.Load | auraframe/canonical.py:223-236 | a missing, unparsable or non-object file loads as version 1 with no entries; otherwise the version defaults to 1 and a non-dict "entries" becomes empty |
| ReleaseCache.LookUp | auraframe/canonical.py:244-255 | a served candidate is the one stored under the key |
| ReleaseCache.AfterGet | auraframe/canonical.py:244-255 | a lookup changes no entry other than its own key |
| ReleaseCache.Put | auraframe/canonical.py:257-263 | the key maps to the new timestamped entry, and every other entry is unchanged |
| ReleaseCache.CanonicalReleaseCache.constructor | auraframe/canonical.py:210-217 | the cache starts from the loaded document |
| ReleaseCache.CanonicalReleaseCache.Get | auraframe/canonical.py:244-255 | returns the lookup, evicts a stale entry, and saves only when the entries changed |
| ReleaseCache.CanonicalReleaseCache.Set | auraframe/canonical.py:257-263 | overwrites only the entry under the normalised key with the candidate and the time, keeps the version, and saves the document |
| ReleaseCache.FreshAtBoundary | auraframe/canonical.py:250 | an entry exactly `ttl` seconds old is still served and is not evicted |
| ReleaseCache.StaleEvicted | auraframe/canonical.py:250-253 | an older entry is not served and is removed |
| ReleaseCache.GetChangesOnlyOnStale | auraframe/canonical.py:244-255 | a lookup changes the entries only by evicting a stale entry, and never when it serves |
| ReleaseCache.SetThenGet | auraframe/canonical.py:244-263 | with a non-negative ttl, a lookup right after a write returns what was written and evicts nothing |
| ReleaseCache.NegativeTtlNeverServes | auraframe/canonical.py:250 | with a negative ttl, even a fresh write is never served |
| ReleaseCache.ResolveCandidates | auraframe/canonical.py:280-282 | the candidates are the primary followed by the present alternates |
| ReleaseCache.ResolveCanonicalRelease | auraframe/canonical.py:266-287 | serves a cached candidate that has no suspicious token, at its score plus the cache bonus; otherwise returns the best choice and caches it unless its album is suspicious; without a cache or with an empty artist and title, the cache is untouched. The version never changes. A served hit saves nothing. A written choice is saved with the new entries; otherwise only a stale eviction is saved |
| ReleaseCache.ResolveChoosesSomething | auraframe/canonical.py:280-284 | the scoring path always returns a release |
| ReleaseCache.WrittenChoiceIsServed | auraframe/canonical.py:276-286 | a choice the resolver writes is served by the next resolution at the same instant |
| Recognizer.Rekey | auraframe/recognizer.py:74-82 | a new key opens a fresh session (no score, stamped now, upgrade unused); the same key keeps the session |
| Recognizer.Decide | auraframe/recognizer.py:84-107 | an accepted result becomes the session's score, stamped now |
| Recognizer.NewKeyAccepted | auraframe/recognizer.py:78-84 | a result under a new key is always accepted |
| Recognizer.UpgradeRule | auraframe/recognizer.py:84-94 | under the same scored key, a result is accepted exactly when it scores strictly higher, is within the upgrade window and the upgrade is unused; acceptance uses the upgrade, and rejection changes nothing |
| Recognizer.AtMostOneUpgrade | auraframe/recognizer.py:84-94 | over any run of results for one key there is at most one upgrade, and none once the upgrade is used |
| Recognizer.AfterMatch | auraframe/recognizer.py:123-150 | every match stamps the match time; when content or mode changed, the shown fields are written, the mode becomes now-playing and the update time is stamped; otherwise nothing else changes |
| Recognizer.RejectedKeepsDisplay | auraframe/recognizer.py:113-150 | a rejected result keeps every displayed field and the cover path |
| Recognizer.CoverPathNeedsDownload | auraframe/recognizer.py:120-146 | the cover path changes only on a match with a new non-empty cover URL whose download succeeded |
| Recognizer.MatchStamps | auraframe/recognizer.py:139-150 | after a match, the mode is now-playing, the match time is now, and the update time is either now or unchanged |
| Recognizer.AfterIdle | auraframe/recognizer.py:152-172 | the idle transition as a pure function of the state, the time and the limits |
| Recognizer.IdleSettles | auraframe/recognizer.py:152-172 | applying the idle transition twice at the same instant changes nothing more |
| Recognizer.SlideshowPersists | auraframe/recognizer.py:157-164 | once idle cycles reach the slideshow, later idle cycles stay there without restamping |
| Recognizer.IdleLimitChoice | auraframe/recognizer.py:155-172 | the slideshow starts exactly when the stale-track limit (track known) or the idle limit (nothing known) has elapsed; the mode is listening exactly when nothing is known, not now-playing, and within the idle limit |
| Recognizer.NoMatchLikeFailure | auraframe/recognizer.py:152-194 | the no-match path and the exception path are the same transition |
| Recognizer.DisabledCycleIdle | auraframe/recognizer.py:41-49 | with listening disabled, a cycle changes neither the state nor the session |
| Recognizer.InitialDisplayInv | auraframe/state.py:8-18 | a fresh state with an empty session shows no now-playing screen and has no scored session |
| Recognizer.CycleKeepsDisplayInv | auraframe/recognizer.py:57-194 | every cycle keeps the display invariant: "nowplaying" is shown only for a track with a title or an artist, and a scored session always has such a track on display, given that a recognised track has a title or an artist (auraframe/audio.py:108-109) |
| Recognizer.RecognizerThread.constructor | auraframe/recognizer.py:21-30 | the session starts empty and no stop is requested |
| Recognizer.RecognizerThread.Stop | auraframe/recognizer.py:38-39 | sets the stop flag and nothing else |
| Recognizer.RecognizerThread.Cycle | auraframe/recognizer.py:41-194 | one iteration moves the state and the session as the cycle transition says |
| Recognizer.RecognizerThread.SleepSlices | auraframe/recognizer.py:196-201 | with the stop flag already set, sleeps no slice; otherwise sleeps the computed number of slices, or stops at the slice where another thread's stop becomes visible and leaves the flag set |
| Recognizer.SliceCount | auraframe/recognizer.py:196-198 | there are always at least ten slices (one second) |
| State.AppState.constructor | auraframe/state.py:6-19 | listening is enabled, the mode is listening, the fields are empty and the timestamps are zero |
| Audio.ExtractTrackInfo | auraframe/audio.py:60-110 | the imperative parser returns exactly what the extraction function describes |
| Audio.ScanMetadata | auraframe/audio.py:83-99 | the section loop with its break computes the recursive scan |
| Audio.NonDictGivesNoTrack | auraframe/audio.py:65-69 | a non-dict result or track gives no track |
| Audio.TrackFields | auraframe/audio.py:71-80 | title and artist default to "", and the cover is the first truthy of coverarthq, coverart and background |
| Audio.CoverOf | auraframe/audio.py:75-80 | the cover URL fallback order |
| Audio.BadImagesRaise | auraframe/audio.py:74-76 | a truthy non-dict "images" raises |
| Audio.TitleKey | auraframe/audio.py:93 | a falsy title gives ""; a truthy non-string title raises |
| Audio.ItemsKeepTruthy | auraframe/audio.py:90-97 | once album or year is truthy, later items do not replace it |
| Audio.SectionsKeepTruthy | auraframe/audio.py:86-99 | the same holds across sections |
| Audio.FirstAlbumItemWins | auraframe/audio.py:90-95 | the album is the text of the first "album" item whose text is truthy |
| Audio.YearFallsBackToReleaseDate | auraframe/audio.py:101-106 | without a scanned year, the year comes from "release_date" |
| Audio.FindYearFrom | auraframe/audio.py:105 | finds the first position of a 19xx/20xx year |
| Audio.NormalizeYear | auraframe/audio.py:104-106 | the result is a string or None; with no year in it, the stripped string, or None when blank |
| Audio.NormalizedYearIsFirstMatch | auraframe/audio.py:104-106 | with a year in the string, the normalised year is its first occurrence |
| Imaging.Others | auraframe/imaging.py:50 | the choices are exactly the images other than the last one |
| Imaging.PickRandomImage | auraframe/imaging.py:45-51 | none for no images; the only image when there is one; otherwise an image other than the last when one exists, else the first; the older picker at auraframe.py:186-192 is the same function |
| Imaging.EllipsizeSpec | auraframe/imaging.py:83-99 | "" for ""; the text when it fits; otherwise the ellipsis or a fitting prefix followed by the ellipsis |
| Imaging.Ellipsize | auraframe/imaging.py:83-99 | the binary search loop returns exactly the ellipsis specification |
| Imaging.SearchShape | auraframe/imaging.py:89-98 | the search over prefix lengths returns either its starting best (-1 for the bare ellipsis) or a length in range that passed the fit test |
| Imaging.LastFitting | auraframe/imaging.py:89-98 | the longest fitting prefix length below a bound, with nothing longer fitting |
| Imaging.SearchFindsLongest | auraframe/imaging.py:89-98 | when the lengths that pass the fit test are exactly those up to `k`, the binary search ends on `k` |
| Imaging.EllipsizeLongest | auraframe/imaging.py:83-99 | for a width that grows with the prefix, the ellipsised text uses the longest prefix that fits, or is the bare ellipsis |
| Imaging.FillLine | auraframe/imaging.py:151-158 | takes a non-empty run of tokens greedily; the next token would overflow |
| Imaging.GroupTokens | auraframe/imaging.py:148-159 | the lines are a greedy grouping of a prefix of the tokens, at most max-lines of them, stopping only when full |
| Imaging.WrapTokens | auraframe/imaging.py:139-169 | the result is the greedy grouping, with the overflow ellipsised into the last line and every line fitted |
| Imaging.CleanLines | auraframe/imaging.py:163-168 | each line is kept when it fits, else ellipsised |
| Imaging.WrapLinesFit | auraframe/imaging.py:139-169 | every wrapped line fits, or is the bare ellipsis, or is empty |
| Imaging.WrapOfNothing | auraframe/imaging.py:146-147 | no tokens give no lines |
| Imaging.WrapPlacesAllWhenRoom | auraframe/imaging.py:150-160 | with as many lines as tokens, every token is placed |
| Imaging.WrapTextLines | auraframe/imaging.py:102-136 | wraps the words of the text; blank text gives no lines |
| Imaging.SplitParentheticalShape | auraframe/imaging.py:172-179 | a split-off parenthetical starts with "(" and ends with ")"; with none, the main part is the title |
| Imaging.SplitParentheticalWhen | auraframe/imaging.py:172-179 | a parenthetical is split off exactly when the title ends with ")" and contains " (" after position 0 |
| Imaging.WrapTitleLines | auraframe/imaging.py:182-195 | wraps the main words plus the whole parenthetical as one token, or the plain words when there is none |
| App.Toggle | auraframe/app.py:97-106 | the state moves as the toggle transition says |
| App.ToggleTwice | auraframe/app.py:97-106 | toggling twice restores the flag, leaves the track fields alone and lands in listening or slideshow |
| App.ToggleOffFreezes | auraframe/app.py:97-106 | after switching listening off, recognizer cycles change nothing |
| App.ToggleOnRestartsIdleTimer | auraframe/app.py:103-106 | after switching listening on, the idle timer restarts at the next cycle |
| App.ToggleKeepsDisplayInv | auraframe/app.py:97-106 | a tap keeps the display invariant |
| App.RenderOnce | auraframe/app.py:118-129 | a successful render is not repeated for the same update |
| App.FailedRenderRetries | auraframe/app.py:130-132 | a failed render changes nothing and is retried |
| App.RenderOnlyWhenPlaying | auraframe/app.py:119 | nothing is rendered outside now-playing, before the first update, or without a cover file |
| App.ModeChangeDropsFrame | auraframe/app.py:172-176 | changing to a mode other than now-playing drops the crossfade frame |
| App.FrameKeepsNoStaleFrame | auraframe/app.py:118-176 | an iteration keeps the invariant that a kept frame belongs to now-playing |
| App.AdvancesSpaced | auraframe/app.py:139-151 | slide advances over a run of frames are at least the slideshow interval apart |
| App.DisplayLoop.constructor | auraframe/app.py:60-73 | starts with nothing rendered, no frame, no slide and no mode |
| App.DisplayLoop.RenderNowPlaying | auraframe/app.py:118-132 | renders as specified, and crossfades exactly when a render succeeds over an existing frame |
| App.DisplayLoop.AdvanceSlide | auraframe/app.py:134-151 | advances only in the slideshow once the timer is due. The current slide becomes the picked slide when that slide is non-empty, on disk and loads, and "" otherwise. The pick is from the list and differs from the previous slide whenever another exists. The timer is rearmed |
| App.DisplayLoop.NoteMode | auraframe/app.py:172-176 | records the mode and drops the frame as specified |
| App.DisplayLoop.Frame | auraframe/app.py:118-176 | one loop iteration keeps the no-stale-frame invariant. The held frame is the render step's frame, dropped on a change to a mode other than now-playing. The slide changes only when the slideshow is due, and then to "" or to one of the slides |
| Legacy.ExtractTrackInfo | auraframe.py:124-162 | the imperative parser returns exactly what the legacy extraction function describes |
| Legacy.ScanSectionsForAlbum | auraframe.py:147-158 | the loops with their two breaks compute the recursive album scan |
| Legacy.ParsersAgreeOnFields | auraframe.py:124-162 | the two parsers agree on "no track" for non-dict input, and on title, artist and cover |
| Legacy.SectionAlbumFirst | auraframe.py:153-156 | a section yields the text of its first "album" item, passing over non-dict items and items titled anything else |
| Legacy.AlbumScansDiffer | auraframe.py:153-156 | unlike the package parser, the legacy parser keeps a first "album" item with empty text |
| Legacy.ToLegacy | auraframe.py:420-432 | the projection of the package state onto the legacy state keeps the flag, mode and both timestamps |
| Legacy.LegacyAppState.constructor | auraframe.py:420-432 | the legacy state starts as the projection of the package's initial state |
| Legacy.LegacyRecognizer.constructor | auraframe.py:439-443 | no stop is requested |
| Legacy.LegacyRecognizer.Cycle | auraframe.py:448-507 | one iteration moves the state as the legacy cycle transition says |
| Legacy.CoverPathFixed | auraframe.py:476-482 | the cover path stays the fixed cover file |
| Legacy.LegacyLeavesNowPlaying | auraframe.py:488-507 | unlike the package, the legacy cycle leaves now-playing on the first miss, while the package keeps it |
| Legacy.FailureIgnoresTimer | auraframe.py:488-507 | a legacy failure drops to listening even after the idle limit, where a miss goes to the slideshow |
| Legacy.RepeatMatchRestamps | auraframe.py:476-486 | a legacy repeated match restamps the update time, while the package does not |
| Legacy.Toggle | auraframe.py:593-602 | the legacy state moves as the legacy toggle says |
| Legacy.TogglesAgree | auraframe.py:593-602 | the two toggles agree on the common fields |

## Left out

- Lowercasing is ASCII-only, and `\s` is the ASCII and Unicode space set of the `Text` module. Non-ASCII case folding is not modelled.
- `\d` in the year pattern is read as an ASCII digit.
- Canonical.Score: scores are exact reals. Python sums them as 64-bit floats, in the order of `auraframe/canonical.py:144-179`, and the model does not round. Two scores that differ only by rounding compare equal here.
- CanonicalChoice.ChooseBestRelease: because scores are exact reals, a near-tie can be broken differently from the float comparison at `auraframe/canonical.py:201`. For example, a candidate with album "a", an artist other than the preferred one and an official provider scores 3.85 exactly in the model but 3.8499999999999996 in Python. A later candidate with album "b", no artist and no provider scores 3.85, so Python picks the later one and the model keeps the first.
- ReleaseCache.Load: every stored entry is either falsy or a dict with a numeric (or missing) timestamp and a release or nothing as its candidate. `_load` never inspects the entries, so a file can hold other shapes, and those are not modelled.
- ReleaseCache.CanonicalReleaseCache.Get: the raises for a truthy non-dict entry (`entry.get`, `auraframe/canonical.py:249`) and for a non-numeric timestamp (line 250) are not modelled, because such entries cannot be represented.
- ReleaseCache.ResolveCanonicalRelease: the raise for a cached candidate that is truthy but not a dict (`cached.get`, `auraframe/canonical.py:276`) is not modelled, for the same reason.
- File reading, JSON parsing and `_save` failures are left out. The cache file is reduced to the cases `_load` distinguishes, and a save is recorded as the document written.
- Recognizer.SliceCount: clock readings, durations and the slice count are computed on exact reals. Python computes `int(sleep_for * 10)` on a rounded float product (`auraframe/recognizer.py:197-198`), so its count can be one higher than the model's. For example, the double nearest 4.3 times 10 rounds to 43.0, while the exact product floors to 42. The same holds for every timestamp comparison, which is exact here. The bound of at least ten slices holds either way.
- Threads, the shared lock, `time.sleep` and the daemon flag are left out. A cycle is one atomic transition. In `SleepSlices`, the slice before which another thread's `stop` becomes visible is a parameter.
- The microphone, Shazam and the artwork download are left out. Their results are the cycle's inputs.
- PIL and pygame rendering, the crossfade, fonts and the overlay UI are left out. Text width is an arbitrary function, and render success is an input.
- ReleaseCache.ResolveCanonicalRelease: one clock reading serves both the lookup and the write.
- Recognizer.RecognizerThread.Cycle: the exception path re-reads the clock (`auraframe/recognizer.py:176`). The model uses the cycle's `now` there.
- `_alternate_candidates` always returns []. The resolver takes the alternates as a parameter.
- The configuration constants are parameters (`Config`), except the cache bonus and the slideshow interval, which are fixed.
- Recognised fields are strings. Non-string titles or albums coming back from the recogniser are reduced to strings in the recognizer and legacy cycles.
- CanonicalDemo.Demo: the printed score is not stated by `Demo` itself; `DemoRewrittenScore` states it.
- A release dictionary is either absent (`None`) or a full record. A present but empty dictionary (`{}`) is treated as absent, and missing keys read as "".
- The slide list refresh (`int(now) % 15`) and the file system are inputs.
- Legacy.LegacyRecognizer.Cycle: the failure path's clock reading is a separate parameter. The legacy sleep slicing is the same computation as `Recognizer.RecognizerThread.SleepSlices` and is not repeated.
- `COVER_PATH` is a fixed string constant.
