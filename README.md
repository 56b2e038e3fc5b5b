# music-player: the playback session controller in Dafny

This project models the core of `music-player`, a small desktop audio player
whose whole logic sits in `src/main.rs`:

- **The playback session controller** (`playback.dfy`). `MyEguiApp` is the
  class `Playback.Player`. It holds:
  - the audio sink;
  - the playing flag;
  - the per-file metadata (total duration, bitrate, container name);
  - the opened path;
  - the allow-list of extensions;
  - the error message on screen.

  The audio library's sink is the class `Playback.Sink`. Its state is abstract:
  - stopped or not;
  - paused or not;
  - the number of sources appended;
  - an opaque position.

  Each state-changing method of `Player` is proved against a specification
  function on the value `Session`:
  - `load_file` against `AfterLoad`, and its return value against `LoadResult`;
  - the play/pause button against `AfterToggle`;
  - the handling of a picked file against `AfterSelection`;
  - one redraw's event against `Step`.

  The methods of `Sink` state their effect on its abstract state, and
  `Player.Progress` is proved against `ProgressFraction`.

  Lemmas about those functions state what the program promises: what each early
  exit of a load has changed, how the toggle follows the sink, and an invariant
  kept by any run of events.
- **`format_duration`** (`durations.dfy`) renders a duration as `MM:SS`. The
  function's contract proves that the text parses back to the whole seconds.
  This rests on a decimal-digit model of Rust's `{:02}` formatting.
- **The open-file filter** (`paths.dfy`, `extension_filter.dfy`) is built from:
  - `Path::extension`, modelled over Unix byte paths;
  - `OsStr::to_str`, as the UTF-8 well-formedness of RFC 3629, section 4;
  - `str::eq_ignore_ascii_case`.

  A path is accepted exactly when it has an extension whose ASCII-lowered form
  is `m4a`, `mp3` or `flac`.
- **`file_type_to_str`** (`file_types.dfy`) maps the tag library's container
  kinds to short names. It is proved injective on the twelve listed kinds,
  against an inverse.

The operating system and the libraries answer a load in four places:
- whether a sink can be made;
- what the probe reads;
- whether the file opens a second time;
- what the decoder reports.

These answers are a `LoadWorld` value passed to the load. The decoder's result
is unwrapped in the source, so a failing decoder would abort the program. The
load therefore requires the decoder to succeed, but only when the load gets
that far (`DecoderSucceedsIfReached`).

The code behaves as follows in places that are easy to misread; the model
follows the code:
- `Sink::try_new` gives a running (unpaused), empty sink. A new sink is paused
  only once a load completes (src/main.rs:107).
- The toggle is not a no-op without a loaded file. It flips whatever sink
  exists (src/main.rs:214-222). Right after start-up the sink is not paused
  while the flag says it is not playing, so the first click pauses.
- A failed load does not return the session to its earlier state:
  - the old sink has already been stopped;
  - `is_playing` keeps its old value;
  - past the probe, the container name and bitrate have already changed.
- A successful load does not clear an earlier error message (src/main.rs:148-150).
- `is_playing` does not imply that a file is loaded or that a source is
  queued. What every event does keep is weaker (`Playback.Consistent`): the
  flag is set only while the sink is not paused, and a sink never holds more
  than one source.
- A decoder failure is not a reported error. It aborts the program
  (src/main.rs:104).

## Model

| member | source | states |
|---|---|---|
| `Durations.MinutesAndSeconds` | src/main.rs:254-256 | the seconds are below 60 and minutes * 60 + seconds is the whole-second count |
| `Durations.FormatDuration` | src/main.rs:253-258 | the text is at least two minute digits, a colon and exactly two second digits, and parsing it back gives the duration's whole seconds (its exact width is `FormatDurationWidth`) |
| `Durations.Clock` | src/main.rs:257 | `{:02}:{:02}` yields a colon three from the end with digit runs on both sides |
| `Durations.Field02` | src/main.rs:257 | a `{:02}` field has at least two digits, exactly two below 100 |
| `Durations.DecimalNoLeadingZero` | src/main.rs:257 | a positive number is printed without a leading zero, and from 10 on with at least two digits |
| `Durations.Field02Padding` | src/main.rs:257 | `{:02}` pads exactly the numbers below 10, with one leading zero; from 10 on it prints the plain decimal, which starts with a non-zero digit |
| `Durations.FormatDurationWidth` | src/main.rs:253-258 | below 100 minutes the text is exactly five characters, and it starts with '0' exactly when the duration is under ten minutes |
| `Durations.Field02Value` | src/main.rs:257 | a `{:02}` field reads back as the number printed, despite the zero padding |
| `Durations.ClockRoundTrip` | src/main.rs:257 | a clock built from minutes and seconds below 60 parses back to minutes * 60 + seconds |
| `Durations.FormatDurationInjective` | src/main.rs:253-258 | two durations print the same text exactly when their whole seconds agree |
| `Durations.FormatDurationIgnoresNanos` | src/main.rs:254 | the sub-second part never changes the text |
| `Durations.FormatDurationOfZero` | src/main.rs:253-258 | a zero duration prints `00:00` |
| `Durations.FormatDurationDropsFraction` | src/main.rs:254 | 59.999999999 s prints `00:59`: the fraction is truncated, not rounded |
| `Durations.FormatDurationOfHour` | src/main.rs:255-257 | 3725 s prints `62:05`: minutes are not wrapped into hours |
| `Durations.FormatDurationWideMinutes` | src/main.rs:257 | 6000 s prints `100:00`: the width two is a minimum |
| `FileTypes.FileTypeToStr` | src/main.rs:260-276 | the result is "unknown" exactly for the kinds the match does not list, and is otherwise a short lower-case name |
| `FileTypes.FileTypeNameRoundTrip` | src/main.rs:260-276 | each listed kind is recovered from its name; "unknown" recovers no kind |
| `FileTypes.FileTypeFromStrSound` | src/main.rs:260-276 | a name that maps to a kind is exactly that kind's name |
| `FileTypes.FileTypeNamesDistinct` | src/main.rs:260-276 | two listed kinds share a name exactly when they are the same kind |
| `Paths.Split` | src/main.rs:128 | a path splits into at least one component, none containing a separator |
| `Paths.SplitJoin` | src/main.rs:128 | joining the components with '/' gives back the path |
| `Paths.SplitAtSlash` | src/main.rs:128 | splitting `a/b` gives the components of `a` followed by those of `b` |
| `Paths.FileName` | src/main.rs:128 | a file name is non-empty, is neither `.` nor `..`, and contains no separator |
| `Paths.FileNameAfterDirectory` | src/main.rs:128 | the file name of `dir/name` is `name`, whatever `dir` is |
| `Paths.TrailingSlashIgnored` | src/main.rs:128 | a trailing '/' changes neither the file name nor the extension |
| `Paths.LastDot` | src/main.rs:128 | the index found holds a dot and no dot follows it; none is found only in a name without dots |
| `Paths.LastDotUnique` | src/main.rs:128 | a dot followed by no other dot is the one `rsplit` cuts at |
| `Paths.NameExtensionIff` | src/main.rs:128 | the extension is the tail after a dot that is not the name's first byte and is followed by no other dot |
| `Paths.NameExtension` | src/main.rs:128 | characterised by `NameExtensionIff`: `..` and a name whose only dot leads it have no extension; otherwise the extension is the tail after the last dot |
| `Paths.Extension` | src/main.rs:128 | characterised by `TrailingSlashIgnored` and `ExtensionOfFile`: the extension of the path's file name, none when there is no file name |
| `Paths.HiddenFileHasNoExtension` | src/main.rs:128 | `.mp3` has no extension |
| `Paths.ExtensionOfMixedCase` | src/main.rs:128 | `song.MP3` has extension `MP3`, case kept |
| `Paths.ExtensionAfterLastDot` | src/main.rs:128 | `a.mp3.bak` has extension `bak` |
| `Paths.TrailingDotGivesEmptyExtension` | src/main.rs:128 | `end.` has the empty extension |
| `Paths.ToStr` | src/main.rs:129 | the conversion is all-or-nothing and keeps the bytes, with no replacement characters; text it accepts never holds 0xC0 or 0xC1, the lead bytes of overlong two-byte encodings |
| `Paths.ValidUtf8` | src/main.rs:129 | characterised by `Utf8ExcludedBytes`, `AsciiIsUtf8` and `InvalidUtf8Examples`: ASCII is accepted, and 0xC0, 0xC1, 0xF5..0xFF, overlong forms and surrogates are not |
| `Paths.Utf8ExcludedBytes` | src/main.rs:129 | text that converts never contains 0xC0, 0xC1 or a byte from 0xF5 up, as RFC 3629 section 1 requires |
| `Paths.AsciiIsUtf8` | src/main.rs:129 | ASCII text always converts |
| `Paths.InvalidUtf8Examples` | src/main.rs:129 | a stray 0xFF, an overlong '/' and an encoded surrogate do not convert |
| `ExtensionFilter.ToAsciiLowercase` | src/main.rs:130 | the result is never an upper-case ASCII letter; a byte either stays or moves up by 32, it moves exactly when it is 'A'..'Z', and ASCII stays ASCII |
| `ExtensionFilter.ToAsciiLowercaseIdempotent` | src/main.rs:130 | lowering an already lowered byte changes nothing |
| `ExtensionFilter.EqIgnoreAsciiCase` | src/main.rs:130 | characterised by `EqIgnoreAsciiCaseIff`: byte-wise equality after ASCII lowering |
| `ExtensionFilter.EqIgnoreAsciiCaseIff` | src/main.rs:130 | comparing ignoring ASCII case is comparing the lowered strings |
| `ExtensionFilter.MatchLowerAscii` | src/main.rs:130 | against a lower-case ASCII word, a case-insensitive match means the lowered extension is that word |
| `ExtensionFilter.LoweredAsciiIsUtf8` | src/main.rs:129-130 | an extension whose lowered form is ASCII is valid UTF-8 |
| `ExtensionFilter.AnyMatches` | src/main.rs:130 | characterised by `AnyMatchesIff`: true exactly when some allowed extension matches ignoring ASCII case |
| `ExtensionFilter.AnyMatchesIff` | src/main.rs:130 | `any` is true exactly when some allowed extension matches |
| `ExtensionFilter.MatchesIffLoweredListed` | src/main.rs:129-130 | an extension passes `to_str` and matches the list exactly when its lowered form is listed |
| `ExtensionFilter.Accepts` | src/main.rs:127-131 | characterised by `AcceptsIff` and `AcceptsAllowedExts`: a path passes exactly when its extension exists, is UTF-8 and matches an allowed one ignoring ASCII case |
| `ExtensionFilter.AcceptsIff` | src/main.rs:124-132 | for a lower-case allow-list, a path is accepted exactly when its extension exists and its lowered form is listed |
| `ExtensionFilter.AllowedExtsAreLowerAscii` | src/main.rs:84 | the application's allow-list is lower-case ASCII |
| `ExtensionFilter.AcceptsAllowedExts` | src/main.rs:124-132 | the application accepts a path exactly when its extension, lowered, is `m4a`, `mp3` or `flac` |
| `ExtensionFilter.AcceptsIgnoresCase` | src/main.rs:130 | any two paths whose extensions both exist and are equal ignoring ASCII case are both accepted or both rejected |
| `ExtensionFilter.ExtensionOfFile` | src/main.rs:128 | `dir/stem.ext` has extension `ext` when neither part holds a '/', the stem is non-empty, `ext` has no dot and the name is not `..` |
| `ExtensionFilter.AcceptsUpperCaseMp3` | src/main.rs:124-132 | `/music/Song.MP3` is accepted |
| `ExtensionFilter.RejectsOgg` | src/main.rs:124-132 | `/music/song.ogg` is rejected |
| `ExtensionFilter.RejectsNonUtf8Extension` | src/main.rs:129 | an extension that is not UTF-8 is rejected |
| `Playback.Sink.constructor` | src/main.rs:92 | a new sink is running, empty and at position zero |
| `Playback.Sink.Stop` | src/main.rs:91 | stopping sets the stopped flag and changes nothing else |
| `Playback.Sink.Play` | src/main.rs:216 | resuming clears the paused flag only |
| `Playback.Sink.Pause` | src/main.rs:219 | pausing sets the paused flag only |
| `Playback.Sink.IsPaused` | src/main.rs:215 | the query returns the paused flag |
| `Playback.Sink.Append` | src/main.rs:106 | one more source is queued and the sink is no longer stopped |
| `Playback.Sink.GetPos` | src/main.rs:223 | the query returns the sink's position |
| `Playback.Player.constructor` | src/main.rs:70-87 | start-up: a fresh running sink, not playing, no metadata, no path, no error, allow-list m4a, mp3, flac |
| `Playback.Player.LoadFile` | src/main.rs:90-111 | the old sink is stopped; a new one is installed only if it could be made; the session becomes `AfterLoad` of the old one; the result is `LoadResult` |
| `Playback.Player.TogglePlayPause` | src/main.rs:214-222 | same sink object; the session becomes `AfterToggle` of the old one |
| `Playback.Player.OnFileSelected` | src/main.rs:140-151 | the session becomes `AfterSelection` of the old one |
| `Playback.Player.Handle` | src/main.rs:140-222 | one redraw's event moves the session by `Step` |
| `Playback.Player.Progress` | src/main.rs:232-241 | the bar's fraction is `ProgressFraction` of the position and the total, within [0, 1] |
| `Playback.Seconds` | src/main.rs:234-235 | a duration in seconds is non-negative and zero only for the zero duration |
| `Playback.ProgressFraction` | src/main.rs:233-241 | zero without a positive total; otherwise elapsed / total, capped at one |
| `Playback.LoadSucceeds` | src/main.rs:90-111 | a load succeeds exactly when it reaches the decoder; then the sink is paused with one source, not playing, with the new metadata, and path and message are kept |
| `Playback.LoadEarlyExits` | src/main.rs:91-103 | a failed sink only stops the old one; a failed probe only swaps the sink; a failed second open also records type and bitrate, but not the duration or the flag |
| `Playback.LoadFailureKeepsFlags` | src/main.rs:90-103 | a failed load keeps the playing flag, the duration, the path and the message, and leaves no queued source in a running sink |
| `Playback.FailedLoadCanClaimPlaying` | src/main.rs:90-103 | some failed load leaves the flag saying "playing" with no source queued |
| `Playback.ErrorMessageNamesStep` | src/main.rs:92-103 | the prefix of every load error message identifies the step that failed |
| `Playback.ToggleFollowsSink` | src/main.rs:214-222 | the toggle takes its direction from the sink; afterwards flag and sink agree; nothing else changes |
| `Playback.ToggleTwice` | src/main.rs:214-222 | two toggles restore the sink, and restore the whole session exactly when flag and sink agreed |
| `Playback.FirstClickAfterStartPauses` | src/main.rs:214-222 | after start-up the first click pauses and the second one plays |
| `Playback.SelectionRecordsPath` | src/main.rs:147 | a picked path is recorded even when its load fails |
| `Playback.SelectionErrorMessage` | src/main.rs:148-150 | a failed load shows its message; a successful load keeps the earlier one |
| `Playback.StepKeepsConsistent` | src/main.rs:140-222 | every event keeps `Consistent` |
| `Playback.RunKeepsConsistent` | src/main.rs:140-222 | any run of events keeps `Consistent` |
| `Playback.ReachableIsConsistent` | src/main.rs:75-87 | every state reachable from start-up is `Consistent` |
| `Playback.LoadWhilePlaying` | src/main.rs:90-111 | after load A, play, load B, the player is not playing, the sink is paused with one source, and the metadata is B's |
| `Playback.SinkFailureSilencesPlayback` | src/main.rs:91-93 | when no new sink can be made, the playing sink is stopped, the flag is kept and the message is shown |

## Left out

- Rendering of the window is not modelled: fonts, image loaders, labels, button captions, artwork and the repaint cadence (src/main.rs:52-68, 114-120, 153-212, 223-229, 243-250).
- The file dialog itself is not modelled. Only its filter is, and its answer becomes the `selected` parameter of `OnFileSelected`.
- Tag reading is not modelled: title, artist and artwork (src/main.rs:157-196).
- The audio library's internals are not modelled: device acquisition, decoding, background playback threads and how the position advances. The position is an opaque field.
- The start-up panics are not modelled: no audio device, or no first sink (src/main.rs:70-73). `Player.constructor` covers only the run in which both exist.
- The decoder's panic is a precondition, not a modelled abort.
- `ProgressFraction`: computed over exact reals. `f32` rounding of `as_secs_f32` and of the division is not modelled.
- `std::time::Duration` keeps its seconds in a `u64`; `Durations.Duration` uses an unbounded natural number. `format_duration` only divides, so no overflow is lost.
- Paths are Unix byte strings. Windows prefixes and separators are not modelled.
- `Paths.FileName`: `.` components other than a leading one are dropped by `Path::components`. The model skips `.` components anywhere, which gives the same file name.
- `Sink.Append`: appending to a stopped sink that still holds sources first waits for them to finish. The model only clears the flag; a freshly created sink is never in that case.
