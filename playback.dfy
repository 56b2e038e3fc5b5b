/**
 * The playback session controller: the application state `MyEguiApp`
 * (src/main.rs:37-49), its constructor's initial values (src/main.rs:70-87),
 * `load_file` (src/main.rs:90-111), the play/pause toggle (src/main.rs:214-222),
 * the handling of a file picked in the dialog (src/main.rs:140-151) and the
 * guard around the progress fraction (src/main.rs:232-241).
 *
 * The audio library's sink is a class with an abstract state: whether it was
 * stopped, whether it is paused, how many sources were appended to it, and its
 * playback position, which the library's threads advance and which the model
 * leaves opaque. Everything the operating system and the libraries answer
 * during a load (can a sink be made, what the probe reads, can the file be
 * opened, what the decoder reports) is a `LoadWorld` value given to the load.
 *
 * Each state-changing method is tied to a specification function over the
 * value `Session`; the properties the application relies on are lemmas about
 * those functions.
 */
module Playback {
  import opened Wrappers
  import opened Durations
  import opened FileTypes
  import opened Paths
  import opened ExtensionFilter

  newtype u32 = n: int | 0 <= n < 0x1_0000_0000

  // ---------------------------------------------------------------- the sink

  /** What the player can observe of a sink. */
  datatype SinkState = SinkState(stopped: bool, paused: bool, sources: nat, position: Duration)

  /** A sink as `Sink::try_new` makes it: running (not paused), empty, at position zero. */
  const NewSink: SinkState := SinkState(false, false, 0, Zero)

  /** The audio library's `Sink`, reduced to its observable state. */
  class Sink {
    var stopped: bool
    var paused: bool
    var sources: nat
    var position: Duration

    function State(): SinkState
      reads this
    {
      SinkState(stopped, paused, sources, position)
    }

    /** `Sink::try_new` when it succeeds. */
    constructor ()
      ensures State() == NewSink
    {
      stopped, paused, sources, position := false, false, 0, Zero;
    }

    /** `Sink::stop`: playback ends and the queued sources are dropped from hearing. */
    method Stop()
      modifies this
      ensures State() == old(State()).(stopped := true)
    {
      stopped := true;
    }

    /** `Sink::play`: resume. */
    method Play()
      modifies this
      ensures State() == old(State()).(paused := false)
    {
      paused := false;
    }

    /** `Sink::pause`. */
    method Pause()
      modifies this
      ensures State() == old(State()).(paused := true)
    {
      paused := true;
    }

    /** `Sink::is_paused`. */
    method IsPaused() returns (p: bool)
      ensures p == paused
    {
      p := paused;
    }

    /** `Sink::append`: one more source queued; appending to a stopped sink makes it run again. */
    method Append()
      modifies this
      ensures State() == old(State()).(stopped := false, sources := old(sources) + 1)
    {
      stopped := false;
      sources := sources + 1;
    }

    /** `Sink::get_pos`. */
    method GetPos() returns (d: Duration)
      ensures d == position
    {
      d := position;
    }
  }

  // ---------------------------------------------------------------- what a load meets

  /** How `Probe::open(path)?.read()?` fails: opening the file, or reading its metadata. */
  datatype ProbeFailure = OpenFailed(reason: string) | ReadFailed(reason: string)

  /** What a successful probe reports: the container type and the overall bitrate, if known. */
  datatype Probed = Probed(fileType: FileType, overallBitrate: Option<u32>)

  /** What `Decoder::new(file)` yields when it succeeds: a source whose total duration may be unknown. */
  datatype Decoded = Decoded(totalDuration: Option<Duration>)

  /**
   * The answers a load receives, in the order it asks: a new sink, the probe,
   * opening the file a second time for decoding, and the decoder (`None` when
   * `Decoder::new` fails).
   */
  datatype LoadWorld = LoadWorld(
    newSink: Result<(), string>,
    probe: Result<Probed, ProbeFailure>,
    fileOpen: Result<(), string>,
    decoder: Option<Decoded>)

  /** A load gets as far as the decoder: every earlier step succeeded. */
  predicate ReachesDecoder(w: LoadWorld) {
    w.newSink.Ok? && w.probe.Ok? && w.fileOpen.Ok?
  }

  /**
   * The decoder's result is unwrapped, so a decoder failure aborts the program;
   * a load may only meet a world in which it does not happen.
   */
  predicate DecoderSucceedsIfReached(w: LoadWorld) {
    ReachesDecoder(w) ==> w.decoder.Some?
  }

  const SinkErrorPrefix: string := "Failed to create sink: "
  const OpenErrorPrefix: string := "Failed to open file: "
  const MetadataErrorPrefix: string := "Failed to read audio metadata: "
  const FileErrorPrefix: string := "File open error: "

  /** What `load_file` returns: the first failing step's message, or success. */
  function LoadResult(w: LoadWorld): Result<(), string> {
    if w.newSink.Err? then Err(SinkErrorPrefix + w.newSink.error)
    else if w.probe.Err? then
      match w.probe.error
      case OpenFailed(e) => Err(OpenErrorPrefix + e)
      case ReadFailed(e) => Err(MetadataErrorPrefix + e)
    else if w.fileOpen.Err? then Err(FileErrorPrefix + w.fileOpen.error)
    else Ok(())
  }

  // ---------------------------------------------------------------- the session as a value

  /** The state of `MyEguiApp` that the controller reads and writes, with the sink's observable state. */
  datatype Session = Session(
    sink: SinkState,
    isPlaying: bool,
    totalDuration: Option<Duration>,
    bitrate: Option<u32>,
    fileType: Option<string>,
    openedFile: Option<OsStr>,
    errorMessage: Option<string>)

  /** The state `MyEguiApp::new` builds once the audio output and the sink exist. */
  const Initial: Session := Session(NewSink, false, None, None, None, None, None)

  /**
   * The state after `load_file`, step by step: the old sink is stopped; if a new
   * one cannot be made the stopped sink stays; otherwise it replaces the old one;
   * a successful probe records the type name and bitrate; once the file opens
   * and decodes, the duration is recorded, the source appended, the sink paused
   * and the playing flag cleared.
   */
  function AfterLoad(s: Session, w: LoadWorld): Session
    requires DecoderSucceedsIfReached(w)
  {
    var stoppedOld := s.(sink := s.sink.(stopped := true));
    if w.newSink.Err? then stoppedOld
    else
      var swapped := s.(sink := NewSink);
      if w.probe.Err? then swapped
      else
        var probed := swapped.(fileType := Some(FileTypeToStr(w.probe.value.fileType)),
                               bitrate := w.probe.value.overallBitrate);
        if w.fileOpen.Err? then probed
        else
          probed.(totalDuration := w.decoder.value.totalDuration,
                  sink := NewSink.(paused := true, sources := 1),
                  isPlaying := false)
  }

  /** The toggle: it asks the sink whether it is paused and goes the other way. */
  function AfterToggle(s: Session): Session {
    if s.sink.paused then s.(sink := s.sink.(paused := false), isPlaying := true)
    else s.(sink := s.sink.(paused := true), isPlaying := false)
  }

  /**
   * A file picked in the dialog: it becomes `opened_file` before the load; a
   * failed load's message replaces the shown error, a successful load leaves it.
   * Nothing happens when nothing was picked.
   */
  function AfterSelection(s: Session, selected: Option<OsStr>, w: LoadWorld): Session
    requires selected.Some? ==> DecoderSucceedsIfReached(w)
  {
    match selected
    case None => s
    case Some(path) =>
      var loaded := AfterLoad(s.(openedFile := Some(path)), w);
      match LoadResult(w)
      case Ok(_) => loaded
      case Err(e) => loaded.(errorMessage := Some(e))
  }

  /** The sink's paused flag agrees with the playing flag: the button label tells the truth. */
  predicate InSync(s: Session) {
    s.isPlaying == !s.sink.paused
  }

  /**
   * What every operation keeps: when the player says it is playing, its sink is
   * not paused, and its sink never holds more than the one source a load appends.
   */
  predicate Consistent(s: Session) {
    (s.isPlaying ==> !s.sink.paused) && s.sink.sources <= 1
  }

  /** What one redraw of the window can do to the session: a button click or a file picked in the dialog. */
  datatype Event = Toggle | Picked(selected: Option<OsStr>, w: LoadWorld)

  /** An event the program survives: a picked file's load does not reach a failing decoder. */
  predicate Survivable(e: Event) {
    e.Picked? && e.selected.Some? ==> DecoderSucceedsIfReached(e.w)
  }

  function Step(s: Session, e: Event): Session
    requires Survivable(e)
  {
    match e
    case Toggle => AfterToggle(s)
    case Picked(selected, w) => AfterSelection(s, selected, w)
  }

  /** The session after a run of events, first to last. */
  function Run(s: Session, events: seq<Event>): Session
    requires forall i :: 0 <= i < |events| ==> Survivable(events[i])
    decreases |events|
  {
    if |events| == 0 then s else Run(Step(s, events[0]), events[1..])
  }

  // ---------------------------------------------------------------- the controller

  /** `MyEguiApp`: the audio sink, the per-file metadata and the flags the window shows. */
  class Player {
    var sink: Sink
    var isPlaying: bool
    var totalDuration: Option<Duration>
    var bitrate: Option<u32>
    var fileType: Option<string>
    var openedFile: Option<OsStr>
    const allowedExts: seq<OsStr>
    var errorMessage: Option<string>

    function State(): Session
      reads this, sink
    {
      Session(sink.State(), isPlaying, totalDuration, bitrate, fileType, openedFile, errorMessage)
    }

    /** `MyEguiApp::new` once the audio output and the first sink have been acquired. */
    constructor ()
      ensures fresh(sink)
      ensures State() == Initial
      ensures allowedExts == AllowedExts
    {
      sink := new Sink();
      isPlaying := false;
      totalDuration, bitrate, fileType, openedFile := None, None, None, None;
      allowedExts := AllowedExts;
      errorMessage := None;
    }

    /** `load_file`: `w` holds what the libraries and the file system answer for `path`. */
    method LoadFile(path: OsStr, w: LoadWorld) returns (r: Result<(), string>)
      requires DecoderSucceedsIfReached(w)
      modifies this, sink
      ensures old(sink).stopped
      ensures w.newSink.Ok? ==> fresh(sink)
      ensures w.newSink.Err? ==> sink == old(sink)
      ensures State() == AfterLoad(old(State()), w)
      ensures r == LoadResult(w)
    {
      sink.Stop();
      if w.newSink.Err? {
        return Err(SinkErrorPrefix + w.newSink.error);
      }
      sink := new Sink();
      match w.probe {
        case Err(OpenFailed(e)) =>
          return Err(OpenErrorPrefix + e);
        case Err(ReadFailed(e)) =>
          return Err(MetadataErrorPrefix + e);
        case Ok(probe) =>
          fileType := Some(FileTypeToStr(probe.fileType));
          bitrate := probe.overallBitrate;
      }
      if w.fileOpen.Err? {
        return Err(FileErrorPrefix + w.fileOpen.error);
      }
      var source := w.decoder.value;
      totalDuration := source.totalDuration;
      sink.Append();
      sink.Pause();
      isPlaying := false;
      return Ok(());
    }

    /** The play/pause button. */
    method TogglePlayPause()
      modifies sink, this
      ensures sink == old(sink)
      ensures State() == AfterToggle(old(State()))
    {
      var paused := sink.IsPaused();
      if paused {
        sink.Play();
        isPlaying := true;
      } else {
        sink.Pause();
        isPlaying := false;
      }
    }

    /** What `update` does with the dialog's answer: `selected` is the picked path, if any. */
    method OnFileSelected(selected: Option<OsStr>, w: LoadWorld)
      requires selected.Some? ==> DecoderSucceedsIfReached(w)
      modifies this, sink
      ensures State() == AfterSelection(old(State()), selected, w)
    {
      if selected.Some? {
        openedFile := Some(selected.value);
        var r := LoadFile(selected.value, w);
        if r.Err? {
          errorMessage := Some(r.error);
        }
      }
    }

    /** One event handled by `update`. */
    method Handle(e: Event)
      requires Survivable(e)
      modifies this, sink
      ensures State() == Step(old(State()), e)
    {
      match e {
        case Toggle =>
          TogglePlayPause();
        case Picked(selected, w) =>
          OnFileSelected(selected, w);
      }
    }

    /** The progress bar's fraction, from the sink's position and the known total. */
    method Progress() returns (f: real)
      ensures f == ProgressFraction(sink.position, totalDuration)
      ensures 0.0 <= f <= 1.0
    {
      var elapsed := sink.GetPos();
      f := ProgressFraction(elapsed, totalDuration);
    }
  }

  // ---------------------------------------------------------------- progress

  /** A duration in seconds, exactly. */
  function Seconds(d: Duration): (x: real)
    ensures x >= 0.0
    ensures x == 0.0 <==> d.secs == 0 && d.nanos == 0
  {
    d.secs as real + d.nanos as real / 1_000_000_000.0
  }

  /**
   * The progress fraction: zero without a known positive total; otherwise the
   * elapsed share of the total, capped at one.
   */
  function ProgressFraction(elapsed: Duration, total: Option<Duration>): (f: real)
    ensures 0.0 <= f <= 1.0
    ensures total.None? || Seconds(total.value) == 0.0 ==> f == 0.0
    ensures total.Some? && Seconds(total.value) > 0.0 ==>
      (Seconds(elapsed) >= Seconds(total.value) ==> f == 1.0) &&
      (Seconds(elapsed) < Seconds(total.value) ==> f * Seconds(total.value) == Seconds(elapsed))
  {
    match total
    case None => 0.0
    case Some(t) =>
      if Seconds(t) > 0.0 then
        var share := Seconds(elapsed) / Seconds(t);
        ShareBelowOne(Seconds(elapsed), Seconds(t));
        if share < 1.0 then share else 1.0
      else 0.0
  }

  /** For a positive total, the share is below one exactly when the elapsed time is below the total. */
  lemma ShareBelowOne(e: real, t: real)
    requires e >= 0.0 && t > 0.0
    ensures e / t >= 0.0 && e / t * t == e
    ensures e / t < 1.0 <==> e < t
  {
    var q := e / t;
    assert q * t == e;
    if q < 1.0 {
      assert q * t < 1.0 * t;
    }
    if e < t {
      assert q * t < 1.0 * t;
    }
  }

  // ---------------------------------------------------------------- load

  /** A load succeeds exactly when it reaches the decoder; then the new file is ready, paused, with its metadata. */
  lemma LoadSucceeds(s: Session, w: LoadWorld)
    requires DecoderSucceedsIfReached(w)
    ensures LoadResult(w).Ok? <==> ReachesDecoder(w)
    ensures ReachesDecoder(w) ==>
      var r := AfterLoad(s, w);
      r.sink == SinkState(false, true, 1, Zero) && !r.isPlaying && InSync(r) &&
      r.fileType == Some(FileTypeToStr(w.probe.value.fileType)) &&
      r.bitrate == w.probe.value.overallBitrate &&
      r.totalDuration == w.decoder.value.totalDuration &&
      r.openedFile == s.openedFile && r.errorMessage == s.errorMessage
  {
  }

  /** The early exits: what each failing step has already changed, and nothing more. */
  lemma LoadEarlyExits(s: Session, w: LoadWorld)
    requires DecoderSucceedsIfReached(w)
    ensures w.newSink.Err? ==> AfterLoad(s, w) == s.(sink := s.sink.(stopped := true))
    ensures w.newSink.Ok? && w.probe.Err? ==> AfterLoad(s, w) == s.(sink := NewSink)
    ensures w.newSink.Ok? && w.probe.Ok? && w.fileOpen.Err? ==>
      var r := AfterLoad(s, w);
      r.fileType == Some(FileTypeToStr(w.probe.value.fileType)) &&
      r.bitrate == w.probe.value.overallBitrate &&
      r.sink == NewSink &&
      r.totalDuration == s.totalDuration && r.isPlaying == s.isPlaying &&
      r.openedFile == s.openedFile && r.errorMessage == s.errorMessage
  {
  }

  /** A failed load leaves the playing flag, the known duration, the path and the message as they were. */
  lemma LoadFailureKeepsFlags(s: Session, w: LoadWorld)
    requires DecoderSucceedsIfReached(w) && LoadResult(w).Err?
    ensures var r := AfterLoad(s, w);
      r.isPlaying == s.isPlaying && r.totalDuration == s.totalDuration &&
      r.openedFile == s.openedFile && r.errorMessage == s.errorMessage
    ensures AfterLoad(s, w).sink.sources == 0 || AfterLoad(s, w).sink.stopped
  {
  }

  /**
   * A failed load can leave the player saying it plays while nothing is queued:
   * the old sink was stopped and the fresh one holds no source.
   */
  lemma FailedLoadCanClaimPlaying()
    ensures exists s: Session, w: LoadWorld ::
      DecoderSucceedsIfReached(w) && LoadResult(w).Err? &&
      AfterLoad(s, w).isPlaying && AfterLoad(s, w).sink.sources == 0
  {
    var s := Initial.(isPlaying := true, sink := SinkState(false, false, 1, Zero));
    var w := LoadWorld(Ok(()), Err(ReadFailed("unsupported")), Ok(()), None);
    assert DecoderSucceedsIfReached(w) && LoadResult(w).Err?;
    assert AfterLoad(s, w) == s.(sink := NewSink);
  }

  /** Which step failed, as the caller can tell it from the message. */
  datatype FailedStep = SinkStep | OpenStep | MetadataStep | FileStep

  function FailedStepOf(w: LoadWorld): Option<FailedStep> {
    if w.newSink.Err? then Some(SinkStep)
    else if w.probe.Err? then
      (if w.probe.error.OpenFailed? then Some(OpenStep) else Some(MetadataStep))
    else if w.fileOpen.Err? then Some(FileStep)
    else None
  }

  /** The step a load error message comes from, read off its prefix. */
  function StepOfMessage(m: string): Option<FailedStep> {
    if SinkErrorPrefix <= m then Some(SinkStep)
    else if OpenErrorPrefix <= m then Some(OpenStep)
    else if MetadataErrorPrefix <= m then Some(MetadataStep)
    else if FileErrorPrefix <= m then Some(FileStep)
    else None
  }

  /** Every load error names the step that failed, whatever the library's own text says. */
  lemma {:induction false} ErrorMessageNamesStep(w: LoadWorld)
    requires LoadResult(w).Err?
    ensures StepOfMessage(LoadResult(w).error) == FailedStepOf(w)
  {
    var m := LoadResult(w).error;
    if w.newSink.Err? {
      assert m[..|SinkErrorPrefix|] == SinkErrorPrefix;
    } else if w.probe.Err? && w.probe.error.OpenFailed? {
      assert m[..|OpenErrorPrefix|] == OpenErrorPrefix;
      assert m[10] != SinkErrorPrefix[10];
    } else if w.probe.Err? {
      assert m[..|MetadataErrorPrefix|] == MetadataErrorPrefix;
      assert m[10] != SinkErrorPrefix[10] && m[10] != OpenErrorPrefix[10];
    } else {
      assert m[..|FileErrorPrefix|] == FileErrorPrefix;
      assert m[1] != SinkErrorPrefix[1] && m[1] != OpenErrorPrefix[1] && m[1] != MetadataErrorPrefix[1];
    }
  }

  // ---------------------------------------------------------------- toggle

  /** The toggle goes the way the sink says, and afterwards the flag and the sink agree. */
  lemma ToggleFollowsSink(s: Session)
    ensures AfterToggle(s).isPlaying == s.sink.paused
    ensures AfterToggle(s).sink.paused == !s.sink.paused
    ensures InSync(AfterToggle(s))
    ensures AfterToggle(s).sink.(paused := s.sink.paused) == s.sink
    ensures AfterToggle(s).(sink := s.sink, isPlaying := s.isPlaying) == s
  {
  }

  /** Two toggles give back the sink; they give back the whole session exactly when flag and sink agreed. */
  lemma ToggleTwice(s: Session)
    ensures AfterToggle(AfterToggle(s)).sink == s.sink
    ensures AfterToggle(AfterToggle(s)) == s <==> InSync(s)
  {
    var once := AfterToggle(s);
    var twice := AfterToggle(once);
    ToggleFollowsSink(s);
    ToggleFollowsSink(once);
    if InSync(s) {
      assert twice.isPlaying == s.isPlaying;
    }
  }

  /** Right after start-up the sink runs but the flag says paused, so the first click pauses. */
  lemma FirstClickAfterStartPauses()
    ensures !InSync(Initial)
    ensures !AfterToggle(Initial).isPlaying && AfterToggle(Initial).sink.paused
    ensures AfterToggle(AfterToggle(Initial)).isPlaying
  {
  }

  // ---------------------------------------------------------------- the dialog

  /** A picked path is recorded before the load, so it stays recorded when the load fails. */
  lemma SelectionRecordsPath(s: Session, path: OsStr, w: LoadWorld)
    requires DecoderSucceedsIfReached(w)
    ensures AfterSelection(s, Some(path), w).openedFile == Some(path)
  {
  }

  /** A failed load shows its message; a successful one leaves an earlier message on screen. */
  lemma SelectionErrorMessage(s: Session, path: OsStr, w: LoadWorld)
    requires DecoderSucceedsIfReached(w)
    ensures LoadResult(w).Err? ==> AfterSelection(s, Some(path), w).errorMessage == Some(LoadResult(w).error)
    ensures LoadResult(w).Ok? ==> AfterSelection(s, Some(path), w).errorMessage == s.errorMessage
  {
  }

  // ---------------------------------------------------------------- the invariant

  lemma StepKeepsConsistent(s: Session, e: Event)
    requires Survivable(e) && Consistent(s)
    ensures Consistent(Step(s, e))
  {
  }

  /** However the user clicks and whatever the loads meet, the session stays consistent. */
  lemma {:induction false} RunKeepsConsistent(s: Session, events: seq<Event>)
    requires forall i :: 0 <= i < |events| ==> Survivable(events[i])
    requires Consistent(s)
    ensures Consistent(Run(s, events))
    decreases |events|
  {
    if |events| > 0 {
      StepKeepsConsistent(s, events[0]);
      RunKeepsConsistent(Step(s, events[0]), events[1..]);
    }
  }

  /** The start-up state is consistent, and so is every state the window can reach from it. */
  lemma ReachableIsConsistent(events: seq<Event>)
    requires forall i :: 0 <= i < |events| ==> Survivable(events[i])
    ensures Consistent(Run(Initial, events))
  {
    RunKeepsConsistent(Initial, events);
  }

  // ---------------------------------------------------------------- scenarios

  /** Load A, start it, then load B: B is loaded paused with its own metadata only. */
  lemma LoadWhilePlaying(s: Session, a: LoadWorld, b: LoadWorld)
    requires ReachesDecoder(a) && a.decoder.Some?
    requires ReachesDecoder(b) && b.decoder.Some?
    ensures AfterToggle(AfterLoad(s, a)).isPlaying
    ensures var r := AfterLoad(AfterToggle(AfterLoad(s, a)), b);
      !r.isPlaying && r.sink == SinkState(false, true, 1, Zero) &&
      r.fileType == Some(FileTypeToStr(b.probe.value.fileType)) &&
      r.bitrate == b.probe.value.overallBitrate &&
      r.totalDuration == b.decoder.value.totalDuration
  {
  }

  /** A playing file survives a failed pick whose sink cannot be made only as a stopped sink. */
  lemma SinkFailureSilencesPlayback(s: Session, path: OsStr, w: LoadWorld)
    requires w.newSink.Err?
    ensures var r := AfterSelection(s, Some(path), w);
      r.sink.stopped && r.isPlaying == s.isPlaying &&
      r.errorMessage == Some(SinkErrorPrefix + w.newSink.error) &&
      r.openedFile == Some(path) && r.fileType == s.fileType
  {
  }
}
