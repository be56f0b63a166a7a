/** The parts of the display loop in auraframe/app.py that decide state: the
    listening toggle on a button tap, when the now-playing surface is rebuilt,
    when the slideshow advances, and when the crossfade source frame is
    dropped. Drawing, events and the file system are inputs. */
module App {
  import opened Optional
  import opened State
  import opened Recognizer
  import Imaging

  /** `SLIDESHOW_INTERVAL_S` */
  const SlideshowInterval: real := 60.0

  // ---------------------------------------------------------------------------
  // The listening toggle
  // ---------------------------------------------------------------------------

  /** The state after a tap on the button at time `now`: the flag flips;
      turning listening off shows the slideshow, turning it on shows the
      listening screen and forgets the last match. */
  function ToggleSpec(v: StateView, now: real): StateView {
    if v.listeningEnabled then v.(listeningEnabled := false, mode := Slideshow, lastUpdateTs := now)
    else v.(listeningEnabled := true, mode := Listening, lastMatchTs := 0.0, lastUpdateTs := now)
  }

  /** The toggle under the lock, with `time.time()` read as `now`. */
  method Toggle(state: AppState, now: real)
    modifies state
    ensures state.View() == ToggleSpec(old(state.View()), now)
  {
    state.listeningEnabled := !state.listeningEnabled;
    if !state.listeningEnabled {
      state.mode := Slideshow;
      state.lastUpdateTs := now;
    } else {
      state.mode := Listening;
      state.lastMatchTs := 0.0;
      state.lastUpdateTs := now;
    }
  }

  /** Two taps restore the flag, and the mode is the one the second tap chose. */
  lemma ToggleTwice(v: StateView, t1: real, t2: real)
    ensures var w := ToggleSpec(ToggleSpec(v, t1), t2);
            w.listeningEnabled == v.listeningEnabled
            && w.mode == (if v.listeningEnabled then Listening else Slideshow)
            && w.lastUpdateTs == t2
            && w.title == v.title && w.artist == v.artist && w.album == v.album
            && w.year == v.year && w.coverUrl == v.coverUrl && w.coverPath == v.coverPath
  {
  }

  /** After listening is turned off, every recognizer cycle leaves the state
      and the session alone, so the slideshow stays up. */
  lemma ToggleOffFreezes(v: StateView, now: real, s: Session, cfg: Config, t: real, outcome: Outcome,
                         best: Option<Canonical.Release>, bestScore: real, downloadOk: bool)
    requires v.listeningEnabled
    ensures var w := ToggleSpec(v, now);
            w.mode == Slideshow
            && CycleSpec(w, s, cfg, t, outcome, best, bestScore, downloadOk) == Step(w, s)
  {
    DisabledCycleIdle(ToggleSpec(v, now), s, cfg, t, outcome, best, bestScore, downloadOk);
  }

  /** Turning listening on forgets the last match, so the first cycle without
      a match restarts the idle timer instead of dropping straight back to the
      slideshow. */
  lemma ToggleOnRestartsIdleTimer(v: StateView, now: real, cfg: Config, t: real)
    requires !v.listeningEnabled
    requires cfg.idleToSlideshow > 0.0 && cfg.staleTrackToSlideshow > 0.0
    ensures var w := AfterIdle(ToggleSpec(v, now), t, cfg);
            w.lastMatchTs == t && w.mode != Slideshow
  {
  }

  /** A tap keeps the display invariant: it only switches to the listening
      or slideshow screen and leaves the track fields alone. */
  lemma ToggleKeepsDisplayInv(v: StateView, s: Session, now: real)
    requires DisplayInv(v, s)
    ensures DisplayInv(ToggleSpec(v, now), s)
  {
  }

  // ---------------------------------------------------------------------------
  // The display loop's own variables
  // ---------------------------------------------------------------------------

  /** `last_np_rendered_ts`, `last_frame` (as the update time of the
      now-playing frame it holds), `current_slide`, `next_slide_at` and
      `last_mode` (None for the initial ""). */
  datatype LoopView = LoopView(lastNpRenderedTs: real, lastFrame: Option<real>, currentSlide: string,
                               nextSlideAt: real, lastMode: Option<Mode>)

  const InitialLoop: LoopView := LoopView(0.0, None, "", 0.0, None)

  /** The now-playing surface is rebuilt for a new, non-zero update in
      now-playing mode whose cover file exists. */
  predicate ShouldRender(snap: StateView, lastRendered: real, coverExists: bool) {
    snap.mode == NowPlaying && snap.lastUpdateTs != 0.0 && snap.lastUpdateTs != lastRendered && coverExists
  }

  /** The rebuild step: only a successful rebuild records the update it showed. */
  function RenderSpec(v: LoopView, snap: StateView, coverExists: bool, renderOk: bool): LoopView {
    if ShouldRender(snap, v.lastNpRenderedTs, coverExists) && renderOk then
      v.(lastNpRenderedTs := snap.lastUpdateTs, lastFrame := Some(snap.lastUpdateTs))
    else v
  }

  /** The end-of-frame step: on a mode change the mode is recorded, and the
      crossfade source is dropped unless the new mode is now-playing. */
  function NoteModeSpec(v: LoopView, mode: Mode): LoopView {
    if v.lastMode != Some(mode) then
      v.(lastMode := Some(mode), lastFrame := if mode != NowPlaying then None else v.lastFrame)
    else v
  }

  /** A crossfade source frame is only kept while now-playing was the last mode seen. */
  predicate NoStaleFrame(v: LoopView) {
    v.lastFrame.Some? ==> v.lastMode == Some(NowPlaying)
  }

  /** The slide timer: due in slideshow mode once `now` reaches it, then reset. */
  function SlideTimer(next: real, mode: Mode, now: real): real {
    if mode == Slideshow && now >= next then now + SlideshowInterval else next
  }

  /** A successful rebuild is not repeated for the same update. */
  lemma RenderOnce(v: LoopView, snap: StateView, coverExists: bool, renderOk: bool)
    requires ShouldRender(snap, v.lastNpRenderedTs, coverExists)
    ensures var w := RenderSpec(v, snap, coverExists, true);
            w.lastNpRenderedTs == snap.lastUpdateTs && w.lastFrame == Some(snap.lastUpdateTs)
            && RenderSpec(w, snap, coverExists, renderOk) == w
  {
  }

  /** A failed rebuild changes nothing, so the next frame tries again. */
  lemma FailedRenderRetries(v: LoopView, snap: StateView, coverExists: bool)
    requires ShouldRender(snap, v.lastNpRenderedTs, coverExists)
    ensures RenderSpec(v, snap, coverExists, false) == v
    ensures ShouldRender(snap, RenderSpec(v, snap, coverExists, false).lastNpRenderedTs, coverExists)
  {
  }

  /** Nothing is rebuilt outside now-playing mode, before the first update,
      or without a cover file. */
  lemma RenderOnlyWhenPlaying(v: LoopView, snap: StateView, coverExists: bool, renderOk: bool)
    requires snap.mode != NowPlaying || snap.lastUpdateTs == 0.0 || !coverExists
    ensures RenderSpec(v, snap, coverExists, renderOk) == v
  {
  }

  /** Leaving now-playing for another mode drops the crossfade source. */
  lemma ModeChangeDropsFrame(v: LoopView, mode: Mode)
    requires mode != NowPlaying && v.lastMode != Some(mode)
    ensures NoteModeSpec(v, mode).lastFrame.None? && NoteModeSpec(v, mode).lastMode == Some(mode)
  {
  }

  /** A frame (rebuild, then mode note) keeps the crossfade source fresh:
      a crossfade only ever starts from a frame drawn since the last switch
      into now-playing. */
  lemma FrameKeepsNoStaleFrame(v: LoopView, snap: StateView, coverExists: bool, renderOk: bool)
    requires NoStaleFrame(v)
    ensures NoStaleFrame(NoteModeSpec(RenderSpec(v, snap, coverExists, renderOk), snap.mode))
  {
  }

  /** The number of slide advances over a run of frames, each a mode and a time. */
  function Advances(next: real, frames: seq<(Mode, real)>): nat
    decreases |frames|
  {
    if frames == [] then 0
    else
      var (mode, now) := frames[0];
      (if mode == Slideshow && now >= next then 1 else 0) + Advances(SlideTimer(next, mode, now), frames[1..])
  }

  /** Slides advance at most once per interval: over frames no later than
      `end`, starting from timer `next`, `n` advances need
      `(n - 1) * SLIDESHOW_INTERVAL_S <= end - next`. */
  lemma {:induction false} AdvancesSpaced(next: real, frames: seq<(Mode, real)>, end: real)
    requires forall i :: 0 <= i < |frames| ==> frames[i].1 <= end
    ensures var n := Advances(next, frames);
            n == 0 || (n - 1) as real * SlideshowInterval <= end - next
    decreases |frames|
  {
    if frames != [] {
      var (mode, now) := frames[0];
      var next' := SlideTimer(next, mode, now);
      AdvancesSpaced(next', frames[1..], end);
      if mode == Slideshow && now >= next {
        assert next' == now + SlideshowInterval;
      } else {
        assert next' == next;
      }
    }
  }

  class DisplayLoop {
    var lastNpRenderedTs: real
    var lastFrame: Option<real>
    var currentSlide: string
    var nextSlideAt: real
    var lastMode: Option<Mode>

    function View(): LoopView
      reads this
    {
      LoopView(lastNpRenderedTs, lastFrame, currentSlide, nextSlideAt, lastMode)
    }

    /** The loop's variables before the first frame. */
    constructor ()
      ensures View() == InitialLoop && NoStaleFrame(View())
    {
      lastNpRenderedTs := 0.0;
      lastFrame := None;
      currentSlide := "";
      nextSlideAt := 0.0;
      lastMode := None;
    }

    /** Rebuild the now-playing surface from the state snapshot if it is due;
        reports whether a crossfade from the previous frame ran. */
    method RenderNowPlaying(snap: StateView, coverExists: bool, renderOk: bool) returns (crossfaded: bool)
      modifies this
      ensures View() == RenderSpec(old(View()), snap, coverExists, renderOk)
      ensures crossfaded <==> ShouldRender(snap, old(lastNpRenderedTs), coverExists) && renderOk && old(lastFrame).Some?
    {
      crossfaded := false;
      if snap.mode == NowPlaying && snap.lastUpdateTs != 0.0 && snap.lastUpdateTs != lastNpRenderedTs && coverExists {
        if renderOk {
          crossfaded := lastFrame.Some?;
          lastFrame := Some(snap.lastUpdateTs);
          lastNpRenderedTs := snap.lastUpdateTs;
        }
      }
    }

    /** The slideshow step: when due, pick a slide other than the current
        one, show it if it exists and loads, else show black and forget the
        current slide, and schedule the next advance. `picked` is the slide
        the picker returned (None when the step was not due). */
    method AdvanceSlide(mode: Mode, now: real, slides: seq<string>, onDisk: string -> bool, loadOk: bool)
      returns (picked: Option<string>)
      modifies this
      ensures nextSlideAt == SlideTimer(old(nextSlideAt), mode, now)
      ensures lastNpRenderedTs == old(lastNpRenderedTs) && lastFrame == old(lastFrame) && lastMode == old(lastMode)
      ensures !(mode == Slideshow && now >= old(nextSlideAt)) ==> currentSlide == old(currentSlide) && picked == None
      ensures mode == Slideshow && now >= old(nextSlideAt) ==>
                (slides == [] <==> picked.None?)
                && (picked.Some? ==> picked.value in slides)
                && (|slides| > 1 && (exists p :: p in slides && p != old(currentSlide)) ==>
                      picked.Some? && picked.value != old(currentSlide))
                && currentSlide == (if picked.Some? && picked.value != "" && onDisk(picked.value) && loadOk
                                    then picked.value else "")
      ensures mode == Slideshow && now >= old(nextSlideAt) && slides != [] && loadOk
              && (forall p :: p in slides ==> p != "" && onDisk(p)) ==>
                currentSlide in slides
                && (|slides| > 1 && (exists p :: p in slides && p != old(currentSlide)) ==>
                      currentSlide != old(currentSlide))
    {
      picked := None;
      if mode == Slideshow && now >= nextSlideAt {
        picked := Imaging.PickRandomImage(slides, currentSlide);
        if picked.Some? && picked.value != "" && onDisk(picked.value) && loadOk {
          currentSlide := picked.value;
        } else {
          currentSlide := "";
        }
        nextSlideAt := now + SlideshowInterval;
      }
    }

    /** The end-of-frame mode bookkeeping. */
    method NoteMode(mode: Mode)
      modifies this
      ensures View() == NoteModeSpec(old(View()), mode)
    {
      if lastMode != Some(mode) {
        lastMode := Some(mode);
        if mode != NowPlaying {
          lastFrame := None;
        }
      }
    }

    /** One frame of the loop after the events: rebuild, slideshow, mode note. */
    method Frame(snap: StateView, now: real, coverExists: bool, renderOk: bool,
                 slides: seq<string>, onDisk: string -> bool, loadOk: bool)
      modifies this
      requires NoStaleFrame(View())
      ensures NoStaleFrame(View())
      ensures lastNpRenderedTs == RenderSpec(old(View()), snap, coverExists, renderOk).lastNpRenderedTs
      ensures nextSlideAt == SlideTimer(old(nextSlideAt), snap.mode, now)
      ensures lastMode == Some(snap.mode)
      ensures lastFrame == NoteModeSpec(RenderSpec(old(View()), snap, coverExists, renderOk), snap.mode).lastFrame
      ensures !(snap.mode == Slideshow && now >= old(nextSlideAt)) ==> currentSlide == old(currentSlide)
      ensures currentSlide == old(currentSlide) || currentSlide == "" || currentSlide in slides
    {
      var _ := RenderNowPlaying(snap, coverExists, renderOk);
      ghost var rendered := View();
      var _ := AdvanceSlide(snap.mode, now, slides, onDisk, loadOk);
      assert View() == rendered.(currentSlide := currentSlide, nextSlideAt := nextSlideAt);
      NoteMode(snap.mode);
      FrameKeepsNoStaleFrame(old(View()), snap, coverExists, renderOk);
    }
  }
}
