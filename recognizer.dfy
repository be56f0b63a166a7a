/** One poll cycle of `RecognizerThread.run` (auraframe/recognizer.py): the
    release-resolution session that allows one upgrade per track, the write of
    the displayed track into the shared state, the no-match and failure mode
    transitions with their idle and stale timers, and the sliced sleep between
    cycles. Recognition, resolution and the artwork download are inputs. */
module Recognizer {
  import opened Optional
  import opened Canonical
  import opened State

  /** The timing constants the cycle reads. */
  datatype Config = Config(
    idleToSlideshow: real,        // IDLE_TO_SLIDESHOW_S
    staleTrackToSlideshow: real,  // STALE_TRACK_TO_SLIDESHOW_S
    upgradeWindow: real,          // RELEASE_UPGRADE_WINDOW_S
    recognizeEvery: real)         // RECOGNIZE_EVERY_S

  /** The recognised `(title, artist, album, year, cover_url)`, with an absent
      value read as "" (every use of these goes through `or ""`). */
  datatype TrackInfo = TrackInfo(title: string, artist: string, album: string, year: string, coverUrl: string)

  /** What `recognize_track` gave this cycle: a track, nothing, or an exception. */
  datatype Outcome = Matched(info: TrackInfo) | NoMatch | Failed

  /** `_current_choice_key/_score/_ts/_upgraded`. */
  datatype Session = Session(key: string, score: Option<real>, ts: real, upgraded: bool)

  const InitialSession: Session := Session("", None, 0.0, false)

  /** `x or fallback` on strings. */
  function OrElse(x: string, fallback: string): string {
    if x != "" then x else fallback
  }

  /** The resolved release as a dict: the falsy `{}` reads every field as "". */
  function Fields(best: Option<Release>): Release {
    if best.Some? then best.value else Release("", "", "", "", "", "")
  }

  /** The session key: the resolved artist and title, falling back to the recognised ones. */
  function ChoiceKey(best: Option<Release>, info: TrackInfo): string {
    MakeKey(OrElse(Fields(best).artist, info.artist), OrElse(Fields(best).title, info.title))
  }

  /** A new key starts a new session: no score yet, started now, no upgrade used. */
  function Rekey(s: Session, key: string, now: real): (r: Session)
    ensures r.key == key
    ensures key != s.key ==> r.score.None? && r.ts == now && !r.upgraded
    ensures key == s.key ==> r == s
  {
    if key != s.key then Session(key, None, now, false) else s
  }

  /** The outcome of the accept/upgrade rule for one resolved result. */
  datatype Decision = Decision(accepted: bool, session: Session)

  /** The first result of a session is accepted; a later one only when it
      scores strictly higher, arrives within the upgrade window of the
      session's timestamp, and no upgrade has been used. */
  function Decide(s: Session, key: string, score: real, now: real, window: real): (d: Decision)
    ensures d.session.key == key
    ensures d.accepted ==> d.session.score == Some(score) && d.session.ts == now
  {
    var r := Rekey(s, key, now);
    if r.score.None? then Decision(true, r.(score := Some(score), ts := now))
    else if score > r.score.value && now - r.ts <= window && !r.upgraded then
      Decision(true, r.(score := Some(score), ts := now, upgraded := true))
    else Decision(false, r)
  }

  /** The values the match path puts on display: the resolved fields with
      the recognised ones as fallback when accepted, else what is shown now. */
  function Shown(v: StateView, accepted: bool, best: Option<Release>, info: TrackInfo): TrackInfo {
    var b := Fields(best);
    if accepted then
      TrackInfo(OrElse(b.title, info.title), OrElse(b.artist, info.artist), OrElse(b.album, info.album),
                OrElse(b.year, info.year), OrElse(b.coverUrl, info.coverUrl))
    else TrackInfo(v.title, v.artist, v.album, v.year, v.coverUrl)
  }

  /** Artwork is fetched only for a non-empty cover URL that differs from the displayed one. */
  predicate Fetches(v: StateView, shown: TrackInfo) {
    shown.coverUrl != "" && shown.coverUrl != v.coverUrl
  }

  /** Some displayed field differs, or the mode was not "nowplaying". */
  predicate DisplayChanges(v: StateView, shown: TrackInfo) {
    shown.title != v.title || shown.artist != v.artist || shown.album != v.album
    || shown.year != v.year || shown.coverUrl != v.coverUrl || v.mode != NowPlaying
  }

  /** The state after a match. */
  function AfterMatch(v: StateView, shown: TrackInfo, artOk: bool, now: real): (w: StateView)
    ensures w.lastMatchTs == now && w.listeningEnabled == v.listeningEnabled
    ensures DisplayChanges(v, shown) ==>
              w.mode == NowPlaying && w.lastUpdateTs == now
              && w.title == shown.title && w.artist == shown.artist && w.album == shown.album
              && w.year == shown.year && w.coverUrl == shown.coverUrl
              && w.coverPath == (if artOk then CoverPath else v.coverPath)
    ensures !DisplayChanges(v, shown) ==> w == v.(lastMatchTs := now)
  {
    var u := if DisplayChanges(v, shown) then
      v.(title := shown.title, artist := shown.artist, album := shown.album, year := shown.year,
         coverUrl := shown.coverUrl, coverPath := if artOk then CoverPath else v.coverPath,
         mode := NowPlaying, lastUpdateTs := now)
    else v;
    u.(lastMatchTs := now)
  }

  /** The mode the no-match and failure paths settle on, given the first-match time `lm`. */
  function IdleMode(v: StateView, lm: real, now: real, cfg: Config): Mode {
    var known := v.title != "" || v.artist != "";
    var limit := if known then cfg.staleTrackToSlideshow else cfg.idleToSlideshow;
    if now - lm >= limit then Slideshow
    else if v.mode == NowPlaying || known then NowPlaying
    else Listening
  }

  /** The state after a cycle without a match. */
  function AfterIdle(v: StateView, now: real, cfg: Config): (w: StateView)
    ensures w.lastMatchTs == (if v.lastMatchTs == 0.0 then now else v.lastMatchTs)
    ensures w.mode == IdleMode(v, w.lastMatchTs, now, cfg)
    ensures w.lastUpdateTs == (if w.mode != v.mode then now else v.lastUpdateTs)
    ensures w == v.(lastMatchTs := w.lastMatchTs, mode := w.mode, lastUpdateTs := w.lastUpdateTs)
  {
    var lm := if v.lastMatchTs == 0.0 then now else v.lastMatchTs;
    var m := IdleMode(v, lm, now, cfg);
    v.(lastMatchTs := lm, mode := m, lastUpdateTs := if m != v.mode then now else v.lastUpdateTs)
  }

  datatype Step = Step(view: StateView, session: Session)

  /** One cycle as a function of the state, the session and this cycle's inputs. */
  function CycleSpec(v: StateView, s: Session, cfg: Config, now: real, outcome: Outcome,
                     best: Option<Release>, bestScore: real, downloadOk: bool): Step
  {
    if !v.listeningEnabled then Step(v, s)
    else match outcome
      case Matched(info) =>
        var d := Decide(s, ChoiceKey(best, info), bestScore, now, cfg.upgradeWindow);
        var shown := Shown(v, d.accepted, best, info);
        var artOk := Fetches(v, shown) && downloadOk;
        Step(AfterMatch(v, shown, artOk, now), d.session)
      case _ => Step(AfterIdle(v, now, cfg), s)
  }

  class RecognizerThread {
    const state: AppState
    const config: Config
    var currentChoiceKey: string
    var currentChoiceScore: Option<real>
    var currentChoiceTs: real
    var currentChoiceUpgraded: bool
    var stopRequested: bool

    function Current(): Session
      reads this
    {
      Session(currentChoiceKey, currentChoiceScore, currentChoiceTs, currentChoiceUpgraded)
    }

    constructor (state: AppState, config: Config)
      ensures this.state == state && this.config == config
      ensures Current() == InitialSession && !stopRequested
    {
      this.state := state;
      this.config := config;
      currentChoiceKey := "";
      currentChoiceScore := None;
      currentChoiceTs := 0.0;
      currentChoiceUpgraded := false;
      stopRequested := false;
    }

    /** `stop`: set the stop flag the loop and the sleep slices check. */
    method Stop()
      modifies this
      ensures stopRequested && Current() == old(Current())
    {
      stopRequested := true;
    }

    /** The body of one iteration of `run`, before the sleep. */
    method Cycle(now: real, outcome: Outcome, best: Option<Release>, bestScore: real, downloadOk: bool)
      modifies this, state
      ensures Step(state.View(), Current())
              == CycleSpec(old(state.View()), old(Current()), config, now, outcome, best, bestScore, downloadOk)
      ensures stopRequested == old(stopRequested)
    {
      if !state.listeningEnabled {
        return;
      }
      if outcome.Matched? {
        var info := outcome.info;
        var accepted := ChooseSession(ChoiceKey(best, info), bestScore, now);
        ShowMatch(now, info, accepted, best, downloadOk);
      } else {
        IdleTransition(now);
      }
    }

    /** The accept/upgrade rule on the session fields. */
    method ChooseSession(key: string, bestScore: real, now: real) returns (accepted: bool)
      modifies this
      ensures Decision(accepted, Current()) == Decide(old(Current()), key, bestScore, now, config.upgradeWindow)
      ensures stopRequested == old(stopRequested)
    {
      if key != currentChoiceKey {
        currentChoiceKey := key;
        currentChoiceScore := None;
        currentChoiceTs := now;
        currentChoiceUpgraded := false;
      }
      accepted := currentChoiceScore.None?;
      if !accepted {
        var isBetter := bestScore > currentChoiceScore.value;
        var withinWindow := now - currentChoiceTs <= config.upgradeWindow;
        if isBetter && withinWindow && !currentChoiceUpgraded {
          accepted := true;
          currentChoiceUpgraded := true;
        }
      }
      if accepted {
        currentChoiceScore := Some(bestScore);
        currentChoiceTs := now;
      }
    }

    /** The display write of the match path. */
    method ShowMatch(now: real, info: TrackInfo, accepted: bool, best: Option<Release>, downloadOk: bool)
      modifies state
      ensures var shown := Shown(old(state.View()), accepted, best, info);
              state.View() == AfterMatch(old(state.View()), shown, Fetches(old(state.View()), shown) && downloadOk, now)
    {
      ghost var v := state.View();
      var artOk := false;
      var prevUrl, prevTitle, prevArtist, prevAlbum, prevYear, prevMode :=
        state.coverUrl, state.title, state.artist, state.album, state.year, state.mode;
      var title, artist, album, year, coverUrl;
      if accepted {
        var b := Fields(best);
        title := OrElse(b.title, info.title);
        artist := OrElse(b.artist, info.artist);
        album := OrElse(b.album, info.album);
        year := OrElse(b.year, info.year);
        coverUrl := OrElse(b.coverUrl, info.coverUrl);
      } else {
        title, artist, album, year, coverUrl := prevTitle, prevArtist, prevAlbum, prevYear, prevUrl;
      }
      var shown := TrackInfo(title, artist, album, year, coverUrl);
      assert shown == Shown(v, accepted, best, info);
      if coverUrl != "" && coverUrl != prevUrl {
        artOk := downloadOk;
      }
      assert artOk == (Fetches(v, shown) && downloadOk);
      var contentChanged := title != prevTitle || artist != prevArtist || album != prevAlbum
                            || year != prevYear || coverUrl != prevUrl;
      var modeChanged := prevMode != NowPlaying;
      WriteDisplay(v, shown, contentChanged || modeChanged, artOk, now);
    }

    /** The locked write: the displayed fields, the cover path after a
        successful fetch, the mode and the update time only when something
        changed; the match time always. */
    method WriteDisplay(ghost v: StateView, shown: TrackInfo, changed: bool, artOk: bool, now: real)
      requires state.View() == v && changed == DisplayChanges(v, shown)
      modifies state
      ensures state.View() == AfterMatch(v, shown, artOk, now)
    {
      if changed {
        state.title, state.artist, state.album := shown.title, shown.artist, shown.album;
        state.year, state.coverUrl := shown.year, shown.coverUrl;
        if artOk {
          state.coverPath := CoverPath;
        }
        state.mode := NowPlaying;
        state.lastUpdateTs := now;
      }
      state.lastMatchTs := now;
    }

    /** The shared no-match / exception path. */
    method IdleTransition(now: real)
      modifies state
      ensures state.View() == AfterIdle(old(state.View()), now, config)
    {
      var hasKnownTrack := state.title != "" || state.artist != "";
      var shouldKeepNowPlaying := state.mode == NowPlaying || hasKnownTrack;
      if state.lastMatchTs == 0.0 {
        state.lastMatchTs := now;
      }
      var idleLimit := if hasKnownTrack then config.staleTrackToSlideshow else config.idleToSlideshow;
      if now - state.lastMatchTs >= idleLimit {
        if state.mode != Slideshow {
          state.mode := Slideshow;
          state.lastUpdateTs := now;
        }
      } else if shouldKeepNowPlaying {
        if state.mode != NowPlaying {
          state.mode := NowPlaying;
          state.lastUpdateTs := now;
        }
      } else {
        if state.mode != Listening {
          state.mode := Listening;
          state.lastUpdateTs := now;
        }
      }
    }

    /** The sleep after a cycle: `int(max(1.0, RECOGNIZE_EVERY_S - elapsed) * 10)`
        slices of 0.1 s, checking the stop flag before each. Another thread's
        `Stop` becomes visible before slice `stopAt`. */
    method SleepSlices(elapsed: real, stopAt: nat) returns (slept: nat)
      modifies this
      ensures Current() == old(Current())
      ensures stopRequested <==> old(stopRequested) || stopAt < SliceCount(config, elapsed)
      ensures slept == if old(stopRequested) then 0
                       else if stopAt < SliceCount(config, elapsed) then stopAt
                       else SliceCount(config, elapsed)
    {
      var n := SliceCount(config, elapsed);
      slept := 0;
      for i := 0 to n
        invariant slept == i
        invariant old(stopRequested) ==> i == 0
        invariant stopRequested == old(stopRequested) && i <= stopAt
        invariant Current() == old(Current())
      {
        if i == stopAt {
          stopRequested := true;
        }
        if stopRequested {
          break;
        }
        slept := slept + 1;
      }
    }
  }

  /** The number of 0.1 s sleep slices: at least ten. */
  function SliceCount(cfg: Config, elapsed: real): (n: nat)
    ensures n >= 10
  {
    var sleepFor := if 1.0 >= cfg.recognizeEvery - elapsed then 1.0 else cfg.recognizeEvery - elapsed;
    (sleepFor * 10.0).Floor
  }
  // ---------------------------------------------------------------------------
  // Properties of the cycle
  // ---------------------------------------------------------------------------

  /** A track is known when its title or its artist is non-empty. */
  predicate Known(v: StateView) {
    v.title != "" || v.artist != ""
  }

  /** The display invariant: "nowplaying" is only shown for a known track,
      and a session that has scored a release is showing a known track. */
  predicate DisplayInv(v: StateView, s: Session) {
    (v.mode == NowPlaying ==> Known(v)) && (s.score.Some? ==> Known(v))
  }

  /** A fresh state and an empty session satisfy the invariant. */
  lemma InitialDisplayInv()
    ensures DisplayInv(InitialView, InitialSession)
  {
  }

  /** Every cycle keeps the invariant, given that a recognised track has a
      title or an artist (the recogniser's parser returns None otherwise). */
  lemma CycleKeepsDisplayInv(v: StateView, s: Session, cfg: Config, now: real, outcome: Outcome,
                             best: Option<Release>, bestScore: real, downloadOk: bool)
    requires DisplayInv(v, s)
    requires outcome.Matched? ==> outcome.info.title != "" || outcome.info.artist != ""
    ensures var st := CycleSpec(v, s, cfg, now, outcome, best, bestScore, downloadOk);
            DisplayInv(st.view, st.session)
  {
    if v.listeningEnabled {
      if outcome.Matched? {
        var info := outcome.info;
        var d := Decide(s, ChoiceKey(best, info), bestScore, now, cfg.upgradeWindow);
        RejectKeepsSession(s, ChoiceKey(best, info), bestScore, now, cfg.upgradeWindow);
        var shown := Shown(v, d.accepted, best, info);
        ShownKnown(v, d.accepted, best, info);
        AfterMatchKnown(v, shown, Fetches(v, shown) && downloadOk, now);
      } else {
        IdleKeepsDisplayInv(v, s, now, cfg);
      }
    }
  }

  /** A rejected result leaves a session that had already scored. */
  lemma RejectKeepsSession(s: Session, key: string, score: real, now: real, window: real)
    ensures !Decide(s, key, score, now, window).accepted ==>
              Decide(s, key, score, now, window).session == s && s.score.Some?
  {
  }

  /** The shown track is known when an accepted result is known, or when a
      rejected one keeps a known display. */
  lemma ShownKnown(v: StateView, accepted: bool, best: Option<Release>, info: TrackInfo)
    requires accepted ==> info.title != "" || info.artist != ""
    requires !accepted ==> Known(v)
    ensures var shown := Shown(v, accepted, best, info); shown.title != "" || shown.artist != ""
  {
  }

  /** After a match showing a known track, the display holds a known track. */
  lemma AfterMatchKnown(v: StateView, shown: TrackInfo, artOk: bool, now: real)
    requires shown.title != "" || shown.artist != ""
    ensures Known(AfterMatch(v, shown, artOk, now))
  {
  }

  /** An idle cycle keeps the track fields and shows "nowplaying" only when
      it already did or a track is known. */
  lemma IdleKeepsDisplayInv(v: StateView, s: Session, now: real, cfg: Config)
    requires DisplayInv(v, s)
    ensures DisplayInv(AfterIdle(v, now, cfg), s)
  {
  }

  /** With listening disabled a cycle changes neither the state nor the session. */
  lemma DisabledCycleIdle(v: StateView, s: Session, cfg: Config, now: real, outcome: Outcome,
                          best: Option<Release>, bestScore: real, downloadOk: bool)
    requires !v.listeningEnabled
    ensures CycleSpec(v, s, cfg, now, outcome, best, bestScore, downloadOk) == Step(v, s)
  {
  }

  /** The no-match and the exception paths are the same transition. */
  lemma NoMatchLikeFailure(v: StateView, s: Session, cfg: Config, now: real,
                           best: Option<Release>, bestScore: real, downloadOk: bool)
    ensures CycleSpec(v, s, cfg, now, NoMatch, best, bestScore, downloadOk)
         == CycleSpec(v, s, cfg, now, Failed, best, bestScore, downloadOk)
    ensures v.listeningEnabled ==>
              CycleSpec(v, s, cfg, now, NoMatch, best, bestScore, downloadOk) == Step(AfterIdle(v, now, cfg), s)
  {
  }

  /** A result under a new key is always accepted and opens a fresh session. */
  lemma NewKeyAccepted(s: Session, key: string, score: real, now: real, window: real)
    requires key != s.key
    ensures Decide(s, key, score, now, window) == Decision(true, Session(key, Some(score), now, false))
  {
  }

  /** Under the same key, a scored session accepts exactly a strictly better
      result inside the window with the upgrade unused, and then marks the
      upgrade used. */
  lemma UpgradeRule(s: Session, score: real, now: real, window: real)
    requires s.score.Some?
    ensures var d := Decide(s, s.key, score, now, window);
            (d.accepted <==> score > s.score.value && now - s.ts <= window && !s.upgraded)
            && (d.accepted ==> d.session == Session(s.key, Some(score), now, true))
            && (!d.accepted ==> d.session == s)
  {
  }

  /** One resolved result of a sequence of cycles. */
  datatype Resolved = Resolved(key: string, score: real, now: real)

  /** Whether this result is an upgrade: accepted by a session that already had a score. */
  predicate IsUpgrade(s: Session, r: Resolved, window: real) {
    Rekey(s, r.key, r.now).score.Some? && Decide(s, r.key, r.score, r.now, window).accepted
  }

  /** The session after a sequence of results, and the number of upgrades among them. */
  function RunSession(s: Session, rs: seq<Resolved>, window: real): Session
    decreases |rs|
  {
    if rs == [] then s else RunSession(Decide(s, rs[0].key, rs[0].score, rs[0].now, window).session, rs[1..], window)
  }

  function Upgrades(s: Session, rs: seq<Resolved>, window: real): nat
    decreases |rs|
  {
    if rs == [] then 0
    else (if IsUpgrade(s, rs[0], window) then 1 else 0)
         + Upgrades(Decide(s, rs[0].key, rs[0].score, rs[0].now, window).session, rs[1..], window)
  }

  /** At most one upgrade per track: along any run of results for the same
      key, at most one is an upgrade, and none once the session's upgrade is used. */
  lemma {:induction false} AtMostOneUpgrade(s: Session, key: string, rs: seq<Resolved>, window: real)
    requires forall i :: 0 <= i < |rs| ==> rs[i].key == key
    ensures Upgrades(s, rs, window) <= (if s.key == key && s.upgraded then 0 else 1)
    decreases |rs|
  {
    if rs != [] {
      var d := Decide(s, key, rs[0].score, rs[0].now, window);
      assert forall i :: 0 <= i < |rs[1..]| ==> rs[1..][i].key == key;
      AtMostOneUpgrade(d.session, key, rs[1..], window);
      if IsUpgrade(s, rs[0], window) {
        assert d.session.key == key && d.session.upgraded;
      } else if s.key == key && s.upgraded {
        assert d.session.key == key && d.session.upgraded;
      }
    }
  }

  /** A rejected result leaves every displayed field and the cover path as
      they were, so no artwork is fetched; only the mode, the update time
      and the match time can move. */
  lemma RejectedKeepsDisplay(v: StateView, s: Session, cfg: Config, now: real, info: TrackInfo,
                             best: Option<Release>, bestScore: real, downloadOk: bool)
    requires v.listeningEnabled
    requires !Decide(s, ChoiceKey(best, info), bestScore, now, cfg.upgradeWindow).accepted
    ensures var w := CycleSpec(v, s, cfg, now, Matched(info), best, bestScore, downloadOk).view;
            w.title == v.title && w.artist == v.artist && w.album == v.album && w.year == v.year
            && w.coverUrl == v.coverUrl && w.coverPath == v.coverPath && w.lastMatchTs == now
            && (v.mode == NowPlaying ==> w == v.(lastMatchTs := now))
  {
  }

  /** The cover path moves only on a match whose new cover URL was fetched successfully. */
  lemma CoverPathNeedsDownload(v: StateView, s: Session, cfg: Config, now: real, outcome: Outcome,
                               best: Option<Release>, bestScore: real, downloadOk: bool)
    ensures var w := CycleSpec(v, s, cfg, now, outcome, best, bestScore, downloadOk).view;
            w.coverPath != v.coverPath ==>
              downloadOk && outcome.Matched? && w.coverPath == CoverPath && w.coverUrl != v.coverUrl
              && w.coverUrl != ""
  {
  }

  /** Every match stamps the match time; a display write also stamps the update time. */
  lemma MatchStamps(v: StateView, s: Session, cfg: Config, now: real, info: TrackInfo,
                    best: Option<Release>, bestScore: real, downloadOk: bool)
    requires v.listeningEnabled
    ensures var w := CycleSpec(v, s, cfg, now, Matched(info), best, bestScore, downloadOk).view;
            w.lastMatchTs == now && w.mode == NowPlaying
            && (w.lastUpdateTs == now || w.lastUpdateTs == v.lastUpdateTs)
  {
  }

  /** The idle transition settles: applied twice at the same instant it
      changes nothing more. */
  lemma IdleSettles(v: StateView, now: real, cfg: Config)
    ensures AfterIdle(AfterIdle(v, now, cfg), now, cfg) == AfterIdle(v, now, cfg)
  {
    var w := AfterIdle(v, now, cfg);
    assert w.lastMatchTs == 0.0 ==> now == 0.0;
    assert IdleMode(w, w.lastMatchTs, now, cfg) == w.mode;
  }

  /** Hysteresis: once a run of unmatched cycles has switched to the
      slideshow, later unmatched cycles stay there. */
  lemma SlideshowPersists(v: StateView, t: real, t': real, cfg: Config)
    requires t <= t'
    requires AfterIdle(v, t, cfg).mode == Slideshow
    ensures AfterIdle(AfterIdle(v, t, cfg), t', cfg).mode == Slideshow
    ensures AfterIdle(AfterIdle(v, t, cfg), t', cfg).lastUpdateTs == AfterIdle(v, t, cfg).lastUpdateTs
  {
    var w := AfterIdle(v, t, cfg);
    var known := v.title != "" || v.artist != "";
    var limit := if known then cfg.staleTrackToSlideshow else cfg.idleToSlideshow;
    assert t - w.lastMatchTs >= limit;
    if w.lastMatchTs == 0.0 {
      assert t == 0.0 && limit <= 0.0;
    }
  }

  /** The idle limit depends on whether a track is known: a stale track
      waits `STALE_TRACK_TO_SLIDESHOW_S`, an empty display `IDLE_TO_SLIDESHOW_S`. */
  lemma IdleLimitChoice(v: StateView, now: real, cfg: Config)
    requires v.lastMatchTs != 0.0
    ensures var known := v.title != "" || v.artist != "";
            AfterIdle(v, now, cfg).mode == Slideshow
            <==> now - v.lastMatchTs >= (if known then cfg.staleTrackToSlideshow else cfg.idleToSlideshow)
    ensures AfterIdle(v, now, cfg).mode == Listening
            <==> now - v.lastMatchTs < cfg.idleToSlideshow && v.title == "" && v.artist == "" && v.mode != NowPlaying
  {
  }
}
