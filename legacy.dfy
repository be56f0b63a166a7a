/** The older single-file program auraframe.py, side by side with the package:
    its parser (no year, an album scan that stops at the first "album" item of
    a section), its shared state (no year field), its recognizer cycle
    (no release session: every match overwrites the display; a failure drops
    to listening without the idle timer) and its listening toggle. */
module Legacy {
  import opened Optional
  import opened Text
  import opened PyJson
  import opened State
  import Audio
  import Recognizer
  import App

  // ---------------------------------------------------------------------------
  // extract_track_info (auraframe.py)
  // ---------------------------------------------------------------------------

  /** No track, an exception, or `(title, artist, album, cover_url)`. */
  datatype Extracted =
    | NoTrack
    | Raised
    | Track(title: Json, artist: Json, album: Json, coverUrl: Json)

  /** The inner loop over one section's metadata: None when an item raises,
      Some(None) when no item is titled "album", else the text of the first
      one (the loop breaks there). */
  function SectionAlbum(items: seq<Json>): (r: Option<Option<Json>>)
    decreases |items|
  {
    if items == [] then Some(None)
    else if !items[0].JObj? then SectionAlbum(items[1..])
    else match Audio.TitleKey(items[0])
      case None => None
      case Some(key) => if key == "album" then Some(Some(Get(items[0], "text"))) else SectionAlbum(items[1..])
  }

  /** The outer loop: each section's first "album" item replaces the album,
      and the scan stops once the album is truthy. */
  function ScanAlbum(sections: seq<Json>, album: Json): Option<Json>
    decreases |sections|
  {
    if sections == [] then Some(album)
    else if !sections[0].JObj? then ScanAlbum(sections[1..], album)
    else match LoopItems(Get(sections[0], "metadata"))
      case None => None
      case Some(items) =>
        match SectionAlbum(items)
        case None => None
        case Some(a) =>
          var album' := if a.Some? then a.value else album;
          if IsTruthy(album') then Some(album') else ScanAlbum(sections[1..], album')
  }

  /** What the legacy `extract_track_info` returns. */
  function ExtractSpec(res: Json): Extracted {
    if !res.JObj? || !Get(res, "track").JObj? then NoTrack
    else
      var track := Get(res, "track");
      var title := Or(Get(track, "title"), JStr(""));
      var artist := Or(Get(track, "subtitle"), JStr(""));
      var images := Or(Get(track, "images"), JObj(map[]));
      if !images.JObj? then Raised
      else match LoopItems(Get(track, "sections"))
        case None => Raised
        case Some(sections) =>
          match ScanAlbum(sections, JNull)
          case None => Raised
          case Some(album) =>
            if !IsTruthy(title) && !IsTruthy(artist) then NoTrack
            else Track(title, artist, album, Audio.CoverOf(images))
  }

  /** The legacy album scan with its two breaks. */
  method ScanSectionsForAlbum(sections: seq<Json>) returns (r: Option<Json>)
    ensures r == ScanAlbum(sections, JNull)
  {
    var album := JNull;
    var i := 0;
    while i < |sections|
      invariant 0 <= i <= |sections|
      invariant ScanAlbum(sections, JNull) == ScanAlbum(sections[i..], album)
      decreases |sections| - i
    {
      var s := sections[i];
      assert sections[i..][1..] == sections[i + 1..];
      if !s.JObj? {
        i := i + 1;
        continue;
      }
      var metadata := LoopItems(Get(s, "metadata"));
      if metadata.None? {
        return None;
      }
      var found := SectionAlbumLoop(metadata.value);
      if found.None? {
        return None;
      }
      if found.value.Some? {
        album := found.value.value;
      }
      if IsTruthy(album) {
        return Some(album);
      }
      i := i + 1;
    }
    return Some(album);
  }

  /** The inner loop over one section's metadata, which breaks at the first
      "album" item. */
  method SectionAlbumLoop(items: seq<Json>) returns (r: Option<Option<Json>>)
    ensures r == SectionAlbum(items)
  {
    var j := 0;
    while j < |items|
      invariant 0 <= j <= |items|
      invariant SectionAlbum(items) == SectionAlbum(items[j..])
      decreases |items| - j
    {
      var item := items[j];
      assert items[j..][1..] == items[j + 1..];
      if item.JObj? {
        var key := Audio.TitleKey(item);
        if key.None? {
          return None;
        }
        if key.value == "album" {
          return Some(Some(Get(item, "text")));
        }
      }
      j := j + 1;
    }
    return Some(None);
  }

  /** The legacy `extract_track_info`. */
  method ExtractTrackInfo(res: Json) returns (r: Extracted)
    ensures r == ExtractSpec(res)
  {
    if !res.JObj? {
      return NoTrack;
    }
    var track := Get(res, "track");
    if !track.JObj? {
      return NoTrack;
    }
    var title := Or(Get(track, "title"), JStr(""));
    var artist := Or(Get(track, "subtitle"), JStr(""));
    var images := Or(Get(track, "images"), JObj(map[]));
    if !images.JObj? {
      return Raised;
    }
    var coverUrl := Audio.CoverOf(images);
    var sections := LoopItems(Get(track, "sections"));
    if sections.None? {
      return Raised;
    }
    var album := ScanSectionsForAlbum(sections.value);
    if album.None? {
      return Raised;
    }
    if !IsTruthy(title) && !IsTruthy(artist) {
      return NoTrack;
    }
    return Track(title, artist, album.value, coverUrl);
  }

  /** Both parsers reject the same non-dict results, and when both find a
      track they agree on title, artist and cover. */
  lemma ParsersAgreeOnFields(res: Json)
    ensures !res.JObj? || !Get(res, "track").JObj? ==> ExtractSpec(res) == NoTrack && Audio.ExtractSpec(res) == Audio.NoTrack
    ensures ExtractSpec(res).Track? && Audio.ExtractSpec(res).Track? ==>
              var l, n := ExtractSpec(res), Audio.ExtractSpec(res);
              l.title == n.title && l.artist == n.artist && l.coverUrl == n.coverUrl
  {
  }

  /** Within a section the legacy scan takes the first "album" item even when
      its text is empty; later sections are still searched. */
  lemma {:induction false} SectionAlbumFirst(items: seq<Json>, k: nat)
    requires k < |items| && Audio.IsAlbumItem(items[k])
    requires forall j :: 0 <= j < k ==> PassedOver(items[j])
    ensures SectionAlbum(items) == Some(Some(Get(items[k], "text")))
    decreases k
  {
    if k == 0 {
      SectionAlbumHit(items);
    } else {
      var rest := items[1..];
      assert PassedOver(items[0]);
      SectionAlbumSkip(items);
      forall j | 0 <= j < k - 1
        ensures PassedOver(rest[j])
      {
        assert rest[j] == items[j + 1];
      }
      SectionAlbumFirst(rest, k - 1);
    }
  }

  /** An item the section scan passes over: not a dict, or a dict whose
      title is a string other than "album". */
  predicate PassedOver(item: Json) {
    !item.JObj? || (Audio.TitleKey(item).Some? && Audio.TitleKey(item) != Some("album"))
  }

  /** A leading "album" item ends the section's scan with its text. */
  lemma SectionAlbumHit(items: seq<Json>)
    requires items != [] && Audio.IsAlbumItem(items[0])
    ensures SectionAlbum(items) == Some(Some(Get(items[0], "text")))
  {
  }

  /** An item that is not a dict, or whose title is not "album", is passed over. */
  lemma SectionAlbumSkip(items: seq<Json>)
    requires items != [] && PassedOver(items[0])
    ensures SectionAlbum(items) == SectionAlbum(items[1..])
  {
  }

  /** Where the parsers differ: in a section whose first "album" item has an
      empty text and whose second a truthy one, the legacy scan ends with the
      empty album, while the package's scan goes on to the second text. */
  lemma AlbumScansDiffer(first: Json, second: Json)
    requires Audio.IsAlbumItem(first) && Audio.IsAlbumItem(second)
    requires Get(first, "text") == JStr("") && IsTruthy(Get(second, "text"))
    ensures var sections := [JObj(map["metadata" := JArr([first, second])])];
            ScanAlbum(sections, JNull) == Some(JStr(""))
            && Audio.ScanSections(sections, Audio.Found(JNull, JNull)).Some?
            && Audio.ScanSections(sections, Audio.Found(JNull, JNull)).value.album == Get(second, "text")
  {
    LegacyStopsAtEmpty(first, second);
    PackageSkipsEmpty(first, second);
  }

  lemma LegacyStopsAtEmpty(first: Json, second: Json)
    requires Audio.IsAlbumItem(first) && Get(first, "text") == JStr("")
    ensures ScanAlbum([JObj(map["metadata" := JArr([first, second])])], JNull) == Some(JStr(""))
  {
    var items := [first, second];
    var section := JObj(map["metadata" := JArr(items)]);
    assert items[0] == first;
    SectionAlbumHit(items);
    assert Get(section, "metadata") == JArr(items);
    LegacyOneSection(section, items);
  }

  /** A single section whose items end the scan with a falsy album text. */
  lemma LegacyOneSection(section: Json, items: seq<Json>)
    requires section.JObj? && Get(section, "metadata") == JArr(items)
    requires SectionAlbum(items) == Some(Some(JStr("")))
    ensures ScanAlbum([section], JNull) == Some(JStr(""))
  {
    assert [section][0] == section && [section][1..] == [];
  }

  lemma PackageSkipsEmpty(first: Json, second: Json)
    requires Audio.IsAlbumItem(first) && Audio.IsAlbumItem(second)
    requires Get(first, "text") == JStr("") && IsTruthy(Get(second, "text"))
    ensures var sections := [JObj(map["metadata" := JArr([first, second])])];
            Audio.ScanSections(sections, Audio.Found(JNull, JNull)).Some?
            && Audio.ScanSections(sections, Audio.Found(JNull, JNull)).value.album == Get(second, "text")
  {
    var items := [first, second];
    var section := JObj(map["metadata" := JArr(items)]);
    var f0 := Audio.Found(JNull, JNull);
    Audio.ScanItemAlbum(first, f0);
    var f1 := Audio.ScanItem(first, f0).value;
    Audio.ScanItemAlbum(second, f1);
    var f2 := Audio.ScanItem(second, f1).value;
    assert items[0] == first && items[1..] == [second];
    Audio.ScanItemsStep(items, f0);
    Audio.ScanItemsStep([second], f1);
    assert [second][0] == second && [second][1..] == [];
    assert Audio.ScanItems([], f2) == Some(f2);
    assert Get(section, "metadata") == JArr(items);
    Audio.ScanOneSection(section, f0);
  }

  // ---------------------------------------------------------------------------
  // AppState and the recognizer cycle (auraframe.py)
  // ---------------------------------------------------------------------------

  /** The legacy `AppState` fields: those of the package's state without `year`. */
  datatype LegacyView = LegacyView(
    listeningEnabled: bool, mode: Mode,
    title: string, artist: string, album: string, coverUrl: string, coverPath: string,
    lastUpdateTs: real, lastMatchTs: real)

  const InitialLegacyView: LegacyView :=
    LegacyView(true, Listening, "", "", "", "", CoverPath, 0.0, 0.0)

  /** The package's state seen through the legacy fields. */
  function ToLegacy(v: StateView): (l: LegacyView)
    ensures l.listeningEnabled == v.listeningEnabled && l.mode == v.mode
    ensures l.lastUpdateTs == v.lastUpdateTs && l.lastMatchTs == v.lastMatchTs
  {
    LegacyView(v.listeningEnabled, v.mode, v.title, v.artist, v.album, v.coverUrl, v.coverPath,
               v.lastUpdateTs, v.lastMatchTs)
  }

  class LegacyAppState {
    var listeningEnabled: bool
    var mode: Mode
    var title: string
    var artist: string
    var album: string
    var coverUrl: string
    var coverPath: string
    var lastUpdateTs: real
    var lastMatchTs: real

    function View(): LegacyView
      reads this
    {
      LegacyView(listeningEnabled, mode, title, artist, album, coverUrl, coverPath, lastUpdateTs, lastMatchTs)
    }

    /** The defaults, the same as the package's apart from the missing year. */
    constructor ()
      ensures View() == InitialLegacyView && View() == ToLegacy(InitialView)
    {
      listeningEnabled := true;
      mode := Listening;
      title, artist, album, coverUrl := "", "", "", "";
      coverPath := CoverPath;
      lastUpdateTs, lastMatchTs := 0.0, 0.0;
    }
  }

  /** What the legacy cycle saw: a track (with absent album and cover read
      as ""), nothing, or an exception. */
  datatype Outcome = Matched(title: string, artist: string, album: string, coverUrl: string) | NoMatch | Failed

  /** A match overwrites the display whatever was shown, switches to
      now-playing and stamps both times; the cover path is written only after
      a download, and only ever to `COVER_PATH`. */
  function AfterMatch(v: LegacyView, title: string, artist: string, album: string, coverUrl: string,
                      downloadOk: bool, now: real): LegacyView {
    var artOk := coverUrl != "" && coverUrl != v.coverUrl && downloadOk;
    v.(title := title, artist := artist, album := album, coverUrl := coverUrl,
       coverPath := if artOk then CoverPath else v.coverPath,
       lastMatchTs := now, mode := NowPlaying, lastUpdateTs := now)
  }

  /** No match: the idle timer starts at the first miss; at the limit the
      slideshow, before it the listening screen; the update time moves only
      with the mode. */
  function AfterNoMatch(v: LegacyView, idleToSlideshow: real, now: real): LegacyView {
    var lm := if v.lastMatchTs == 0.0 then now else v.lastMatchTs;
    var m := if now - lm >= idleToSlideshow then Slideshow else Listening;
    v.(lastMatchTs := lm, mode := m, lastUpdateTs := if m != v.mode then now else v.lastUpdateTs)
  }

  /** An exception: back to the listening screen, timer untouched; the update
      time is a fresh clock reading `failNow`. */
  function AfterFailure(v: LegacyView, failNow: real): LegacyView {
    if v.mode != Listening then v.(mode := Listening, lastUpdateTs := failNow) else v
  }

  /** One legacy cycle: nothing while listening is off. */
  function CycleSpec(v: LegacyView, idleToSlideshow: real, now: real, failNow: real,
                     outcome: Outcome, downloadOk: bool): LegacyView {
    if !v.listeningEnabled then v
    else match outcome
      case Matched(title, artist, album, coverUrl) => AfterMatch(v, title, artist, album, coverUrl, downloadOk, now)
      case NoMatch => AfterNoMatch(v, idleToSlideshow, now)
      case Failed => AfterFailure(v, failNow)
  }

  class LegacyRecognizer {
    const state: LegacyAppState
    const idleToSlideshow: real
    var stopRequested: bool

    constructor (state: LegacyAppState, idleToSlideshow: real)
      ensures this.state == state && this.idleToSlideshow == idleToSlideshow && !stopRequested
    {
      this.state := state;
      this.idleToSlideshow := idleToSlideshow;
      stopRequested := false;
    }

    /** The body of one legacy `run` iteration, before its sleep. */
    method Cycle(now: real, failNow: real, outcome: Outcome, downloadOk: bool)
      modifies state
      ensures state.View() == CycleSpec(old(state.View()), idleToSlideshow, now, failNow, outcome, downloadOk)
    {
      if !state.listeningEnabled {
        return;
      }
      match outcome {
        case Matched(title, artist, album, coverUrl) =>
          var artOk := false;
          var prevUrl := state.coverUrl;
          if coverUrl != "" && coverUrl != prevUrl {
            artOk := downloadOk;
          }
          state.title := title;
          state.artist := artist;
          state.album := album;
          state.coverUrl := coverUrl;
          if artOk {
            state.coverPath := CoverPath;
          }
          state.lastMatchTs := now;
          state.mode := NowPlaying;
          state.lastUpdateTs := now;
        case NoMatch =>
          if state.lastMatchTs == 0.0 {
            state.lastMatchTs := now;
          }
          if now - state.lastMatchTs >= idleToSlideshow {
            if state.mode != Slideshow {
              state.mode := Slideshow;
              state.lastUpdateTs := now;
            }
          } else {
            if state.mode != Listening {
              state.mode := Listening;
              state.lastUpdateTs := now;
            }
          }
        case Failed =>
          if state.mode != Listening {
            state.mode := Listening;
            state.lastUpdateTs := failNow;
          }
      }
    }
  }

  /** The cover path never leaves `COVER_PATH`. */
  lemma CoverPathFixed(v: LegacyView, idleToSlideshow: real, now: real, failNow: real,
                       outcome: Outcome, downloadOk: bool)
    requires v.coverPath == CoverPath
    ensures CycleSpec(v, idleToSlideshow, now, failNow, outcome, downloadOk).coverPath == CoverPath
  {
  }

  /** The legacy display never stays on now-playing after a cycle without a
      match, where the package keeps a known track up until the stale limit. */
  lemma LegacyLeavesNowPlaying(v: StateView, cfg: Recognizer.Config, now: real, failNow: real)
    requires v.listeningEnabled && v.mode == NowPlaying && v.title != ""
    requires v.lastMatchTs != 0.0 && now - v.lastMatchTs < cfg.staleTrackToSlideshow
    ensures CycleSpec(ToLegacy(v), cfg.idleToSlideshow, now, failNow, NoMatch, false).mode != NowPlaying
    ensures CycleSpec(ToLegacy(v), cfg.idleToSlideshow, now, failNow, Failed, false).mode == Listening
    ensures Recognizer.AfterIdle(v, now, cfg).mode == NowPlaying
  {
  }

  /** A legacy failure ignores the idle timer: even past the limit it shows
      the listening screen, where a no-match would show the slideshow. */
  lemma FailureIgnoresTimer(v: LegacyView, idleToSlideshow: real, now: real, failNow: real)
    requires v.listeningEnabled && v.lastMatchTs != 0.0 && now - v.lastMatchTs >= idleToSlideshow
    ensures CycleSpec(v, idleToSlideshow, now, failNow, Failed, false).mode == Listening
    ensures CycleSpec(v, idleToSlideshow, now, failNow, Failed, false).lastMatchTs == v.lastMatchTs
    ensures CycleSpec(v, idleToSlideshow, now, failNow, NoMatch, false).mode == Slideshow
  {
  }

  /** Hearing the track already shown: the legacy cycle moves the update time
      (so the display rebuilds), the package's leaves it. */
  lemma RepeatMatchRestamps(v: StateView, info: Recognizer.TrackInfo, artOk: bool, downloadOk: bool, now: real)
    requires v.listeningEnabled && v.mode == NowPlaying && v.lastUpdateTs != now
    requires !Recognizer.DisplayChanges(v, info)
    ensures CycleSpec(ToLegacy(v), 0.0, now, now, Matched(info.title, info.artist, info.album, info.coverUrl),
                      downloadOk).lastUpdateTs == now
    ensures Recognizer.AfterMatch(v, info, artOk, now).lastUpdateTs == v.lastUpdateTs
  {
  }

  /** The legacy toggle is the package's toggle on the legacy fields. */
  function ToggleSpec(v: LegacyView, now: real): LegacyView {
    if v.listeningEnabled then v.(listeningEnabled := false, mode := Slideshow, lastUpdateTs := now)
    else v.(listeningEnabled := true, mode := Listening, lastMatchTs := 0.0, lastUpdateTs := now)
  }

  /** The legacy toggle in `main`. */
  method Toggle(state: LegacyAppState, now: real)
    modifies state
    ensures state.View() == ToggleSpec(old(state.View()), now)
  {
    state.listeningEnabled := !state.listeningEnabled;
    if !state.listeningEnabled {
      state.mode := Slideshow;
      state.lastUpdateTs := now;
    } else {
      state.mode := Listening;
      state.lastMatchTs := 0.0;
      state.lastUpdateTs := now;
    }
  }

  /** Both toggles do the same to the fields they share. */
  lemma TogglesAgree(v: StateView, now: real)
    ensures ToLegacy(App.ToggleSpec(v, now)) == ToggleSpec(ToLegacy(v), now)
  {
  }
}
