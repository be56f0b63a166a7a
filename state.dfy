/** The shared `AppState` record of auraframe/state.py, which the recognizer
    thread and the display loop both update in place. */
module State {
  /** The three display modes; the source only ever stores these strings. */
  datatype Mode = NowPlaying | Listening | Slideshow

  /** `COVER_PATH`: where downloaded artwork is written (the data/cache
      directory next to the package). */
  const CoverPath: string := "data/cache/cover.jpg"

  /** The fields of an `AppState`, as a value. */
  datatype StateView = StateView(
    listeningEnabled: bool, mode: Mode,
    title: string, artist: string, album: string, year: string, coverUrl: string, coverPath: string,
    lastUpdateTs: real, lastMatchTs: real)

  /** The defaults of a fresh `AppState`. Timestamps of 0.0 mean "never". */
  const InitialView: StateView :=
    StateView(true, Listening, "", "", "", "", "", CoverPath, 0.0, 0.0)

  class AppState {
    var listeningEnabled: bool
    var mode: Mode
    var title: string
    var artist: string
    var album: string
    var year: string
    var coverUrl: string
    var coverPath: string
    var lastUpdateTs: real
    var lastMatchTs: real

    function View(): StateView
      reads this
    {
      StateView(listeningEnabled, mode, title, artist, album, year, coverUrl, coverPath,
                lastUpdateTs, lastMatchTs)
    }

    /** A fresh state: listening on, in listening mode, nothing displayed,
        the cover at `COVER_PATH`, and no update or match yet. */
    constructor ()
      ensures listeningEnabled && mode == Listening
      ensures title == "" && artist == "" && album == "" && year == "" && coverUrl == ""
      ensures coverPath == CoverPath
      ensures lastUpdateTs == 0.0 && lastMatchTs == 0.0
      ensures View() == InitialView
    {
      listeningEnabled := true;
      mode := Listening;
      title, artist, album, year, coverUrl := "", "", "", "", "";
      coverPath := CoverPath;
      lastUpdateTs, lastMatchTs := 0.0, 0.0;
    }
  }
}
