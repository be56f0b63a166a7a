/** `extract_track_info` of auraframe/audio.py: the defensive parser from
    the recognition service's JSON result to `(title, artist, album, year,
    cover_url)`. The values stay JSON values, as in the source; None is `JNull`. */
module Audio {
  import opened Optional
  import opened Text
  import opened PyJson
  import Canonical

  /** What the parser gives: no track (the source's None), an exception
      (a field of an unexpected type), or the five fields. */
  datatype Extracted =
    | NoTrack
    | Raised
    | Track(title: Json, artist: Json, album: Json, year: Json, coverUrl: Json)

  /** The album and year found so far by the metadata scan. */
  datatype Found = Found(album: Json, year: Json)

  const YearTitles: set<string> := {"released", "release date", "year"}

  /** `(item.get("title") or "").strip().lower()`, or None when the title is a
      truthy non-string (which has no `strip`). */
  function TitleKey(item: Json): (k: Option<string>)
    requires item.JObj?
    ensures !IsTruthy(Get(item, "title")) ==> k == Some("")
    ensures k.None? <==> IsTruthy(Get(item, "title")) && !Get(item, "title").JStr?
  {
    var t := Get(item, "title");
    if !IsTruthy(t) then Some("")
    else if t.JStr? then Some(Lower(Strip(t.s)))
    else None
  }

  /** One metadata item: a non-dict is skipped; an "album" item fills the
      album and a "released" / "release date" / "year" item fills the year,
      each only while still falsy. */
  function ScanItem(item: Json, f: Found): Option<Found> {
    if !item.JObj? then Some(f)
    else match TitleKey(item)
      case None => None
      case Some(key) =>
        var album := if key == "album" && !IsTruthy(f.album) then Get(item, "text") else f.album;
        var year := if key in YearTitles && !IsTruthy(f.year) then Get(item, "text") else f.year;
        Some(Found(album, year))
  }

  /** The inner loop over a section's metadata items; None when an item raises. */
  function ScanItems(items: seq<Json>, f: Found): Option<Found>
    decreases |items|
  {
    if items == [] then Some(f)
    else match ScanItem(items[0], f)
      case None => None
      case Some(g) => ScanItems(items[1..], g)
  }

  /** The outer loop over the sections: non-dict sections are skipped, and the
      scan stops after a section once both album and year are truthy. */
  function ScanSections(sections: seq<Json>, f: Found): Option<Found>
    decreases |sections|
  {
    if sections == [] then Some(f)
    else if !sections[0].JObj? then ScanSections(sections[1..], f)
    else match LoopItems(Get(sections[0], "metadata"))
      case None => None
      case Some(items) =>
        match ScanItems(items, f)
        case None => None
        case Some(g) => if IsTruthy(g.album) && IsTruthy(g.year) then Some(g) else ScanSections(sections[1..], g)
  }

  /** `coverarthq or coverart or background or None` on the images dict. */
  function CoverOf(images: Json): (c: Json)
    requires images.JObj?
    ensures IsTruthy(Get(images, "coverarthq")) ==> c == Get(images, "coverarthq")
    ensures !IsTruthy(Get(images, "coverarthq")) && IsTruthy(Get(images, "coverart")) ==> c == Get(images, "coverart")
    ensures !IsTruthy(Get(images, "coverarthq")) && !IsTruthy(Get(images, "coverart"))
            ==> c == (if IsTruthy(Get(images, "background")) then Get(images, "background") else JNull)
  {
    Or(Or(Or(Get(images, "coverarthq"), Get(images, "coverart")), Get(images, "background")), JNull)
  }

  /** `(19|20)\d{2}` matches at index `j` of `s`. */
  predicate YearAt(s: string, j: int) {
    0 <= j && j + 4 <= |s| && Canonical.IsYear(s[j..j + 4])
  }

  /** The first index at or after `i` where `(19|20)\d{2}` matches. */
  function FindYearFrom(s: string, i: nat): (k: Option<nat>)
    requires i <= |s|
    ensures k.Some? ==> i <= k.value && YearAt(s, k.value)
    ensures forall j :: i <= j && (k.None? || j < k.value) ==> !YearAt(s, j)
    decreases |s| - i
  {
    if i + 4 > |s| then None
    else if Canonical.IsYear(s[i..i + 4]) then Some(i)
    else FindYearFrom(s, i + 1)
  }

  /** `re.search(r"(19|20)\d{2}", y)` gives its match, else `y.strip() or None`. */
  function NormalizeYear(y: string): (r: Json)
    ensures r.JStr? || r == JNull
    ensures FindYearFrom(y, 0).None? ==> r == (if Strip(y) == "" then JNull else JStr(Strip(y)))
  {
    match FindYearFrom(y, 0)
    case Some(k) => JStr(y[k..k + 4])
    case None => if Strip(y) == "" then JNull else JStr(Strip(y))
  }

  /** The metadata scan with its nested loops, early exits and break. */
  method ScanMetadata(sections: seq<Json>) returns (r: Option<Found>)
    ensures r == ScanSections(sections, Found(JNull, JNull))
  {
    var album, year := JNull, JNull;
    var i := 0;
    while i < |sections|
      invariant 0 <= i <= |sections|
      invariant ScanSections(sections, Found(JNull, JNull)) == ScanSections(sections[i..], Found(album, year))
      decreases |sections| - i
    {
      var s := sections[i];
      assert sections[i..][1..] == sections[i + 1..];
      if !s.JObj? {
        i := i + 1;
        continue;
      }
      var metadata := LoopItems(Get(s, "metadata"));
      if metadata.None? {
        return None;
      }
      var items := metadata.value;
      ghost var start := Found(album, year);
      var j := 0;
      while j < |items|
        invariant 0 <= j <= |items|
        invariant ScanItems(items, start) == ScanItems(items[j..], Found(album, year))
        decreases |items| - j
      {
        var item := items[j];
        assert items[j..][1..] == items[j + 1..];
        if !item.JObj? {
          j := j + 1;
          continue;
        }
        var key := TitleKey(item);
        if key.None? {
          return None;
        }
        if key.value == "album" && !IsTruthy(album) {
          album := Get(item, "text");
        }
        if key.value in YearTitles && !IsTruthy(year) {
          year := Get(item, "text");
        }
        j := j + 1;
      }
      if IsTruthy(album) && IsTruthy(year) {
        return Some(Found(album, year));
      }
      i := i + 1;
    }
    return Some(Found(album, year));
  }

  /** `extract_track_info`. */
  method ExtractTrackInfo(res: Json) returns (r: Extracted)
    ensures r == ExtractSpec(res)
  {
    if !res.JObj? {
      return NoTrack;
    }
    var track := Get(res, "track");
    if !track.JObj? {
      return NoTrack;
    }
    var title := Or(Get(track, "title"), JStr(""));
    var artist := Or(Get(track, "subtitle"), JStr(""));
    var images := Or(Get(track, "images"), JObj(map[]));
    if !images.JObj? {
      return Raised;
    }
    var coverUrl := CoverOf(images);
    var sections := LoopItems(Get(track, "sections"));
    if sections.None? {
      return Raised;
    }
    var found := ScanMetadata(sections.value);
    if found.None? {
      return Raised;
    }
    var album, year := found.value.album, found.value.year;
    if !IsTruthy(year) {
      year := Or(Or(Get(track, "release_date"), Get(track, "released")), JNull);
    }
    if year.JStr? {
      year := NormalizeYear(year.s);
    }
    if !IsTruthy(title) && !IsTruthy(artist) {
      return NoTrack;
    }
    return Track(title, artist, album, year, coverUrl);
  }

  /** The year after the release-date fallback and the normaliser. */
  function FinalYear(track: Json, scanned: Json): Json
    requires track.JObj?
  {
    var y := if IsTruthy(scanned) then scanned else Or(Or(Get(track, "release_date"), Get(track, "released")), JNull);
    if y.JStr? then NormalizeYear(y.s) else y
  }

  /** What `extract_track_info` returns, as a function of the result. */
  function ExtractSpec(res: Json): Extracted {
    if !res.JObj? || !Get(res, "track").JObj? then NoTrack
    else
      var track := Get(res, "track");
      var title := Or(Get(track, "title"), JStr(""));
      var artist := Or(Get(track, "subtitle"), JStr(""));
      var images := Or(Get(track, "images"), JObj(map[]));
      if !images.JObj? then Raised
      else match LoopItems(Get(track, "sections"))
        case None => Raised
        case Some(sections) =>
          match ScanSections(sections, Found(JNull, JNull))
          case None => Raised
          case Some(f) =>
            if !IsTruthy(title) && !IsTruthy(artist) then NoTrack
            else Track(title, artist, f.album, FinalYear(track, f.year), CoverOf(images))
  }
  // ---------------------------------------------------------------------------
  // Properties of the parser
  // ---------------------------------------------------------------------------

  /** Anything but a dict result with a dict "track" gives no track. */
  lemma NonDictGivesNoTrack(res: Json)
    requires !res.JObj? || !Get(res, "track").JObj?
    ensures ExtractSpec(res) == NoTrack
  {
  }

  /** A track always has a truthy title or artist; the title is the track's
      "title" and the artist its "subtitle" (or ""), and the cover follows the
      coverarthq, coverart, background priority. */
  lemma TrackFields(res: Json)
    requires ExtractSpec(res).Track?
    ensures var t := ExtractSpec(res);
            var track := Get(res, "track");
            (IsTruthy(t.title) || IsTruthy(t.artist))
            && t.title == Or(Get(track, "title"), JStr(""))
            && t.artist == Or(Get(track, "subtitle"), JStr(""))
            && t.coverUrl == CoverOf(Or(Get(track, "images"), JObj(map[])))
  {
  }

  /** A non-dict truthy "images" value makes the parser raise. */
  lemma BadImagesRaise(res: Json)
    requires res.JObj? && Get(res, "track").JObj?
    requires IsTruthy(Get(Get(res, "track"), "images")) && !Get(Get(res, "track"), "images").JObj?
    ensures ExtractSpec(res) == Raised
  {
  }

  /** Within a section, a truthy album or year is never overwritten by a later item. */
  lemma {:induction false} ItemsKeepTruthy(items: seq<Json>, f: Found)
    requires ScanItems(items, f).Some?
    ensures IsTruthy(f.album) ==> ScanItems(items, f).value.album == f.album
    ensures IsTruthy(f.year) ==> ScanItems(items, f).value.year == f.year
    decreases |items|
  {
    if items != [] {
      var g := ScanItem(items[0], f).value;
      assert IsTruthy(f.album) ==> g.album == f.album;
      assert IsTruthy(f.year) ==> g.year == f.year;
      ItemsKeepTruthy(items[1..], g);
    }
  }

  /** Across sections too, the first truthy album and year found are kept. */
  lemma {:induction false} SectionsKeepTruthy(sections: seq<Json>, f: Found)
    requires ScanSections(sections, f).Some?
    ensures IsTruthy(f.album) ==> ScanSections(sections, f).value.album == f.album
    ensures IsTruthy(f.year) ==> ScanSections(sections, f).value.year == f.year
    decreases |sections|
  {
    if sections != [] && sections[0].JObj? {
      var items := LoopItems(Get(sections[0], "metadata")).value;
      ItemsKeepTruthy(items, f);
      var g := ScanItems(items, f).value;
      if !(IsTruthy(g.album) && IsTruthy(g.year)) {
        SectionsKeepTruthy(sections[1..], g);
      }
    } else if sections != [] {
      SectionsKeepTruthy(sections[1..], f);
    }
  }

  /** An item that names the album. */
  predicate IsAlbumItem(item: Json) {
    item.JObj? && TitleKey(item) == Some("album")
  }

  /** The album is the text of the first "album" item when that text is truthy. */
  lemma {:induction false} FirstAlbumItemWins(items: seq<Json>, f: Found, k: nat)
    requires k < |items| && IsAlbumItem(items[k]) && IsTruthy(Get(items[k], "text"))
    requires forall j :: 0 <= j < k ==> !IsAlbumItem(items[j])
    requires !IsTruthy(f.album)
    requires ScanItems(items, f).Some?
    ensures ScanItems(items, f).value.album == Get(items[k], "text")
    decreases k
  {
    ScanItemsGoesOn(items, f);
    var g := ScanItem(items[0], f).value;
    ScanItemAlbum(items[0], f);
    if k == 0 {
      ItemsKeepTruthy(items[1..], g);
    } else {
      var rest := items[1..];
      NoAlbumItemBefore(items, k);
      assert rest[k - 1] == items[k];
      FirstAlbumItemWins(rest, g, k - 1);
    }
  }

  /** No "album" item before index `k` stays so after dropping the first item. */
  lemma NoAlbumItemBefore(items: seq<Json>, k: nat)
    requires 0 < k < |items|
    requires forall j :: 0 <= j < k ==> !IsAlbumItem(items[j])
    ensures forall j :: 0 <= j < k - 1 ==> !IsAlbumItem(items[1..][j])
  {
    forall j | 0 <= j < k - 1
      ensures !IsAlbumItem(items[1..][j])
    {
      assert items[1..][j] == items[j + 1];
    }
  }

  /** One item sets a falsy album exactly when it is an "album" item. */
  lemma ScanItemAlbum(item: Json, f: Found)
    requires !IsTruthy(f.album) && ScanItem(item, f).Some?
    ensures ScanItem(item, f).value.album == if IsAlbumItem(item) then Get(item, "text") else f.album
  {
  }

  /** A scan of a non-empty list that succeeds got past its first item. */
  lemma ScanItemsGoesOn(items: seq<Json>, f: Found)
    requires items != [] && ScanItems(items, f).Some?
    ensures ScanItem(items[0], f).Some?
    ensures ScanItems(items, f) == ScanItems(items[1..], ScanItem(items[0], f).value)
  {
  }

  /** The scan of a list of items goes on from the first item's result. */
  lemma ScanItemsStep(items: seq<Json>, f: Found)
    requires items != [] && ScanItem(items[0], f).Some?
    ensures ScanItems(items, f) == ScanItems(items[1..], ScanItem(items[0], f).value)
  {
  }

  /** A single section ends the scan with what its items give. */
  lemma ScanOneSection(section: Json, f: Found)
    requires section.JObj? && LoopItems(Get(section, "metadata")).Some?
    ensures ScanSections([section], f) == ScanItems(LoopItems(Get(section, "metadata")).value, f)
  {
    assert [section][1..] == [];
  }

  /** Without a year in the metadata, a string "release_date" is used, normalised. */
  lemma YearFallsBackToReleaseDate(track: Json, scanned: Json, d: string)
    requires track.JObj? && !IsTruthy(scanned)
    requires Get(track, "release_date") == JStr(d) && d != ""
    ensures FinalYear(track, scanned) == NormalizeYear(d)
  {
  }

  /** A year string that contains `(19|20)dd` is replaced by its first such
      four characters. */
  lemma NormalizedYearIsFirstMatch(y: string, k: nat)
    requires YearAt(y, k) && forall j :: 0 <= j < k ==> !YearAt(y, j)
    ensures NormalizeYear(y) == JStr(y[k..k + 4])
  {
    var m := FindYearFrom(y, 0);
    assert m.Some? && m.value == k;
  }
}
