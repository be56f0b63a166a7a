/** The worked example at the bottom of auraframe/canonical.py: a primary
    release whose album is a compilation title ("BD Music Presents Kind of
    Blue - 1959") against the plain "Kind of Blue". */
module CanonicalDemo {
  import opened Text
  import opened Optional
  import opened Canonical
  import opened CanonicalChoice

  const DemoPrimary: Release :=
    Release("So What", "Miles Davis", "BD Music Presents Kind of Blue - 1959", "1959", "", "shazam")

  const DemoAlternate: Release :=
    Release("So What", "Miles Davis", "Kind of Blue", "1959", "", "shazam")

  lemma LowerAppend(a: string, b: string)
    ensures Lower(a + b) == Lower(a) + Lower(b)
  {
  }

  /** Drops no key character, so a run ending before a key character stops inside `x`. */
  lemma {:induction false} DropRunAppend(x: string, y: string)
    requires x != [] && IsKeyChar(x[|x| - 1])
    ensures DropRun(x + y) == DropRun(x) + y
    ensures DropRun(x) != [] && IsKeyChar(DropRun(x)[|DropRun(x)| - 1])
    decreases |x|
  {
    var s := x + y;
    assert s[0] == x[0];
    if IsKeyChar(x[0]) {
      DropRunStops(s);
      DropRunStops(x);
    } else {
      var t := x[1..];
      assert t != [] && t[|t| - 1] == x[|x| - 1];
      assert s[1..] == t + y;
      DropRunAppend(t, y);
      DropRunSkips(s);
      DropRunSkips(x);
    }
  }



  /** A piece that ends in a key character collapses independently of what follows. */
  lemma {:induction false} CollapseAppend(x: string, y: string)
    requires x != [] && IsKeyChar(x[|x| - 1])
    ensures CollapseRuns(x + y) == CollapseRuns(x) + CollapseRuns(y)
    decreases |x|, 1
  {
    if IsKeyChar(x[0]) {
      CollapseAppendKey(x, y);
    } else {
      CollapseAppendRun(x, y);
    }
  }

  lemma {:induction false} CollapseAppendKey(x: string, y: string)
    requires x != [] && IsKeyChar(x[|x| - 1]) && IsKeyChar(x[0])
    ensures CollapseRuns(x + y) == CollapseRuns(x) + CollapseRuns(y)
    decreases |x|, 0
  {
    var t := x[1..];
    calc {
      CollapseRuns(x + y);
      == { HeadTail(x, y); CollapseKeyStep(x + y); }
      [x[0]] + CollapseRuns(t + y);
      == { if t == [] { assert t + y == y; } else { assert t[|t| - 1] == x[|x| - 1]; CollapseAppend(t, y); } }
      [x[0]] + (CollapseRuns(t) + CollapseRuns(y));
      == { ConsAssoc(x[0], CollapseRuns(t), CollapseRuns(y)); }
      ([x[0]] + CollapseRuns(t)) + CollapseRuns(y);
      == { CollapseKeyStep(x); }
      CollapseRuns(x) + CollapseRuns(y);
    }
  }

  /** The head and tail of a concatenation with a non-empty left part. */
  lemma HeadTail(x: string, y: string)
    requires x != []
    ensures (x + y)[0] == x[0] && (x + y)[1..] == x[1..] + y
  {
  }



  lemma ConsAssoc<T>(h: T, a: seq<T>, b: seq<T>)
    ensures [h] + (a + b) == ([h] + a) + b
  {
  }

  lemma {:induction false} CollapseAppendRun(x: string, y: string)
    requires x != [] && IsKeyChar(x[|x| - 1]) && !IsKeyChar(x[0])
    ensures CollapseRuns(x + y) == CollapseRuns(x) + CollapseRuns(y)
    decreases |x|, 0
  {
    var t := x[1..];
    var d := DropRun(t);
    DropRunAppend(t, y);
    calc {
      CollapseRuns(x + y);
      == { HeadTail(x, y); CollapseRunStep(x + y); }
      " " + CollapseRuns(DropRun(t + y));
      ==
      " " + CollapseRuns(d + y);
      == { CollapseAppend(d, y); }
      " " + (CollapseRuns(d) + CollapseRuns(y));
      == { ConsAssoc(' ', CollapseRuns(d), CollapseRuns(y)); }
      (" " + CollapseRuns(d)) + CollapseRuns(y);
      == { CollapseRunStep(x); }
      CollapseRuns(x) + CollapseRuns(y);
    }
  }

  /** A text whose lower-case form is already normalised normalises to that form. */
  lemma NormalizeViaLower(s: string, n: string)
    requires s != [] && Lower(s) == n && IsNormalized(n)
    ensures NormalizeText(s) == n
  {
    assert Lower(n) == n by {
      forall i | 0 <= i < |n| ensures Lower(n)[i] == n[i] {
        assert !IsUpperAscii(n[i]);
      }
    }
    NormalizeFixesNormalized(n);
  }

  const ArtistNorm := "miles davis"
  const TrackNorm := "so what"
  const AlbumNorm := "kind of blue"

  lemma NormalizeArtist()
    ensures NormalizeText(DemoAlternate.artist) == ArtistNorm
  {
    LowerArtist();
    NormalizedArtist();
    NormalizeViaLower(DemoAlternate.artist, ArtistNorm);
  }

  lemma LowerArtist()
    ensures Lower(DemoAlternate.artist) == ArtistNorm
  {
    LowerPointwise(DemoAlternate.artist, ArtistNorm);
  }

  lemma NormalizedArtist()
    ensures IsNormalized(ArtistNorm)
  {
  }

  lemma NormalizeTrack()
    ensures NormalizeText(DemoAlternate.title) == TrackNorm
  {
    LowerTrack();
    NormalizedTrack();
    NormalizeViaLower(DemoAlternate.title, TrackNorm);
  }

  lemma LowerTrack()
    ensures Lower(DemoAlternate.title) == TrackNorm
  {
    LowerPointwise(DemoAlternate.title, TrackNorm);
  }

  lemma NormalizedTrack()
    ensures IsNormalized(TrackNorm)
  {
  }

  lemma NormalizeAlbum()
    ensures NormalizeText(DemoAlternate.album) == AlbumNorm
  {
    LowerAlbum();
    NormalizedAlbum();
    NormalizeViaLower(DemoAlternate.album, AlbumNorm);
  }

  lemma LowerAlbum()
    ensures Lower(DemoAlternate.album) == AlbumNorm
  {
    LowerPointwise(DemoAlternate.album, AlbumNorm);
  }

  lemma NormalizedAlbum()
    ensures IsNormalized(AlbumNorm)
  {
  }

  const PrimaryAlbumNorm := "bd music presents kind of blue 1959"

  /** The primary's album normalises to its words with the year kept and the
      dash dropped. */
  lemma NormalizePrimaryAlbum()
    ensures NormalizeText(DemoPrimary.album) == PrimaryAlbumNorm
  {
    LowerPrimaryAlbum();
    CollapsePrimaryAlbum();
    StripPrimaryAlbum();
  }

  lemma StripPrimaryAlbum()
    ensures Strip(AlbumWords + " 1959") == PrimaryAlbumNorm
  {
    var c := AlbumWords + " 1959";
    assert c == PrimaryAlbumNorm;
    KeyCharNotSpace(c[|c| - 1]);
    KeyCharNotSpace(c[0]);
    assert RStrip(c) == c;
    assert LStrip(c) == c;
  }

  lemma LowerPrimaryAlbum()
    ensures Lower(DemoPrimary.album) == AlbumWords + AlbumTail
  {
    PrimaryAlbumPieces();
    LowerAppend(PresentsRaw, DemoAlternate.album);
    LowerAppend(PresentsRaw + DemoAlternate.album, AlbumTail);
    LowerPresents();
    LowerAlbum();
    LowerTail();
    LoweredAlbumPieces();
  }

  lemma LowerTail()
    ensures Lower(AlbumTail) == AlbumTail
  {
    LowerPointwise(AlbumTail, AlbumTail);
  }

  const PresentsRaw := "BD Music Presents "

  lemma PrimaryAlbumPieces()
    ensures DemoPrimary.album == PresentsRaw + DemoAlternate.album + AlbumTail
  {
  }

  lemma LowerPresents()
    ensures Lower(PresentsRaw) == "bd music presents "
  {
    LowerPointwise(PresentsRaw, "bd music presents ");
  }

  lemma LoweredAlbumPieces()
    ensures AlbumWords + AlbumTail == "bd music presents " + AlbumNorm + AlbumTail
  {
  }

  /** `Lower` is determined character by character. */
  lemma LowerPointwise(s: string, t: string)
    requires |s| == |t| && forall i :: 0 <= i < |s| ==> LowerChar(s[i]) == t[i]
    ensures Lower(s) == t
  {
  }

  const AlbumWords := "bd music presents kind of blue"
  const AlbumTail := " - 1959"

  lemma CollapsePrimaryAlbum()
    ensures CollapseRuns(AlbumWords + AlbumTail) == AlbumWords + " 1959"
  {
    CollapseAlbumWords();
    CollapseAlbumTail();
    CollapseAppend(AlbumWords, AlbumTail);
  }

  lemma CollapseAlbumWords()
    ensures CollapseRuns(AlbumWords) == AlbumWords
  {
    assert CollapseFixed(AlbumWords);
    CollapseRunsFixes(AlbumWords);
  }

  /** " - 1959": the run " - " becomes one space. */
  lemma CollapseAlbumTail()
    ensures CollapseRuns(AlbumTail) == " 1959"
  {
    TailPieces();
    CollapseYear();
    DashRunOf(AlbumTail, "1959", " 1959");
  }

  lemma TailPieces()
    ensures AlbumTail == " - " + "1959" && " 1959" == " " + "1959"
  {
  }

  /** `DashRun` stated on named strings. */
  lemma DashRunOf(tail: string, y: string, out: string)
    requires y != [] && IsKeyChar(y[0]) && CollapseRuns(y) == y
    requires tail == " - " + y && out == " " + y
    ensures CollapseRuns(tail) == out
  {
    DashRun(y);
  }

  lemma CollapseYear()
    ensures CollapseRuns("1959") == "1959"
  {
    assert CollapseFixed("1959");
    CollapseRunsFixes("1959");
  }

  /** A dash between spaces before a key character collapses to one space. */
  lemma DashRun(y: string)
    requires y != [] && IsKeyChar(y[0])
    ensures CollapseRuns(" - " + y) == " " + CollapseRuns(y)
  {
    var s := " - " + y;
    var t1 := s[1..];
    var t2 := t1[1..];
    assert s[0] == ' ' && t1[0] == '-' && t2[0] == ' ' && t2[1..] == y;
    CollapseRunStep(s);
    DropRunSkips(t1);
    DropRunSkips(t2);
    DropRunStops(y);
  }

  /** The canonical album occurs inside the primary's normalised album, after
      "bd music presents ". */
  lemma PrimaryContainsCanonical()
    ensures Contains(PrimaryAlbumNorm, AlbumNorm) && PrimaryAlbumNorm != AlbumNorm
  {
    var before := "bd music presents ";
    assert PrimaryAlbumNorm == before + AlbumNorm + " 1959";
    OccursInMiddle(before, AlbumNorm, " 1959");
    ContainsAt(PrimaryAlbumNorm, AlbumNorm);
  }

  /** Both demo releases name the allow-list entry. */
  lemma DemoNamesEntry()
    ensures NamesEntry(AllowList[0], DemoPrimary)
    ensures NormalizeText(AllowList[0].album) == AlbumNorm
  {
    NormalizeArtist();
    NormalizeTrack();
    NormalizeAlbum();
    DemoFields();
  }

  /** The two demo releases share artist and title, and the allow-list entry
      names them with the plain album. */
  lemma DemoFields()
    ensures DemoPrimary.artist == DemoAlternate.artist && DemoPrimary.title == DemoAlternate.title
    ensures AllowList[0] == AllowEntry(ArtistNorm, TrackNorm, DemoAlternate.album)
  {
  }

  /** With a single allow-list entry, an applicable rewrite sets that entry's album. */
  lemma RewriteBySoleEntry(c: Release, preferred: Release)
    requires NormalizeText(preferred.artist) != "" && NormalizeText(preferred.title) != ""
    requires OverrideApplies(AllowList[0], c, preferred)
    ensures ApplyAllowlistOverride(c, preferred) == c.(album := AllowList[0].album)
  {
    var r := ApplyAllowlistOverride(c, preferred);
    var e0 := AllowList[0];
    assert e0 in AllowList && OverrideApplies(e0, c, preferred);
    assert r != c;
    var e :| e in AllowList && OverrideApplies(e, c, preferred) && r.album == e.album;
    assert e == e0;
  }

  /** With a single allow-list entry that does not apply, nothing is rewritten. */
  lemma NoRewriteBySoleEntry(c: Release, preferred: Release)
    requires !OverrideApplies(AllowList[0], c, preferred)
    ensures ApplyAllowlistOverride(c, preferred) == c
  {
    assert forall e :: e in AllowList ==> e == AllowList[0];
  }

  lemma PrimaryOverrideApplies()
    ensures NormalizeText(DemoPrimary.artist) != "" && NormalizeText(DemoPrimary.title) != ""
    ensures OverrideApplies(AllowList[0], DemoPrimary, DemoPrimary)
  {
    DemoNamesEntry();
    NormalizePrimaryAlbum();
    PrimaryContainsCanonical();
    EntryNamed();
    AppliesWhen(AllowList[0], DemoPrimary, DemoPrimary, PrimaryAlbumNorm, AlbumNorm);
  }

  lemma EntryNamed()
    ensures AllowList[0].artist != "" && AllowList[0].track != ""
  {
  }

  /** The rewrite condition, from the normalised albums. */
  lemma AppliesWhen(e: AllowEntry, c: Release, preferred: Release, cn: string, en: string)
    requires NamesEntry(e, preferred) && e.artist != "" && e.track != ""
    requires NormalizeText(c.album) == cn && NormalizeText(e.album) == en
    requires cn != en && Contains(cn, en)
    ensures NormalizeText(preferred.artist) != "" && NormalizeText(preferred.title) != ""
    ensures OverrideApplies(e, c, preferred)
  {
  }

  lemma AlternateOverrideIdle()
    ensures !OverrideApplies(AllowList[0], DemoAlternate, DemoPrimary)
  {
    DemoNamesEntry();
    NormalizeAlbum();
  }

  /** The rewrite turns the compilation release into the plain one. */
  lemma OverrideRewritesPrimary()
    ensures ApplyAllowlistOverride(DemoPrimary, DemoPrimary) == DemoAlternate
  {
    PrimaryOverrideApplies();
    RewriteBySoleEntry(DemoPrimary, DemoPrimary);
  }

  /** The plain release already carries the canonical album and is left alone. */
  lemma OverrideKeepsAlternate()
    ensures ApplyAllowlistOverride(DemoAlternate, DemoPrimary) == DemoAlternate
  {
    AlternateOverrideIdle();
    NoRewriteBySoleEntry(DemoAlternate, DemoPrimary);
  }

  /** No suspicious token occurs in "kind of blue": each has a letter the album lacks. */
  lemma NoSuspiciousInCanonical()
    ensures SuspiciousTokens(DemoAlternate.album) == []
  {
    NormalizeAlbum();
    NoTokenOccurs();
    FilterNone(SuspiciousTokenTable, AlbumNorm);
  }

  /** Filtering keeps nothing when no token of the table occurs. */
  lemma {:induction false} FilterNone(table: seq<string>, s: string)
    requires forall t :: t in table ==> !Contains(s, t)
    ensures FilterContained(table, s) == []
  {
    if table != [] {
      assert table[0] in table;
      FilterNone(table[1..], s);
    }
  }

  lemma NoTokenOccurs()
    ensures forall t :: t in SuspiciousTokenTable ==> !Contains(AlbumNorm, t)
  {
    Chunk0Missing();
    Chunk1Missing();
    Chunk2Missing();
    Chunk3Missing();
    MissingByChunks(SuspiciousTokenTable, AlbumNorm);
  }

  /** A 21-entry table none of whose four chunks occurs in `s`. */
  lemma MissingByChunks(table: seq<string>, s: string)
    requires |table| == 21
    requires forall t :: t in table[0..5] ==> !Contains(s, t)
    requires forall t :: t in table[5..10] ==> !Contains(s, t)
    requires forall t :: t in table[10..15] ==> !Contains(s, t)
    requires forall t :: t in table[15..21] ==> !Contains(s, t)
    ensures forall t :: t in table ==> !Contains(s, t)
  {
    forall t | t in table ensures !Contains(s, t) {
      var k :| 0 <= k < |table| && table[k] == t;
      var lo := if k < 5 then 0 else if k < 10 then 5 else if k < 15 then 10 else 15;
      var hi := if k < 5 then 5 else if k < 10 then 10 else if k < 15 then 15 else 21;
      assert table[lo..hi][k - lo] == t;
    }
  }

  lemma Chunk0Missing()
    ensures forall t :: t in SuspiciousTokenTable[0..5] ==> !Contains(AlbumNorm, t)
  {
    TokensMissing(0, 5, "psghc");
  }

  lemma Chunk1Missing()
    ensures forall t :: t in SuspiciousTokenTable[5..10] ==> !Contains(AlbumNorm, t)
  {
    TokensMissing(5, 10, "catcm");
  }

  lemma Chunk2Missing()
    ensures forall t :: t in SuspiciousTokenTable[10..15] ==> !Contains(AlbumNorm, t)
  {
    TokensMissing(10, 15, "rvsts");
  }

  lemma Chunk3Missing()
    ensures forall t :: t in SuspiciousTokenTable[15..21] ==> !Contains(AlbumNorm, t)
  {
    TokensMissing(15, 21, "rssamm");
  }

  /** The tokens `lo..hi` of the table each have a letter that "kind of blue" lacks. */
  lemma TokensMissing(lo: nat, hi: nat, missing: string)
    requires lo <= hi <= |SuspiciousTokenTable| && |missing| == hi - lo
    requires forall k :: 0 <= k < hi - lo ==> missing[k] in SuspiciousTokenTable[lo + k] && missing[k] !in AlbumNorm
    ensures forall t :: t in SuspiciousTokenTable[lo..hi] ==> !Contains(AlbumNorm, t)
  {
    TokensWithMissingLetter(SuspiciousTokenTable[lo..hi], missing, AlbumNorm);
  }

  /** `missing[k]` is a letter of `table[k]` that `s` lacks, so no token of the
      table occurs in `s`. */
  lemma TokensWithMissingLetter(table: seq<string>, missing: string, s: string)
    requires |missing| == |table|
    requires forall k :: 0 <= k < |table| ==> missing[k] in table[k] && missing[k] !in s
    ensures forall t :: t in table ==> !Contains(s, t)
  {
    forall t | t in table ensures !Contains(s, t) {
      var k :| 0 <= k < |table| && table[k] == t;
      ContainsChars(s, t);
    }
  }

  /** "Kind of Blue" ends in a word, not a year. */
  lemma NoYearSuffixInCanonical()
    ensures !HasYearSuffix(DemoAlternate.album)
  {
    var a := DemoAlternate.album;
    assert !IsSpace(a[|a| - 1]);
    assert RStrip(a) == a;
    assert a[|a| - 4] == 'B';
  }

  /** The score of the plain release against the primary: 2.2 for a 12-character
      album, +20 for the same artist, +10 for the official provider, +120
      from the allow-list, and no penalty. */
  lemma AlternateScore(hasNonEp: bool)
    requires !(hasNonEp && HasEpOrSingle(DemoAlternate.album))
    ensures Score(DemoAlternate, DemoPrimary, hasNonEp) == 152.2
  {
    AlternatePenalty(hasNonEp);
    AlternateLength();
    AlternateArtist();
    AlternateOfficial();
    AlternateBonus();
  }

  lemma AlternatePenalty(hasNonEp: bool)
    requires !(hasNonEp && HasEpOrSingle(DemoAlternate.album))
    ensures AlbumPenalty(DemoAlternate.album, hasNonEp) == 0.0
  {
    NoSuspiciousInCanonical();
    NoYearSuffixInCanonical();
  }

  lemma AlternateLength()
    ensures LengthTerm(DemoAlternate.album) == 2.2
  {
    assert |DemoAlternate.album| == 12;
  }

  lemma AlternateArtist()
    ensures ArtistTerm(DemoAlternate, DemoPrimary) == 20.0
  {
    NormalizeArtist();
    DemoFields();
    SameArtistTerm(DemoAlternate, DemoPrimary, ArtistNorm);
  }

  lemma SameArtistTerm(c: Release, preferred: Release, n: string)
    requires NormalizeText(c.artist) == n && NormalizeText(preferred.artist) == n && n != ""
    ensures ArtistTerm(c, preferred) == 20.0
  {
  }

  lemma AlternateOfficial()
    ensures IsOfficial(DemoAlternate.provider)
  {
    LowerPointwise(DemoAlternate.provider, "shazam");
  }

  lemma AlternateBonus()
    ensures AllowlistBonus(DemoPrimary, DemoAlternate.album) == 120.0
  {
    DemoNamesEntry();
    NormalizeAlbum();
    BonusByEntry(AllowList[0], DemoPrimary, DemoAlternate.album);
  }

  lemma BonusByEntry(e: AllowEntry, preferred: Release, album: string)
    requires e in AllowList && NamesEntry(e, preferred) && NormalizeText(album) == NormalizeText(e.album)
    ensures AllowlistBonus(preferred, album) == 120.0
  {
  }

  const DemoCandidates: seq<Option<Release>> := [Some(DemoPrimary), Some(DemoAlternate)]

  lemma DemoTruthy()
    ensures Truthy(DemoCandidates) == [DemoPrimary, DemoAlternate]
  {
    assert DemoCandidates[1..] == [Some(DemoAlternate)];
    assert DemoCandidates[1..][1..] == [];
  }

  /** After the rewrite both candidates are the plain release. */
  lemma DemoRewritten()
    ensures Rewritten([DemoPrimary, DemoAlternate], DemoPrimary) == [DemoAlternate, DemoAlternate]
  {
    OverrideRewritesPrimary();
    OverrideKeepsAlternate();
    RewrittenPair(DemoPrimary, DemoAlternate, DemoPrimary, DemoAlternate, DemoAlternate);
  }

  /** The worked example: with the compilation release as primary and
      preferred, the choice is the plain "Kind of Blue" release.
      The compilation loses not by its penalties but because the allow-list
      rewrite has already replaced its album with "Kind of Blue". */
  lemma DemoChoosesKindOfBlue()
    ensures forall best, score :: IsBestChoice(DemoCandidates, Some(DemoPrimary), best, score)
              ==> best == Some(DemoAlternate)
  {
    DemoTruthy();
    DemoRewritten();
    ChoiceAmongPair(DemoCandidates, DemoPrimary, DemoAlternate, DemoAlternate);
  }

  /** Two candidates, the first preferred, that the rewrite turns into the same
      release `x`: the choice is `x`. */
  lemma ChoiceAmongPair(candidates: seq<Option<Release>>, p: Release, a: Release, x: Release)
    requires Truthy(candidates) == [p, a]
    requires Rewritten([p, a], p) == [x, x]
    ensures forall best, score :: IsBestChoice(candidates, Some(p), best, score) ==> best == Some(x)
  {
    var rw := [x, x];
    assert forall i :: 0 <= i < |rw| ==> rw[i] == x;
    assert PreferredInfo(Some(p), [p, a]) == p;
    ChoiceAmongEqual(candidates, Some(p), [p, a], p, rw, x);
  }

  /** The score the winner carries: 2.2 for the 12-character album, +20 for
      the same artist, +10 for the official provider and +120 from the
      allow-list, with every penalty zero. */
  lemma DemoRewrittenScore()
    ensures Score(DemoAlternate, DemoPrimary, AnyNonEp([DemoAlternate, DemoAlternate])) == 152.2
  {
    SameTwiceNonEp(DemoAlternate);
    AlternateScore(AnyNonEp([DemoAlternate, DemoAlternate]));
  }

  /** Two copies of one release have a non-EP album only if that release does. */
  lemma SameTwiceNonEp(x: Release)
    ensures AnyNonEp([x, x]) ==> !HasEpOrSingle(x.album)
  {
    if AnyNonEp([x, x]) {
      var i :| 0 <= i < 2 && !HasEpOrSingle([x, x][i].album);
      assert [x, x][i] == x;
    }
  }

  /** When every rewritten candidate is the same release, that release is the
      choice whatever the scores compare to. */
  lemma ChoiceAmongEqual(candidates: seq<Option<Release>>, preferred: Option<Release>,
                         list: seq<Release>, pref: Release, rw: seq<Release>, x: Release)
    requires Truthy(candidates) == list
    requires list != []
    requires PreferredInfo(preferred, list) == pref
    requires Rewritten(list, pref) == rw
    requires forall i :: 0 <= i < |rw| ==> rw[i] == x
    ensures forall best, score :: IsBestChoice(candidates, preferred, best, score)
              ==> best == Some(x) && score == Score(x, pref, AnyNonEp(rw))
  {
    var scores := Scores(rw, pref, AnyNonEp(rw));
    forall best, score | IsBestChoice(candidates, preferred, best, score)
      ensures best == Some(x) && score == Score(x, pref, AnyNonEp(rw))
    {
      var k :| 0 <= k < |rw| && IsFirstMax(scores, k) && best == Some(rw[k]) && score == scores[k];
      assert rw[k] == x;
    }
  }

  /** The `__main__` block: choose between the two releases with the primary
      preferred; the album shown is "Kind of Blue". */
  method Demo() returns (best: Option<Release>, score: real)
    ensures best == Some(DemoAlternate) && best.value.album == "Kind of Blue"
  {
    best, score := ChooseBestRelease(DemoCandidates, Some(DemoPrimary));
    DemoChoosesKindOfBlue();
  }
}
