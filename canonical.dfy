/** The release scorer of auraframe/canonical.py: text normalisation, the
    suspicious-token, year-suffix, EP/single, length, artist, provider and
    allow-list rules, the allow-list album rewrite, and the argmax that picks
    the best of several candidate releases. */
module Canonical {
  import opened Text
  import opened Optional

  /** A candidate release (a dict built by `build_candidate`). Every field is a
      string; an absent field reads as "". */
  datatype Release = Release(
    title: string, artist: string, album: string, year: string, coverUrl: string, provider: string)

  /** One row of the curated allow-list: the normalised artist and track, and
      the canonical album as it should be displayed. */
  datatype AllowEntry = AllowEntry(artist: string, track: string, album: string)

  const SuspiciousTokenTable: seq<string> := [
    "presents", "best of", "greatest", "hits", "collection", "compilation", "karaoke",
    "tribute", "cover", "made famous by", "originally performed by", "various artists",
    "soundtrack", "theme", "instrumental", "relaxing", "study", "sleep", "background",
    "music presents", "bd music"
  ]

  const AllowList: seq<AllowEntry> := [AllowEntry("miles davis", "so what", "Kind of Blue")]

  const OfficialProviders: set<string> := {"shazam"}

  const EpSingleTokens: set<string> := {"ep", "single"}

  const CacheTtlSeconds: int := 14 * 24 * 60 * 60

  const CacheBonus: real := 200.0

  // ---------------------------------------------------------------------------
  // Normalisation
  // ---------------------------------------------------------------------------

  /** The characters `[a-z0-9]` keeps. */
  predicate IsKeyChar(c: char) { 'a' <= c <= 'z' || '0' <= c <= '9' }

  /** Drops the leading characters of `s` that `[^a-z0-9]` matches. */
  function DropRun(s: string): (r: string)
    ensures |r| <= |s| && r == s[|s| - |r|..]
    ensures r == [] || IsKeyChar(r[0])
  {
    if s != [] && !IsKeyChar(s[0]) then
      var r := DropRun(s[1..]);
      assert s[1..][|s| - 1 - |r|..] == s[|s| - |r|..];
      r
    else s
  }

  /** No two adjacent spaces. */
  predicate SingleSpaced(r: string) {
    forall i :: 0 <= i < |r| - 1 && r[i] == ' ' ==> r[i + 1] != ' '
  }

  predicate KeyOrSpace(r: string) {
    forall i :: 0 <= i < |r| ==> IsKeyChar(r[i]) || r[i] == ' '
  }

  /** `re.sub(r"[^a-z0-9]+", " ", s)`: every maximal run of characters other
      than `a-z0-9` becomes one space. */
  function CollapseRuns(s: string): (r: string)
    ensures r == [] <==> s == []
    ensures r != [] ==> (r[0] == ' ' <==> !IsKeyChar(s[0]))
    decreases |s|
  {
    if s == [] then []
    else if IsKeyChar(s[0]) then [s[0]] + CollapseRuns(s[1..])
    else " " + CollapseRuns(DropRun(s[1..]))
  }

  /** One step of the substitution on a leading key character. */
  lemma CollapseKeyStep(s: string)
    requires s != [] && IsKeyChar(s[0])
    ensures CollapseRuns(s) == [s[0]] + CollapseRuns(s[1..])
  {
  }

  /** One step of the substitution on a leading run character. */
  lemma CollapseRunStep(s: string)
    requires s != [] && !IsKeyChar(s[0])
    ensures CollapseRuns(s) == " " + CollapseRuns(DropRun(s[1..]))
  {
  }

  lemma DropRunStops(s: string)
    requires s != [] && IsKeyChar(s[0])
    ensures DropRun(s) == s
  {
  }

  lemma DropRunSkips(s: string)
    requires s != [] && !IsKeyChar(s[0])
    ensures DropRun(s) == DropRun(s[1..])
  {
  }

  /** The substitution leaves only key characters and single spaces. */
  lemma {:induction false} CollapseRunsShape(s: string)
    ensures KeyOrSpace(CollapseRuns(s)) && SingleSpaced(CollapseRuns(s))
    decreases |s|
  {
    if s != [] {
      var r := CollapseRuns(s);
      var t := if IsKeyChar(s[0]) then s[1..] else DropRun(s[1..]);
      var rt := CollapseRuns(t);
      CollapseRunsShape(t);
      assert r == [r[0]] + rt;
      ConsShape(r[0], rt);
    }
  }

  /** Prefixing a key character, or a space before a non-space, keeps the shape. */
  lemma ConsShape(x: char, rt: string)
    requires IsKeyChar(x) || x == ' '
    requires KeyOrSpace(rt) && SingleSpaced(rt)
    requires x == ' ' ==> rt == [] || rt[0] != ' '
    ensures KeyOrSpace([x] + rt) && SingleSpaced([x] + rt)
  {
    var r := [x] + rt;
    forall i | 0 <= i < |r| ensures IsKeyChar(r[i]) || r[i] == ' ' {
      if i > 0 { assert r[i] == rt[i - 1]; }
    }
    forall i | 0 <= i < |r| - 1 && r[i] == ' ' ensures r[i + 1] != ' ' {
      assert r[i + 1] == rt[i];
      if i > 0 { assert r[i] == rt[i - 1]; }
    }
  }

  /** The shape of every normalised text: only `a-z`, `0-9` and single
      interior spaces. */
  predicate IsNormalized(r: string) {
    KeyOrSpace(r) && SingleSpaced(r) && (r != [] ==> IsKeyChar(r[0]) && IsKeyChar(r[|r| - 1]))
  }

  /** `normalize_text`: lower-case, every run of other characters collapsed to
      one space, then stripped. `None` and "" both give "". */
  function NormalizeText(s: string): (r: string)
    ensures IsNormalized(r)
    ensures s == [] ==> r == []
  {
    if s == [] then ""
    else
      var c := CollapseRuns(Lower(s));
      CollapseRunsShape(Lower(s));
      StripKeepsShape(c);
      Strip(c)
  }

  /** Stripping a string of key characters and single spaces leaves a normalised string. */
  lemma StripKeepsShape(c: string)
    requires KeyOrSpace(c) && SingleSpaced(c)
    ensures IsNormalized(Strip(c))
  {
    var a := RStrip(c);
    PrefixKeepsShape(c, a);
    var b := LStrip(a);
    SuffixKeepsShape(a, b);
    NoSpaceEdges(b);
  }

  /** Key characters and single spaces, with no space at either end, is the normalised shape. */
  lemma NoSpaceEdges(b: string)
    requires KeyOrSpace(b) && SingleSpaced(b)
    requires b == [] || (!IsSpace(b[0]) && !IsSpace(b[|b| - 1]))
    ensures IsNormalized(b)
  {
    assert IsSpace(' ');
  }

  lemma PrefixKeepsShape(c: string, a: string)
    requires KeyOrSpace(c) && SingleSpaced(c) && |a| <= |c| && a == c[..|a|]
    ensures KeyOrSpace(a) && SingleSpaced(a)
  {
    SliceKeepsShape(c, 0, |a|, a);
  }

  lemma SuffixKeepsShape(c: string, b: string)
    requires KeyOrSpace(c) && SingleSpaced(c) && |b| <= |c| && b == c[|c| - |b|..]
    ensures KeyOrSpace(b) && SingleSpaced(b)
  {
    SliceKeepsShape(c, |c| - |b|, |c|, b);
  }

  /** A slice of a string of key characters and single spaces has the same shape. */
  lemma SliceKeepsShape(c: string, lo: nat, hi: nat, b: string)
    requires lo <= hi <= |c| && KeyOrSpace(c) && SingleSpaced(c) && b == c[lo..hi]
    ensures KeyOrSpace(b) && SingleSpaced(b)
  {
    forall i | 0 <= i < |b| ensures IsKeyChar(b[i]) || b[i] == ' ' {
      assert b[i] == c[lo + i];
    }
    forall i | 0 <= i < |b| - 1 && b[i] == ' ' ensures b[i + 1] != ' ' {
      assert b[i] == c[lo + i] && b[i + 1] == c[lo + i + 1];
    }
  }

  /** The tail of a string that ends in a key character. */
  predicate CollapseFixed(r: string) {
    KeyOrSpace(r) && SingleSpaced(r) && (r != [] ==> r[|r| - 1] != ' ')
  }

  lemma {:induction false} CollapseRunsFixes(r: string)
    requires CollapseFixed(r)
    ensures CollapseRuns(r) == r
    decreases |r|
  {
    if r != [] {
      var t := r[1..];
      FixedTail(r);
      CollapseRunsFixes(t);
      if IsKeyChar(r[0]) {
        CollapseKeyStep(r);
        assert r == [r[0]] + t;
      } else {
        FixedAfterSpace(r);
        DropRunStops(t);
        CollapseRunStep(r);
        assert r == " " + t;
      }
    }
  }

  lemma FixedTail(r: string)
    requires CollapseFixed(r) && r != []
    ensures CollapseFixed(r[1..])
  {
    var t := r[1..];
    SliceKeepsShape(r, 1, |r|, t);
    assert t != [] ==> t[|t| - 1] == r[|r| - 1];
  }

  /** A leading space is followed by a key character. */
  lemma FixedAfterSpace(r: string)
    requires CollapseFixed(r) && r != [] && !IsKeyChar(r[0])
    ensures |r| > 1 && r[0] == ' ' && IsKeyChar(r[1]) && r[1..][0] == r[1]
  {
  }

  /** A key character is not whitespace, so strip keeps it. */
  lemma KeyCharNotSpace(c: char)
    requires IsKeyChar(c)
    ensures !IsSpace(c)
  {
  }

  /** A normalised text is its own normal form. */
  lemma NormalizeFixesNormalized(r: string)
    requires IsNormalized(r)
    ensures NormalizeText(r) == r
  {
    if r != [] {
      assert Lower(r) == r by {
        forall i | 0 <= i < |r| ensures Lower(r)[i] == r[i] {
          assert !IsUpperAscii(r[i]);
        }
      }
      CollapseRunsFixes(r);
      KeyCharNotSpace(r[0]);
      KeyCharNotSpace(r[|r| - 1]);
      assert RStrip(r) == r;
      assert LStrip(r) == r;
    }
  }

  /** `normalize_text` is idempotent. */
  lemma NormalizeIdempotent(s: string)
    ensures NormalizeText(NormalizeText(s)) == NormalizeText(s)
  {
    NormalizeFixesNormalized(NormalizeText(s));
  }

  /** `make_key`: the normalised artist and title joined by "::". */
  function MakeKey(artist: string, title: string): (k: string)
    ensures |k| == |NormalizeText(artist)| + 2 + |NormalizeText(title)|
  {
    NormalizeText(artist) + "::" + NormalizeText(title)
  }

  /** The index of the first ':' in `s`, or `|s|` when there is none. */
  function ColonIndex(s: string): (i: nat)
    ensures i <= |s|
  {
    if s == [] || s[0] == ':' then 0 else 1 + ColonIndex(s[1..])
  }

  lemma ColonIndexAfterNormalized(n: string, rest: string)
    requires IsNormalized(n)
    ensures ColonIndex(n + "::" + rest) == |n|
  {
    assert forall i :: 0 <= i < |n| ==> n[i] != ':';
    ColonIndexOfNoColon(n, "::" + rest);
    assert n + "::" + rest == n + ("::" + rest);
  }

  /** Skipping a prefix without ':' moves the first ':' by the prefix length. */
  lemma {:induction false} ColonIndexOfNoColon(p: string, rest: string)
    requires forall i :: 0 <= i < |p| ==> p[i] != ':'
    ensures ColonIndex(p + rest) == |p| + ColonIndex(rest)
    decreases |p|
  {
    if p != [] {
      var s := p + rest;
      assert s[0] == p[0] && p[0] != ':';
      assert s[1..] == p[1..] + rest;
      ColonIndexOfNoColon(p[1..], rest);
      assert ColonIndex(s) == 1 + ColonIndex(s[1..]);
    } else {
      assert p + rest == rest;
    }
  }

  /** Two keys are equal exactly when both normalised parts are: a normalised
      text holds no ':' so the separator cannot be confused with content. */
  lemma MakeKeyInjective(a1: string, t1: string, a2: string, t2: string)
    ensures MakeKey(a1, t1) == MakeKey(a2, t2)
        <==> NormalizeText(a1) == NormalizeText(a2) && NormalizeText(t1) == NormalizeText(t2)
  {
    var n1, m1, n2, m2 := NormalizeText(a1), NormalizeText(t1), NormalizeText(a2), NormalizeText(t2);
    var k1, k2 := MakeKey(a1, t1), MakeKey(a2, t2);
    if k1 == k2 {
      ColonIndexAfterNormalized(n1, m1);
      ColonIndexAfterNormalized(n2, m2);
      assert n1 == k1[..|n1|] && n2 == k2[..|n2|];
      assert m1 == k1[|n1| + 2..] && m2 == k2[|n2| + 2..];
    }
  }

  // ---------------------------------------------------------------------------
  // Candidates and the rule predicates
  // ---------------------------------------------------------------------------

  function OrEmpty(s: Option<string>): string {
    match s
    case Some(v) => v
    case None => ""
  }

  /** `build_candidate`: absent (None) fields become "", never a missing value. */
  function BuildCandidate(
    title: Option<string>, artist: Option<string>, album: Option<string>,
    year: Option<string>, coverUrl: Option<string>, provider: string): (c: Release)
    ensures c.provider == provider
    ensures title.None? ==> c.title == ""
    ensures artist.None? ==> c.artist == ""
    ensures album.None? ==> c.album == ""
    ensures year.None? ==> c.year == ""
    ensures coverUrl.None? ==> c.coverUrl == ""
    ensures title.Some? ==> c.title == title.value
    ensures artist.Some? ==> c.artist == artist.value
    ensures album.Some? ==> c.album == album.value
    ensures year.Some? ==> c.year == year.value
    ensures coverUrl.Some? ==> c.coverUrl == coverUrl.value
  {
    Release(OrEmpty(title), OrEmpty(artist), OrEmpty(album), OrEmpty(year), OrEmpty(coverUrl), provider)
  }

  /** `_has_ep_or_single`: "ep" or "single" is a whole word of the normalised album. */
  predicate HasEpOrSingle(album: string) {
    var words := Split(NormalizeText(album));
    exists k :: 0 <= k < |words| && words[k] in EpSingleTokens
  }

  /** `_is_official`: the lower-cased provider is in the official set. */
  predicate IsOfficial(provider: string) {
    Lower(provider) in OfficialProviders
  }

  /** The tokens of `table` that occur in `albumNorm`, in table order. */
  function FilterContained(table: seq<string>, albumNorm: string): (r: seq<string>)
    ensures |r| <= |table|
    ensures forall t :: t in r <==> t in table && Contains(albumNorm, t)
  {
    if table == [] then []
    else
      var rest := FilterContained(table[1..], albumNorm);
      if Contains(albumNorm, table[0]) then [table[0]] + rest else rest
  }

  /** `_suspicious_tokens`: the suspicious tokens that are substrings of the
      normalised album. Overlapping tokens ("presents", "music presents") each count. */
  function SuspiciousTokens(album: string): (r: seq<string>)
    ensures forall t :: t in r <==> t in SuspiciousTokenTable && Contains(NormalizeText(album), t)
  {
    FilterContained(SuspiciousTokenTable, NormalizeText(album))
  }

  predicate HasSuspiciousTokens(album: string) {
    SuspiciousTokens(album) != []
  }

  // `YEAR_SUFFIX_RE` = \s*[-(]\s*(19|20)\d{2}\s*\)?\s*$, written out.

  predicate IsDigit(c: char) { '0' <= c <= '9' }

  /** `(19|20)\d{2}` matched by four characters. */
  predicate IsYear(y: string) {
    |y| == 4 && ((y[0] == '1' && y[1] == '9') || (y[0] == '2' && y[1] == '0'))
    && IsDigit(y[2]) && IsDigit(y[3])
  }

  /** `YEAR_SUFFIX_RE.search(album)`: reading from the end, optional
      whitespace, an optional ")", optional whitespace, a year, optional
      whitespace, then "-" or "(". */
  predicate HasYearSuffix(album: string) {
    var a := RStrip(album);
    var b := if a != [] && a[|a| - 1] == ')' then RStrip(a[..|a| - 1]) else a;
    |b| >= 4 && IsYear(b[|b| - 4..])
    && var c := RStrip(b[..|b| - 4]);
       c != [] && (c[|c| - 1] == '-' || c[|c| - 1] == '(')
  }

  // ---------------------------------------------------------------------------
  // Allow-list
  // ---------------------------------------------------------------------------

  /** The preferred release names this allow-list entry's artist and track. */
  predicate NamesEntry(e: AllowEntry, preferred: Release) {
    NormalizeText(preferred.artist) == e.artist && NormalizeText(preferred.title) == e.track
  }

  /** `_allowlist_bonus`: 120 when the preferred artist and title match an entry
      and the album normalises to that entry's album, else 0. */
  function AllowlistBonus(preferred: Release, album: string): (b: real)
    ensures b == 120.0 <==> exists e :: e in AllowList && NamesEntry(e, preferred)
                                       && NormalizeText(album) == NormalizeText(e.album)
    ensures b == 0.0 || b == 120.0
  {
    BonusFrom(AllowList, preferred, album)
  }

  function BonusFrom(table: seq<AllowEntry>, preferred: Release, album: string): (b: real)
    ensures b == 120.0 <==> exists e :: e in table && NamesEntry(e, preferred)
                                       && NormalizeText(album) == NormalizeText(e.album)
    ensures b == 0.0 || b == 120.0
  {
    if table == [] then 0.0
    else if NamesEntry(table[0], preferred) && NormalizeText(album) == NormalizeText(table[0].album) then 120.0
    else BonusFrom(table[1..], preferred, album)
  }

  /** The album rewrite applies: the entry names the preferred release and its
      normalised album is a proper substring of the candidate's normalised album. */
  predicate OverrideApplies(e: AllowEntry, c: Release, preferred: Release) {
    NamesEntry(e, preferred)
    && NormalizeText(c.album) != NormalizeText(e.album)
    && Contains(NormalizeText(c.album), NormalizeText(e.album))
  }

  /** `_apply_allowlist_override`: only the album changes, and only to the
      album of an entry whose rewrite applies; with no such entry (or an empty
      preferred artist or title) the candidate is returned unchanged. */
  function ApplyAllowlistOverride(c: Release, preferred: Release): (r: Release)
    ensures r == c.(album := r.album)
    ensures r != c <==> NormalizeText(preferred.artist) != "" && NormalizeText(preferred.title) != ""
                        && exists e :: e in AllowList && OverrideApplies(e, c, preferred)
    ensures r != c ==> exists e :: e in AllowList && OverrideApplies(e, c, preferred) && r.album == e.album
  {
    if NormalizeText(preferred.artist) == "" || NormalizeText(preferred.title) == "" then c
    else OverrideFrom(AllowList, c, preferred)
  }

  function OverrideFrom(table: seq<AllowEntry>, c: Release, preferred: Release): (r: Release)
    ensures r == c.(album := r.album)
    ensures r != c <==> exists e :: e in table && OverrideApplies(e, c, preferred)
    ensures r != c ==> exists e :: e in table && OverrideApplies(e, c, preferred) && r.album == e.album
  {
    if table == [] then c
    else if OverrideApplies(table[0], c, preferred) then
      assert NormalizeText(c.album) != NormalizeText(table[0].album);
      c.(album := table[0].album)
    else OverrideFrom(table[1..], c, preferred)
  }

  // ---------------------------------------------------------------------------
  // Score
  // ---------------------------------------------------------------------------

  function Min(a: real, b: real): real { if a <= b then a else b }

  function Max(a: real, b: real): real { if a >= b then a else b }

  /** `min(len, 80) / 20` subtracted and `max(0, 40 - len) / 10` added. */
  function LengthTerm(album: string): (t: real)
    ensures -4.0 <= t <= 4.0
  {
    - Min(|album| as real, 80.0) / 20.0 + Max(0.0, 40.0 - |album| as real) / 10.0
  }

  /** +20 when both normalised artists are present and equal, -10 when both
      are present and differ, else 0. */
  function ArtistTerm(c: Release, preferred: Release): real {
    var p := NormalizeText(preferred.artist);
    var a := NormalizeText(c.artist);
    if p != "" && a != "" then (if p == a then 20.0 else -10.0) else 0.0
  }

  /** The album-only penalties: -30 empty, -40 per suspicious token, -12 year
      suffix, -15 EP/single when the set has a non-EP candidate. */
  function AlbumPenalty(album: string, hasNonEp: bool): real {
    (if album == "" then -30.0 else 0.0)
    - 40.0 * |SuspiciousTokens(album)| as real
    + (if HasYearSuffix(album) then -12.0 else 0.0)
    + (if hasNonEp && HasEpOrSingle(album) then -15.0 else 0.0)
  }

  /** `score_release`: the sum of the rule weights that apply to the candidate. */
  function Score(c: Release, preferred: Release, hasNonEp: bool): real {
    AlbumPenalty(c.album, hasNonEp)
    + LengthTerm(c.album)
    + ArtistTerm(c, preferred)
    + (if IsOfficial(c.provider) then 10.0 else 0.0)
    + AllowlistBonus(preferred, c.album)
  }

  /** No release scores above 154: at most 4 from the length terms, 20 for
      the artist, 10 for the provider and 120 from the allow-list, while the
      album rules only subtract. */
  lemma ScoreUpperBound(c: Release, preferred: Release, hasNonEp: bool)
    ensures Score(c, preferred, hasNonEp) <= 154.0
    ensures c.album == "" ==> Score(c, preferred, hasNonEp) <= 154.0 - 30.0
  {
    AlbumPenaltyBound(c.album, hasNonEp);
    ArtistTermBound(c, preferred);
    var b := AllowlistBonus(preferred, c.album);
    assert b <= 120.0;
  }

  /** The album rules only subtract: at least 30 for an empty album. */
  lemma AlbumPenaltyBound(album: string, hasNonEp: bool)
    ensures AlbumPenalty(album, hasNonEp) <= (if album == "" then -30.0 else 0.0)
  {
    var k := |SuspiciousTokens(album)| as real;
    assert 40.0 * k >= 0.0;
  }

  /** The artist rule adds at most 20. */
  lemma ArtistTermBound(c: Release, preferred: Release)
    ensures ArtistTerm(c, preferred) <= 20.0
  {
  }

  /** A sequence holding two different values has at least two elements. */
  lemma TwoMembers<T>(r: seq<T>, a: T, b: T)
    requires a in r && b in r && a != b
    ensures |r| >= 2
  {
  }

  /** Overlapping tokens both count: an album whose normalised form contains
      "music presents" also contains "presents", so it loses at least 80. */
  lemma OverlappingTokensBothCount(album: string)
    requires Contains(NormalizeText(album), "music presents")
    ensures "presents" in SuspiciousTokens(album) && "music presents" in SuspiciousTokens(album)
    ensures AlbumPenalty(album, false) <= -80.0
  {
    PresentsInside(NormalizeText(album));
    PresentsTokens();
    TwoTokensPenalty(album, "presents", "music presents");
  }

  lemma PresentsTokens()
    ensures "presents" in SuspiciousTokenTable && "music presents" in SuspiciousTokenTable
    ensures "presents" != "music presents"
  {
    assert SuspiciousTokenTable[0] == "presents" && SuspiciousTokenTable[19] == "music presents";
  }

  /** Two different tokens of the table that both occur cost at least 80. */
  lemma TwoTokensPenalty(album: string, a: string, b: string)
    requires a in SuspiciousTokenTable && b in SuspiciousTokenTable && a != b
    requires Contains(NormalizeText(album), a) && Contains(NormalizeText(album), b)
    ensures a in SuspiciousTokens(album) && b in SuspiciousTokens(album)
    ensures AlbumPenalty(album, false) <= -80.0
  {
    TwoMembers(SuspiciousTokens(album), a, b);
    TokensPenalty(album, false);
  }

  /** A string containing "music presents" contains "presents". */
  lemma PresentsInside(n: string)
    requires Contains(n, "music presents")
    ensures Contains(n, "presents")
  {
    ContainsAt(n, "music presents");
    var i :| OccursAt(n, "music presents", i);
    assert n[i + 6..i + 14] == "music presents"[6..];
    assert OccursAt(n, "presents", i + 6);
    ContainsAt(n, "presents");
  }

  /** Each suspicious token costs 40, and the other album rules only subtract. */
  lemma TokensPenalty(album: string, hasNonEp: bool)
    ensures AlbumPenalty(album, hasNonEp) <= -40.0 * |SuspiciousTokens(album)| as real
  {
  }
}

module CanonicalChoice {
  import opened Text
  import opened Optional
  import opened Canonical

  /** `[c for c in candidates if c]`: the truthy (non-empty) candidates, in order. */
  function Truthy(candidates: seq<Option<Release>>): (r: seq<Release>)
    ensures |r| <= |candidates|
    ensures forall c :: c in r <==> Some(c) in candidates
  {
    if candidates == [] then []
    else
      var rest := Truthy(candidates[1..]);
      assert forall c :: Some(c) in candidates <==> candidates[0] == Some(c) || Some(c) in candidates[1..];
      if candidates[0].Some? then [candidates[0].value] + rest else rest
  }

  /** The list after `_apply_allowlist_override` against `preferred`. */
  function Rewritten(list: seq<Release>, preferred: Release): (r: seq<Release>)
    ensures |r| == |list|
  {
    seq(|list|, i requires 0 <= i < |list| => ApplyAllowlistOverride(list[i], preferred))
  }

  /** The rewrite of a two-element list, element by element. */
  lemma RewrittenPair(a: Release, b: Release, preferred: Release, a': Release, b': Release)
    requires ApplyAllowlistOverride(a, preferred) == a' && ApplyAllowlistOverride(b, preferred) == b'
    ensures Rewritten([a, b], preferred) == [a', b']
  {
    var list := [a, b];
    var r := Rewritten(list, preferred);
    assert r[0] == a' && r[1] == b';
    PairExt(r, a', b');
  }

  /** A two-element sequence is the display of its elements. */
  lemma PairExt<T>(r: seq<T>, x: T, y: T)
    requires |r| == 2 && r[0] == x && r[1] == y
    ensures r == [x, y]
  {
  }

  /** `any(not _has_ep_or_single(album) for c in list)` */
  predicate AnyNonEp(list: seq<Release>) {
    exists i :: 0 <= i < |list| && !HasEpOrSingle(list[i].album)
  }

  /** `preferred or candidate_list[0]`: a falsy (absent or empty) preferred
      release falls back to the first truthy candidate, before any rewrite. */
  function PreferredInfo(preferred: Option<Release>, list: seq<Release>): Release
    requires list != []
  {
    if preferred.Some? then preferred.value else list[0]
  }

  /** `k` is the first index attaining the maximum of `scores`. */
  predicate IsFirstMax(scores: seq<real>, k: int) {
    0 <= k < |scores|
    && (forall j :: 0 <= j < |scores| ==> scores[j] <= scores[k])
    && (forall j :: 0 <= j < k ==> scores[j] < scores[k])
  }

  function Scores(list: seq<Release>, preferred: Release, hasNonEp: bool): (r: seq<real>)
    ensures |r| == |list|
    ensures forall i :: 0 <= i < |list| ==> r[i] == Score(list[i], preferred, hasNonEp)
  {
    seq(|list|, i requires 0 <= i < |list| => Score(list[i], preferred, hasNonEp))
  }

  /** What `choose_best_release` returns: `({}, 0.0)` without truthy candidates;
      otherwise the first rewritten candidate whose score is the maximum, with
      that score. */
  predicate IsBestChoice(candidates: seq<Option<Release>>, preferred: Option<Release>,
                         best: Option<Release>, bestScore: real) {
    var list := Truthy(candidates);
    if list == [] then best == None && bestScore == 0.0
    else
      var pref := PreferredInfo(preferred, list);
      var rw := Rewritten(list, pref);
      var scores := Scores(rw, pref, AnyNonEp(rw));
      exists k :: 0 <= k < |rw| && IsFirstMax(scores, k) && best == Some(rw[k]) && bestScore == scores[k]
  }

  /** `choose_best_release`: filter, fall back to the first candidate as the
      preferred release, rewrite every album against it, then keep the first
      strictly better score. */
  method ChooseBestRelease(candidates: seq<Option<Release>>, preferred: Option<Release>)
    returns (best: Option<Release>, bestScore: real)
    ensures IsBestChoice(candidates, preferred, best, bestScore)
  {
    var truthy := Truthy(candidates);
    if truthy == [] {
      return None, 0.0;
    }
    var pref := PreferredInfo(preferred, truthy);
    var list := Rewritten(truthy, pref);
    var hasNonEp := AnyNonEp(list);
    var k;
    k, bestScore := FirstMaximum(Scores(list, pref, hasNonEp));
    best := Some(list[k]);
  }

  /** The scan of `choose_best_release`: starting from `float("-inf")`, a score
      replaces the best so far only when strictly greater, so the first of
      equal maxima wins. */
  method FirstMaximum(scores: seq<real>) returns (k: nat, top: real)
    requires scores != []
    ensures IsFirstMax(scores, k) && top == scores[k]
  {
    // None stands for float("-inf"): no score seen yet
    var bestSoFar: Option<real> := None;
    k := 0;
    for i := 0 to |scores|
      invariant bestSoFar.None? <==> i == 0
      invariant 0 <= k < |scores| && (i > 0 ==> k < i)
      invariant bestSoFar.Some? ==> bestSoFar.value == scores[k]
      invariant forall j :: 0 <= j < i ==> scores[j] <= scores[k]
      invariant forall j :: 0 <= j < k ==> scores[j] < scores[k]
    {
      if bestSoFar.None? || scores[i] > bestSoFar.value {
        bestSoFar := Some(scores[i]);
        k := i;
      }
    }
    top := bestSoFar.value;
  }

  /** The choice is determined by its inputs: two results that both meet the
      contract of `choose_best_release` are the same. */
  lemma BestChoiceUnique(candidates: seq<Option<Release>>, preferred: Option<Release>,
                         b1: Option<Release>, s1: real, b2: Option<Release>, s2: real)
    requires IsBestChoice(candidates, preferred, b1, s1)
    requires IsBestChoice(candidates, preferred, b2, s2)
    ensures b1 == b2 && s1 == s2
  {
    var list := Truthy(candidates);
    if list != [] {
      var pref := PreferredInfo(preferred, list);
      var rw := Rewritten(list, pref);
      var scores := Scores(rw, pref, AnyNonEp(rw));
      var k1 :| IsFirstMax(scores, k1) && b1 == Some(rw[k1]) && s1 == scores[k1];
      var k2 :| IsFirstMax(scores, k2) && b2 == Some(rw[k2]) && s2 == scores[k2];
      FirstMaxUnique(scores, k1, k2);
    }
  }

  lemma FirstMaxUnique(scores: seq<real>, k1: int, k2: int)
    requires IsFirstMax(scores, k1) && IsFirstMax(scores, k2)
    ensures k1 == k2
  {
    assert scores[k1] == scores[k2];
  }
}
