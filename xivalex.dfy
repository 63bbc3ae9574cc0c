/** Game-installation helpers: the game version and release region of an
    installation, registry string reads, the launcher list's de-duplication
    and recognising the addon's own DLL. */
module XivAlex {
  import opened Text
  import opened FsPath

  // ---------------------------------------------------------------------
  // The version-file sanitiser

  /** The characters of the literal L"<>:\"/\\|?*" the loop walks, including its terminating NUL. */
  const ForbiddenChars: string := "<>:\"/\\|?*\0"

  /** A character the sanitiser replaces: one of the literal's, or a control character. */
  predicate Replaced(c: char)
  {
    c in ForbiddenChars || (c as int) < 32
  }

  function Sanitized(s: string): (r: string)
    ensures |r| == |s|
    ensures forall i :: 0 <= i < |s| ==> r[i] == if Replaced(s[i]) then '_' else s[i]
  {
    seq(|s|, i requires 0 <= i < |s| => if Replaced(s[i]) then '_' else s[i])
  }

  /** The nested loops over the text and over the literal, rewriting in place. */
  method SanitizeInPlace(a: array<char>)
    modifies a
    ensures a[..] == Sanitized(old(a[..]))
  {
    var k := 0;
    while k < a.Length
      invariant 0 <= k <= a.Length
      invariant a[..k] == Sanitized(old(a[..]))[..k]
      invariant a[k..] == old(a[..])[k..]
    {
      var c := a[k];
      var j := 0;
      while j < |ForbiddenChars|
        invariant 0 <= j <= |ForbiddenChars|
        invariant a[k] == if j > 0 && ((c as int) < 32 || c in ForbiddenChars[..j]) then '_' else c
        invariant a[..k] == Sanitized(old(a[..]))[..k]
        invariant a[k + 1..] == old(a[..])[k + 1..]
      {
        assert ForbiddenChars[..j + 1] == ForbiddenChars[..j] + [ForbiddenChars[j]];
        if a[k] == ForbiddenChars[j] || (a[k] as int) < 32 {
          a[k] := '_';
        }
        j := j + 1;
      }
      assert ForbiddenChars[..j] == ForbiddenChars;
      assert a[..k + 1] == a[..k] + [a[k]];
      k := k + 1;
    }
  }

  /** After sanitising, no replaceable character is left. */
  lemma SanitizedIsClean(s: string)
    ensures forall i :: 0 <= i < |s| ==> !Replaced(Sanitized(s)[i])
  {
  }

  /** Sanitising twice is sanitising once. */
  lemma SanitizedIdempotent(s: string)
    ensures Sanitized(Sanitized(s)) == Sanitized(s)
  {
    SanitizedIsClean(s);
  }

  /** A text without replaceable characters passes unchanged. */
  lemma SanitizedKeepsCleanText(s: string)
    requires forall i :: 0 <= i < |s| ==> !Replaced(s[i])
    ensures Sanitized(s) == s
  {
  }

  // ---------------------------------------------------------------------
  // Reading the game version

  /** What the file system reports for the version file: its size, whether ReadFile
      succeeded, how many bytes it read, and the text those bytes decode to. */
  datatype VersionFile = VersionFile(size: nat, readSucceeded: bool, bytesRead: nat, text: string)

  const VersionFileLimit: nat := 64

  /** The version string of the file at `path`, or the error the source throws;
      None means the file could not be opened. */
  function GameVersionOf(file: Option<VersionFile>, path: string): (r: Result<string>)
    ensures r.Ok? ==> file.Some? && file.value.size <= VersionFileLimit && file.value.bytesRead == file.value.size
    ensures r.Ok? ==> forall i :: 0 <= i < |r.value| ==> !Replaced(r.value[i])
  {
    SanitizedIsClean(if file.Some? then file.value.text else "");
    if file.None? then Err("ResolveGameReleaseRegion: Failed to open game version file(" + path + ")")
    else if file.value.size > VersionFileLimit then Err("ResolveGameReleaseRegion: Game version file size too big.")
    else if !file.value.readSucceeded then Err("ResolveGameReleaseRegion: Failed to read game version file")
    else if file.value.bytesRead != file.value.size then Err("ResolveGameReleaseRegion: Failed to read game version file in entirety.")
    else Ok(Sanitized(file.value.text))
  }

  /** A version file is accepted exactly when it opens, is at most 64 bytes and is read whole. */
  lemma GameVersionAcceptance(file: Option<VersionFile>, path: string)
    ensures GameVersionOf(file, path).Ok? <==>
      file.Some? && file.value.size <= VersionFileLimit && file.value.readSucceeded && file.value.bytesRead == file.value.size
    ensures file.Some? && file.value.size > VersionFileLimit ==>
      GameVersionOf(file, path) == Err("ResolveGameReleaseRegion: Game version file size too big.")
  {
  }

  // ---------------------------------------------------------------------
  // The release region

  /** How many of the signed files name each (non-empty) publisher country. */
  function PublisherCounts(countries: seq<string>): map<string, nat>
  {
    map c | c in countries && c != "" :: multiset(countries)[c]
  }

  /** The loop that fills publisherCountries: `publisherCountries[c]++` for each non-empty c. */
  method CountPublishers(countries: seq<string>) returns (m: map<string, nat>)
    ensures m == PublisherCounts(countries)
  {
    m := map[];
    var i := 0;
    while i < |countries|
      invariant 0 <= i <= |countries|
      invariant m == PublisherCounts(countries[..i])
    {
      var c := countries[i];
      assert countries[..i + 1] == countries[..i] + [c];
      if c != "" {
        var n := if c in m then m[c] else 0;
        m := m[c := n + 1];
      }
      i := i + 1;
    }
    assert countries[..i] == countries;
  }

  /** Every country found is counted once per file that names it. */
  lemma PublisherCountsMeaning(countries: seq<string>, c: string)
    ensures c in PublisherCounts(countries) <==> c != "" && c in countries
    ensures c in PublisherCounts(countries) ==> PublisherCounts(countries)[c] > 0
  {
  }

  /** std::pair's operator< on (country, count). */
  predicate PairLess(k1: string, n1: nat, k2: string, n2: nat)
  {
    StrLess(k1, k2) || (!StrLess(k2, k1) && n1 < n2)
  }

  /** The country with no greater country beside it. */
  predicate IsGreatestKey(m: map<string, nat>, k: string)
  {
    k in m && forall k' :: k' in m ==> k' == k || StrLess(k', k)
  }

  /** max_element over the map as written: pairs compare by key first and keys are
      distinct, so the result is the greatest country whatever the counts. */
  method MaxElement(m: map<string, nat>) returns (best: string)
    requires |m| > 0
    ensures IsGreatestKey(m, best)
  {
    var rest := m.Keys;
    best :| best in rest;
    rest := rest - {best};
    while rest != {}
      invariant rest <= m.Keys && best in m && best !in rest
      invariant forall k :: k in m && k !in rest ==> k == best || StrLess(k, best)
      decreases |rest|
    {
      var k :| k in rest;
      StrTotal(best, k);
      if PairLess(best, m[best], k, m[k]) {
        forall k' | k' in m && k' !in rest && k' != best
          ensures StrLess(k', k)
        {
          StrTransitive(k', best, k);
        }
        best := k;
      }
      rest := rest - {k};
    }
  }

  lemma GreatestKeyUnique(m: map<string, nat>, a: string, b: string)
    requires IsGreatestKey(m, a) && IsGreatestKey(m, b)
    ensures a == b
  {
    StrTotal(a, b);
  }

  /** The country most signed files name; among equals, the first in key order,
      as max_element with a count comparison would pick. */
  predicate IsMostPublished(m: map<string, nat>, k: string)
  {
    k in m && forall k' :: k' in m ==> m[k'] < m[k] || (m[k'] == m[k] && (k' == k || StrLess(k, k')))
  }

  /** The region choice by count that the counting evidently serves. */
  method MostPublishedCountry(m: map<string, nat>) returns (best: string)
    requires |m| > 0
    ensures IsMostPublished(m, best)
  {
    var rest := m.Keys;
    best :| best in rest;
    rest := rest - {best};
    while rest != {}
      invariant rest <= m.Keys && best in m && best !in rest
      invariant forall k :: k in m && k !in rest ==>
        m[k] < m[best] || (m[k] == m[best] && (k == best || StrLess(best, k)))
      decreases |rest|
    {
      var k :| k in rest;
      StrTotal(best, k);
      if m[k] > m[best] || (m[k] == m[best] && StrLess(k, best)) {
        forall k' | k' in m && k' !in rest && k' != best && m[k'] == m[best] && m[k'] == m[k]
          ensures StrLess(k, k')
        {
          StrTransitive(k, best, k');
        }
        best := k;
      }
      rest := rest - {k};
    }
  }

  /** The most published country has the highest count, and it is unique. */
  lemma MostPublishedUnique(m: map<string, nat>, a: string, b: string)
    requires IsMostPublished(m, a) && IsMostPublished(m, b)
    ensures a == b
    ensures forall k :: k in m ==> m[k] <= m[a]
  {
    StrTotal(a, b);
  }

  /** Two files signed in "CN" and one in "KR": max_element as written answers "KR",
      the country with fewer signatures, where the count answers "CN". */
  lemma GreatestKeyIgnoresCounts()
    ensures var m := PublisherCounts(["CN", "KR", "CN"]);
      m == map["CN" := 2, "KR" := 1] && IsGreatestKey(m, "KR") && IsMostPublished(m, "CN")
  {
    var countries := ["CN", "KR", "CN"];
    var m := PublisherCounts(countries);
    assert multiset(countries)["CN"] == 2;
    assert multiset(countries)["KR"] == 1;
    assert "CN" in countries && "KR" in countries;
    assert m == map["CN" := 2, "KR" := 1];
    assert Codes("CN") == [67, 78] && Codes("KR") == [75, 82];
    assert StrLess("CN", "KR");
  }

  // ---------------------------------------------------------------------
  // The fallback region name

  type Crc = x: int | 0 <= x < 0x1_0000_0000

  /** The installation directory: two levels above the game executable. */
  function InstallationDir(exePath: string): string
  {
    ParentPath(ParentPath(exePath))
  }

  /** A character as UTF-16 code units (surrogate pair above the basic plane). */
  function Utf16(c: char): (r: seq<nat>)
    ensures 1 <= |r| <= 2 && forall i :: 0 <= i < |r| ==> r[i] < 0x1_0000
  {
    var v := c as int;
    if v < 0x1_0000 then [v]
    else [0xD800 + (v - 0x1_0000) / 0x400, 0xDC00 + (v - 0x1_0000) % 0x400]
  }

  /** The bytes of a wide-string buffer: each UTF-16 unit, low byte first. */
  function Utf16LeBytes(s: string): (r: seq<byte>)
    ensures |r| % 2 == 0
    decreases |s|
  {
    if |s| == 0 then []
    else
      var units := Utf16(s[0]);
      var head: seq<byte> := if |units| == 1 then [units[0] % 0x100, units[0] / 0x100]
        else [units[0] % 0x100, units[0] / 0x100, units[1] % 0x100, units[1] / 0x100];
      head + Utf16LeBytes(s[1..])
  }

  lemma Pow16Eight()
    ensures Pow16(8) == 0x1_0000_0000
  {
    assert Pow16(1) == 16;
    assert Pow16(2) == 0x100;
    assert Pow16(4) == 0x1_0000;
    assert Pow16(8) == 0x1_0000_0000;
  }

  /** A checksum as "{:08x}": eight lowercase hex digits. */
  function CrcHex(v: Crc): (r: string)
    ensures |r| == 8 && forall i :: 0 <= i < 8 ==> IsHexDigit(r[i])
    ensures HexValue(r) == v
  {
    Pow16Eight();
    HexPad(v, 8)
  }

  /** "unknown_" and the CRC-32 of the lowercased installation directory in eight
      lowercase hex digits. */
  function UnknownRegionName(dir: string, crc32: seq<byte> -> Crc): (r: string)
    ensures |r| == 16 && r[..8] == "unknown_"
    ensures forall i :: 8 <= i < 16 ==> IsHexDigit(r[i])
    ensures HexValue(r[8..]) == crc32(Utf16LeBytes(Lower(dir)))
  {
    var hex := CrcHex(crc32(Utf16LeBytes(Lower(dir))));
    assert ("unknown_" + hex)[8..] == hex;
    "unknown_" + hex
  }

  /** The fallback name does not depend on the directory's case. */
  lemma UnknownRegionNameIgnoresCase(dir: string, crc32: seq<byte> -> Crc)
    ensures UnknownRegionName(Lower(dir), crc32) == UnknownRegionName(dir, crc32)
  {
    LowerIdempotent(dir);
  }

  /** Different checksums give different names. */
  lemma UnknownRegionNameInjective(a: string, b: string, crc32: seq<byte> -> Crc)
    requires crc32(Utf16LeBytes(Lower(a))) != crc32(Utf16LeBytes(Lower(b)))
    ensures UnknownRegionName(a, crc32) != UnknownRegionName(b, crc32)
  {
    var ra := UnknownRegionName(a, crc32);
    var rb := UnknownRegionName(b, crc32);
    assert HexValue(ra[8..]) != HexValue(rb[8..]);
  }

  datatype RegionAndVersion = RegionAndVersion(region: string, version: string)

  /** The version file's location below the installation directory. */
  function GameVersionPath(exePath: string): string
  {
    Combine(Combine(InstallationDir(exePath), "game"), "ffxivgame.ver")
  }

  /** The version half of ResolveGameReleaseRegion: the error checks in the source's
      order, then the text sanitised in place. */
  method ReadGameVersion(versionFile: Option<VersionFile>, versionPath: string) returns (r: Result<string>)
    ensures r == GameVersionOf(versionFile, versionPath)
  {
    if versionFile.None? {
      return Err("ResolveGameReleaseRegion: Failed to open game version file(" + versionPath + ")");
    }
    var file := versionFile.value;
    if file.size > VersionFileLimit {
      return Err("ResolveGameReleaseRegion: Game version file size too big.");
    }
    if !file.readSucceeded {
      return Err("ResolveGameReleaseRegion: Failed to read game version file");
    }
    if file.bytesRead != file.size {
      return Err("ResolveGameReleaseRegion: Failed to read game version file in entirety.");
    }
    var buf := new char[|file.text|](i requires 0 <= i < |file.text| => file.text[i]);
    assert buf[..] == file.text;
    SanitizeInPlace(buf);
    return Ok(buf[..]);
  }

  /** The region half as written: max_element's pick, the greatest signing country,
      or, when no file is signed, the "unknown_" name of the installation directory. */
  method ReleaseRegion(installationDir: string, countries: seq<string>, crc32: seq<byte> -> Crc)
    returns (region: string)
    ensures PublisherCounts(countries) != map[] ==> IsGreatestKey(PublisherCounts(countries), region)
    ensures PublisherCounts(countries) == map[] ==> region == UnknownRegionName(installationDir, crc32)
  {
    var counts := CountPublishers(countries);
    if counts != map[] {
      assert |counts| > 0 by {
        var k :| k in counts;
      }
      region := MaxElement(counts);
    } else {
      region := UnknownRegionName(installationDir, crc32);
    }
  }

  /** The region half as the counting evidently intends: the country most signed
      files name, with the same fallback. */
  method ReleaseRegionByCount(installationDir: string, countries: seq<string>, crc32: seq<byte> -> Crc)
    returns (region: string)
    ensures PublisherCounts(countries) != map[] ==> IsMostPublished(PublisherCounts(countries), region)
    ensures PublisherCounts(countries) == map[] ==> region == UnknownRegionName(installationDir, crc32)
  {
    var counts := CountPublishers(countries);
    if counts != map[] {
      assert |counts| > 0 by {
        var k :| k in counts;
      }
      region := MostPublishedCountry(counts);
    } else {
      region := UnknownRegionName(installationDir, crc32);
    }
  }

  /** ResolveGameReleaseRegion(path): the sanitised version and the release region. */
  method ResolveGameReleaseRegion(exePath: string, versionFile: Option<VersionFile>,
                                  countries: seq<string>, crc32: seq<byte> -> Crc)
    returns (r: Result<RegionAndVersion>)
    ensures GameVersionOf(versionFile, GameVersionPath(exePath)).Err? ==>
      r == Err(GameVersionOf(versionFile, GameVersionPath(exePath)).message)
    ensures GameVersionOf(versionFile, GameVersionPath(exePath)).Ok? ==>
      r.Ok? && r.value.version == GameVersionOf(versionFile, GameVersionPath(exePath)).value
    ensures r.Ok? && PublisherCounts(countries) != map[] ==> IsGreatestKey(PublisherCounts(countries), r.value.region)
    ensures r.Ok? && PublisherCounts(countries) == map[] ==> r.value.region == UnknownRegionName(InstallationDir(exePath), crc32)
  {
    var version := ReadGameVersion(versionFile, GameVersionPath(exePath));
    if version.Err? {
      return Err(version.message);
    }
    var region := ReleaseRegion(InstallationDir(exePath), countries, crc32);
    return Ok(RegionAndVersion(region, version.value));
  }

  // ---------------------------------------------------------------------
  // Registry strings

  /** A registry value as one view of the registry holds it: absent or unreadable,
      or the wide characters of its data. */
  datatype RegistryValue = Unreadable | Data(chars: string)

  /** The text up to the first NUL. */
  function TruncateAtNul(s: string): (r: string)
    ensures '\0' !in r
    ensures |r| <= |s| && r == s[..|r|]
    ensures |r| < |s| ==> s[|r|] == '\0'
  {
    if |s| == 0 || s[0] == '\0' then ""
    else [s[0]] + TruncateAtNul(s[1..])
  }

  /** One view's reading: empty when the key or value cannot be read. */
  function ReadRegistryView(v: RegistryValue): string
  {
    if v.Unreadable? then "" else TruncateAtNul(v.chars)
  }

  /** Mode 0: the 32-bit view, and the 64-bit view only when that gave nothing. */
  function ReadRegistryAsString(view32: RegistryValue, view64: RegistryValue): (r: string)
    ensures '\0' !in r
  {
    var res1 := ReadRegistryView(view32);
    if res1 == "" then ReadRegistryView(view64) else res1
  }

  /** The 32-bit view wins whenever it holds text; the result is empty only when both views are. */
  lemma RegistryFallback(view32: RegistryValue, view64: RegistryValue)
    ensures ReadRegistryView(view32) != "" ==> ReadRegistryAsString(view32, view64) == ReadRegistryView(view32)
    ensures ReadRegistryAsString(view32, view64) == "" <==> ReadRegistryView(view32) == "" && ReadRegistryView(view64) == ""
  {
  }

  /** Text followed by NUL padding reads back as the text. */
  lemma {:induction false} TruncateAtNulPadding(text: string, padding: string)
    requires '\0' !in text
    requires forall i :: 0 <= i < |padding| ==> padding[i] == '\0'
    ensures TruncateAtNul(text + padding) == text
    decreases |text|
  {
    if |text| == 0 {
      assert text + padding == padding;
    } else {
      assert (text + padding)[1..] == text[1..] + padding;
      TruncateAtNulPadding(text[1..], padding);
    }
  }

  // ---------------------------------------------------------------------
  // De-duplicating the launcher list

  datatype GameRegion = International | Korean | Chinese

  /** One launcher candidate: region, installation root and what to start. */
  datatype LauncherRecord = LauncherRecord(region: GameRegion, rootPath: string, bootApp: string)

  /** The key std::set<path> tells roots apart by: two roots are the same
      element exactly when their path keys are equal. */
  function RootKey(r: LauncherRecord): string
  {
    PathKey(r.rootPath)
  }

  /** The keys of the records, as the `seen` set holds them. */
  function RootsOf(rs: seq<LauncherRecord>, key: LauncherRecord -> string): (r: set<string>)
    ensures forall p :: p in r <==> exists i :: 0 <= i < |rs| && key(rs[i]) == p
  {
    set i | 0 <= i < |rs| :: key(rs[i])
  }

  lemma RootsAppend(rs: seq<LauncherRecord>, x: LauncherRecord, key: LauncherRecord -> string)
    ensures RootsOf(rs + [x], key) == RootsOf(rs, key) + {key(x)}
  {
    var both := rs + [x];
    forall p | p in RootsOf(rs, key)
      ensures p in RootsOf(both, key)
    {
      var i :| 0 <= i < |rs| && key(rs[i]) == p;
      assert both[i] == rs[i];
    }
    assert both[|rs|] == x;
  }

  /** The records kept by remove_if with a `seen` set: each one whose key was
      not seen before. The launcher list is de-duplicated with key RootKey. */
  function Dedup(rs: seq<LauncherRecord>, key: LauncherRecord -> string): (r: seq<LauncherRecord>)
    ensures |r| <= |rs|
    ensures |rs| > 0 ==> |r| > 0 && r[0] == rs[0]
    decreases |rs|
  {
    if |rs| == 0 then []
    else
      var init := rs[..|rs| - 1];
      var last := rs[|rs| - 1];
      if key(last) in RootsOf(init, key) then Dedup(init, key) else Dedup(init, key) + [last]
  }

  /** The in-place remove_if followed by erase: the kept records move to the front, in order. */
  method RemoveDuplicates(a: array<LauncherRecord>, key: LauncherRecord -> string) returns (newEnd: nat)
    modifies a
    ensures newEnd <= a.Length
    ensures a[..newEnd] == Dedup(old(a[..]), key)
  {
    ghost var original := a[..];
    var seen: set<string> := {};
    var w := 0;
    var i := 0;
    while i < a.Length
      invariant 0 <= w <= i <= a.Length
      invariant a[..w] == Dedup(original[..i], key)
      invariant forall k :: i <= k < a.Length ==> a[k] == original[k]
      invariant seen == RootsOf(original[..i], key)
    {
      var r := a[i];
      ghost var upTo := original[..i + 1];
      assert upTo[..i] == original[..i] && upTo[i] == r;
      assert upTo == original[..i] + [r];
      RootsAppend(original[..i], r, key);
      if key(r) !in seen {
        assert Dedup(upTo, key) == Dedup(original[..i], key) + [r];
        seen := seen + {key(r)};
        ghost var kept := a[..w];
        a[w] := r;
        assert a[..w + 1] == kept + [r];
        w := w + 1;
      } else {
        assert Dedup(upTo, key) == Dedup(original[..i], key);
      }
      assert seen == RootsOf(original[..i + 1], key);
      i := i + 1;
    }
    assert original[..i] == original;
    return w;
  }

  /** The launcher list's de-duplication: roots compared as std::set<path> compares them. */
  method RemoveDuplicateRoots(a: array<LauncherRecord>) returns (newEnd: nat)
    modifies a
    ensures newEnd <= a.Length
    ensures a[..newEnd] == Dedup(old(a[..]), RootKey)
  {
    newEnd := RemoveDuplicates(a, RootKey);
  }

  /** The kept records are records of the input. */
  lemma {:induction false} DedupSubset(rs: seq<LauncherRecord>, key: LauncherRecord -> string)
    ensures forall x :: x in Dedup(rs, key) ==> x in rs
    decreases |rs|
  {
    if |rs| > 0 {
      DedupSubset(rs[..|rs| - 1], key);
    }
  }

  /** Every root of the input survives, exactly once. */
  lemma {:induction false} DedupRoots(rs: seq<LauncherRecord>, key: LauncherRecord -> string)
    ensures RootsOf(Dedup(rs, key), key) == RootsOf(rs, key)
    ensures forall i, j :: 0 <= i < j < |Dedup(rs, key)| ==> key(Dedup(rs, key)[i]) != key(Dedup(rs, key)[j])
    decreases |rs|
  {
    if |rs| > 0 {
      var init := rs[..|rs| - 1];
      var last := rs[|rs| - 1];
      DedupRoots(init, key);
      assert rs == init + [last];
      RootsAppend(init, last, key);
      if key(last) !in RootsOf(init, key) {
        var d := Dedup(init, key);
        assert Dedup(rs, key) == d + [last];
        RootsAppend(d, last, key);
        forall i | 0 <= i < |d|
          ensures key(d[i]) != key(last)
        {
          assert key(d[i]) in RootsOf(d, key);
        }
      }
    }
  }

  /** No record before position i has the key of the record at i. */
  predicate FirstOfItsKey(rs: seq<LauncherRecord>, i: nat, key: LauncherRecord -> string)
    requires i < |rs|
  {
    forall j :: 0 <= j < i ==> key(rs[j]) != key(rs[i])
  }

  /** A kept record is the first record of the input with its root. */
  lemma {:induction false} DedupKeepsFirst(rs: seq<LauncherRecord>, k: nat, key: LauncherRecord -> string)
    requires k < |Dedup(rs, key)|
    ensures exists i :: 0 <= i < |rs| && rs[i] == Dedup(rs, key)[k] && FirstOfItsKey(rs, i, key)
    decreases |rs|
  {
    var init := rs[..|rs| - 1];
    var last := rs[|rs| - 1];
    var d := Dedup(init, key);
    assert Dedup(rs, key) == if key(last) in RootsOf(init, key) then d else d + [last];
    if k < |d| {
      DedupKeepsFirst(init, k, key);
      var i :| 0 <= i < |init| && init[i] == d[k] && FirstOfItsKey(init, i, key);
      FirstOfItsKeyInPrefix(rs, init, i, key);
      assert rs[i] == Dedup(rs, key)[k];
    } else {
      assert key(last) !in RootsOf(init, key);
      assert Dedup(rs, key)[k] == last;
      forall j | 0 <= j < |rs| - 1
        ensures key(rs[j]) != key(last)
      {
        assert init[j] == rs[j];
      }
      assert FirstOfItsKey(rs, |rs| - 1, key);
    }
  }

  lemma FirstOfItsKeyInPrefix(rs: seq<LauncherRecord>, init: seq<LauncherRecord>, i: nat, key: LauncherRecord -> string)
    requires i < |init| <= |rs| && init == rs[..|init|]
    requires FirstOfItsKey(init, i, key)
    ensures FirstOfItsKey(rs, i, key)
  {
    forall j | 0 <= j < i
      ensures key(rs[j]) != key(rs[i])
    {
      assert rs[j] == init[j] && rs[i] == init[i];
    }
  }

  /** The positions below n that hold the first record of their key, in increasing order. */
  function FirstPositions(rs: seq<LauncherRecord>, n: nat, key: LauncherRecord -> string): (r: seq<nat>)
    requires n <= |rs|
    ensures forall j :: 0 <= j < |r| ==> r[j] < n && FirstOfItsKey(rs, r[j], key)
    ensures forall j, l :: 0 <= j < l < |r| ==> r[j] < r[l]
    ensures forall i :: 0 <= i < n && FirstOfItsKey(rs, i, key) ==> i in r
    decreases n
  {
    if n == 0 then []
    else FirstPositions(rs, n - 1, key) + (if FirstOfItsKey(rs, n - 1, key) then [n - 1] else [])
  }

  /** The records at the given positions, in the order of the positions. */
  function Pick(rs: seq<LauncherRecord>, ps: seq<nat>): (r: seq<LauncherRecord>)
    requires forall j :: 0 <= j < |ps| ==> ps[j] < |rs|
    ensures |r| == |ps| && forall j :: 0 <= j < |ps| ==> r[j] == rs[ps[j]]
  {
    seq(|ps|, j requires 0 <= j < |ps| => rs[ps[j]])
  }

  /** De-duplication keeps exactly the first record of each key, in the order
      of the input: the kept records are the input's records at the positions
      FirstPositions lists, which increase. */
  lemma {:induction false} DedupInOrder(rs: seq<LauncherRecord>, key: LauncherRecord -> string)
    ensures Dedup(rs, key) == Pick(rs, FirstPositions(rs, |rs|, key))
    decreases |rs|
  {
    if |rs| > 0 {
      var n := |rs| - 1;
      var init := rs[..n];
      var ps := FirstPositions(init, n, key);
      DedupInOrder(init, key);
      PickPrefix(rs, init, ps);
      FirstPositionsStep(rs, key);
      FirstKeyAtEnd(rs, key);
      if FirstOfItsKey(rs, n, key) {
        PickAppend(rs, ps, n);
      }
    }
  }

  lemma PickPrefix(rs: seq<LauncherRecord>, init: seq<LauncherRecord>, ps: seq<nat>)
    requires |init| <= |rs| && init == rs[..|init|]
    requires forall j :: 0 <= j < |ps| ==> ps[j] < |init|
    ensures Pick(init, ps) == Pick(rs, ps)
  {
  }

  lemma PickAppend(rs: seq<LauncherRecord>, ps: seq<nat>, n: nat)
    requires n < |rs| && forall j :: 0 <= j < |ps| ==> ps[j] < |rs|
    ensures Pick(rs, ps + [n]) == Pick(rs, ps) + [rs[n]]
  {
  }

  /** The positions of the whole input: those of all but the last record, and the last when it is a first. */
  lemma FirstPositionsStep(rs: seq<LauncherRecord>, key: LauncherRecord -> string)
    requires |rs| > 0
    ensures var n := |rs| - 1;
      FirstPositions(rs, |rs|, key) == FirstPositions(rs[..n], n, key) + (if FirstOfItsKey(rs, n, key) then [n] else [])
  {
    var n := |rs| - 1;
    FirstPositionsOfPrefix(rs, rs[..n], n, key);
  }

  /** The last record is the first of its key exactly when no earlier record has its key. */
  lemma FirstKeyAtEnd(rs: seq<LauncherRecord>, key: LauncherRecord -> string)
    requires |rs| > 0
    ensures FirstOfItsKey(rs, |rs| - 1, key) <==> key(rs[|rs| - 1]) !in RootsOf(rs[..|rs| - 1], key)
  {
    var n := |rs| - 1;
    var init := rs[..n];
    if key(rs[n]) in RootsOf(init, key) {
      var i :| 0 <= i < n && key(init[i]) == key(rs[n]);
      assert rs[i] == init[i];
    } else {
      forall j | 0 <= j < n
        ensures key(rs[j]) != key(rs[n])
      {
        assert rs[j] == init[j];
      }
    }
  }

  /** Extending the input does not change which positions of a prefix are first occurrences. */
  lemma {:induction false} FirstPositionsOfPrefix(rs: seq<LauncherRecord>, init: seq<LauncherRecord>, n: nat, key: LauncherRecord -> string)
    requires n <= |init| <= |rs| && init == rs[..|init|]
    ensures FirstPositions(rs, n, key) == FirstPositions(init, n, key)
    decreases n
  {
    if n > 0 {
      FirstPositionsOfPrefix(rs, init, n - 1, key);
      assert FirstOfItsKey(rs, n - 1, key) == FirstOfItsKey(init, n - 1, key) by {
        assert forall j :: 0 <= j < n ==> rs[j] == init[j];
      }
    }
  }

  /** Of two records with the same key, the later one is dropped. */
  lemma DedupSameKey(x: LauncherRecord, y: LauncherRecord, key: LauncherRecord -> string)
    requires key(x) == key(y)
    ensures Dedup([x, y], key) == [x]
  {
    assert [x, y][..1] == [x] && [x, y][1] == y;
    assert key([x][0]) == key(y);
    assert key(y) in RootsOf([x], key);
    assert [x][..0] == [];
    assert RootsOf([], key) == {};
    assert Dedup([x], key) == [x];
  }

  lemma SpellingsShareRootKey(x: LauncherRecord, y: LauncherRecord)
    requires x.rootPath == "C:/a//b" && y.rootPath == "C:\\a\\b"
    ensures RootKey(x) == RootKey(y)
  {
    PathKeyExamples();
  }

  /** Two records whose roots differ only in separator style and repeated
      separators are one root to the set: the later record is dropped. */
  lemma DedupMergesSpellings(x: LauncherRecord, y: LauncherRecord)
    requires x.rootPath == "C:/a//b" && y.rootPath == "C:\\a\\b"
    ensures Dedup([x, y], RootKey) == [x]
  {
    SpellingsShareRootKey(x, y);
    DedupSameKey(x, y, RootKey);
  }

  // ---------------------------------------------------------------------
  // Recognising the addon's DLL

  const MainDllDescription: string := "XivAlexander Main DLL"

  /** What the version resource of a file yields: no resource, an unreadable one, one
      without a translation table, or the FileDescription found for each translation
      (None where the query failed). */
  datatype VersionResource = NoVersionInfo | Unreadable | NoTranslationTable | Translations(descriptions: seq<Option<string>>)

  function StripTrailingNuls(s: string): (r: string)
    ensures |r| <= |s| && r == s[..|r|]
    ensures |r| > 0 ==> r[|r| - 1] != '\0'
    ensures forall i :: |r| <= i < |s| ==> s[i] == '\0'
    decreases |s|
  {
    if |s| > 0 && s[|s| - 1] == '\0' then StripTrailingNuls(s[..|s| - 1]) else s
  }

  /** A description naming the main DLL once its NUL padding is gone. */
  predicate NamesMainDll(d: Option<string>)
  {
    d.Some? && StripTrailingNuls(d.value) == MainDllDescription
  }

  method IsXivAlexanderDll(info: VersionResource) returns (r: Result<bool>)
    ensures info.NoVersionInfo? ==> r == Err("GetFileVersionInfoSizeW")
    ensures info.Unreadable? ==> r == Err("GetFileVersionInfoW")
    ensures info.NoTranslationTable? ==> r == Ok(false)
    ensures info.Translations? ==>
      r == Ok(exists i :: 0 <= i < |info.descriptions| && NamesMainDll(info.descriptions[i]))
  {
    match info {
      case NoVersionInfo => return Err("GetFileVersionInfoSizeW");
      case Unreadable => return Err("GetFileVersionInfoW");
      case NoTranslationTable => return Ok(false);
      case Translations(descriptions) =>
        var i := 0;
        while i < |descriptions|
          invariant 0 <= i <= |descriptions|
          invariant forall k :: 0 <= k < i ==> !NamesMainDll(descriptions[k])
        {
          if descriptions[i].Some? {
            var currName := descriptions[i].value;
            while |currName| > 0 && currName[|currName| - 1] == '\0'
              invariant StripTrailingNuls(currName) == StripTrailingNuls(descriptions[i].value)
            {
              currName := currName[..|currName| - 1];
            }
            if |currName| > 0 && currName == MainDllDescription {
              return Ok(true);
            }
          }
          i := i + 1;
        }
        return Ok(false);
    }
  }

  /** The description is recognised however much NUL padding the resource carries. */
  lemma {:induction false} PaddedDescriptionRecognised(padding: nat)
    ensures NamesMainDll(Some(MainDllDescription + seq(padding, _ => '\0')))
    decreases padding
  {
    if padding > 0 {
      var s := MainDllDescription + seq(padding, _ => '\0');
      assert s[..|s| - 1] == MainDllDescription + seq(padding - 1, _ => '\0');
      PaddedDescriptionRecognised(padding - 1);
    }
  }
}
