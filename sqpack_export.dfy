/** ScratchProject's test_convert: find the ffxiv 000000.win32.index under the
    game's sqpack folder, add every file under the replacement folder next to
    it to the virtual archive under a normalised logical path, read every data
    file through, and export the index, index2 and data files by copying
    chunks until the archive reports nothing more.

    The archive engine is not part of this model: a stream of it is a Reader,
    the number of bytes it copies into the buffer when asked at an offset, and
    an output file is a Writer, the number of bytes the file reports written. */
module SqpackExport {
  import opened Text
  import opened FsPath

  // ---------------------------------------------------------------------
  // Logical paths of replacement files (lines 36-44)

  function SlashChar(c: char): (r: char)
    ensures r != '\\'
    ensures IsSeparator(r) <==> IsSeparator(c)
  {
    if c == '\\' then '/' else c
  }

  /** The string with every backslash turned into a forward slash. */
  function Slashed(s: string): (r: string)
    ensures |r| == |s| && '\\' !in r
  {
    MapChars(SlashChar, s)
  }

  /** The logical path of a file at relative path rel under the replacement
      folder: the parent part with forward slashes, a slash, the file name,
      both lowercased. */
  function LogicalPath(rel: string): string
  {
    Lower(Slashed(ParentPath(rel))) + "/" + Lower(FileName(rel))
  }

  /** The in-place loop over pathComponent: backslashes become slashes, all
      other characters stay. */
  method ForwardSlashes(a: array<char>)
    modifies a
    ensures a[..] == Slashed(old(a[..]))
  {
    var i := 0;
    while i < a.Length
      invariant 0 <= i <= a.Length
      invariant forall j :: 0 <= j < i ==> a[j] == SlashChar(old(a[j]))
      invariant forall j :: i <= j < a.Length ==> a[j] == old(a[j])
    {
      if a[i] == '\\' {
        a[i] := '/';
      }
      i := i + 1;
    }
  }

  /** The logical path as test_convert builds it, with the separator rewrite
      done in place on a buffer holding the parent part. */
  method Normalise(rel: string) returns (fullPath: string)
    ensures fullPath == LogicalPath(rel)
  {
    var pathComponent := ParentPath(rel);
    var nameComponent := FileName(rel);
    var buffer := new char[|pathComponent|](i requires 0 <= i < |pathComponent| => pathComponent[i]);
    assert buffer[..] == pathComponent;
    ForwardSlashes(buffer);
    fullPath := Lower(buffer[..]) + "/" + Lower(nameComponent);
  }

  predicate HasNoSeparator(s: string)
  {
    forall i :: 0 <= i < |s| ==> !IsSeparator(s[i])
  }

  /** A lowered file name still has no separator. */
  lemma LowerKeepsNoSeparator(s: string)
    requires HasNoSeparator(s)
    ensures HasNoSeparator(Lower(s))
  {
  }

  /** The file name of the logical path is the lowered file name. */
  lemma LogicalPathName(rel: string)
    ensures FileName(LogicalPath(rel)) == Lower(FileName(rel))
  {
    var dir := Lower(Slashed(ParentPath(rel)));
    var name := Lower(FileName(rel));
    LowerKeepsNoSeparator(FileName(rel));
    assert LogicalPath(rel) == dir + ['/'] + name;
    SplitAtLastSeparator(dir, '/', name);
  }

  /** A path relative to the replacement folder is relative: no drive and no
      leading separator. */
  predicate IsRelative(rel: string)
  {
    RootEnd(rel) == 0
  }

  /** For a file below a subfolder, the parent of the logical path is the
      lowered, slashed parent; a file directly in the folder gets the root "/"
      as parent instead (DirectChildNormalisedTwice). */
  lemma LogicalPathParent(rel: string)
    requires IsRelative(rel) && ParentPath(rel) != ""
    ensures ParentPath(LogicalPath(rel)) == Lower(Slashed(ParentPath(rel)))
  {
    var parent := ParentPath(rel);
    var dir := Lower(Slashed(parent));
    var name := Lower(FileName(rel));
    LowerKeepsNoSeparator(FileName(rel));
    assert LogicalPath(rel) == dir + ['/'] + name;
    ComposedKeepsPathSyntax();
    assert dir == MapChars(LowerSlash, parent);
    BoundsMapped(LowerSlash, parent);
    assert RootNameEnd(parent) == 0 by {
      if |parent| >= 2 {
        assert parent[0] == rel[0] && parent[1] == rel[1];
      }
    }
    assert RootEnd(parent) == 0 by {
      assert parent[0] == rel[0];
    }
    assert !IsSeparator(dir[|dir| - 1]) by {
      assert dir[|dir| - 1] == LowerSlash(parent[|parent| - 1]);
    }
    SplitAtLastSeparator(dir, '/', name);
  }

  /** Lowering after rewriting separators, as one character map. */
  function LowerSlash(c: char): char
  {
    LowerChar(SlashChar(c))
  }

  lemma ComposedKeepsPathSyntax()
    ensures KeepsPathSyntax(LowerSlash)
  {
  }

  lemma SlashKeepsPathSyntax()
    ensures KeepsPathSyntax(SlashChar)
  {
  }

  /** The logical path has no backslash and no capital letter. */
  lemma LogicalPathIsNormal(rel: string)
    ensures '/' in LogicalPath(rel)
    ensures '\\' !in LogicalPath(rel)
    ensures IsLowered(LogicalPath(rel))
  {
    var dir := Slashed(ParentPath(rel));
    var name := FileName(rel);
    LowerIsLowered(dir);
    LowerIsLowered(name);
    LowerKeepsNoBackslash(dir);
    LowerKeepsNoSeparator(name);
    NormalJoin(Lower(dir), Lower(name));
  }

  lemma LowerKeepsNoBackslash(s: string)
    requires '\\' !in s
    ensures '\\' !in Lower(s)
  {
  }

  /** Two slash-free, lowered parts joined by a slash. */
  lemma NormalJoin(a: string, b: string)
    requires '\\' !in a && IsLowered(a) && '\\' !in b && IsLowered(b)
    ensures var s := a + "/" + b; '/' in s && '\\' !in s && IsLowered(s)
  {
    var s := a + "/" + b;
    assert s[|a|] == '/';
    forall i | 0 <= i < |s|
      ensures s[i] != '\\' && !IsUpper(s[i])
    {
      if i < |a| {
        assert s[i] == a[i];
      } else if i > |a| {
        assert s[i] == b[i - |a| - 1];
      }
    }
  }

  /** A slash-free, lowered string is left alone by both rewrites. */
  lemma NormalFixed(s: string)
    requires '\\' !in s && IsLowered(s)
    ensures Lower(Slashed(s)) == s
  {
    assert Slashed(s) == s;
    LowerOfLowered(s);
  }

  /** Normalising the logical path of a file below a subfolder again gives it back. */
  lemma LogicalPathIdempotent(rel: string)
    requires IsRelative(rel) && ParentPath(rel) != ""
    ensures LogicalPath(LogicalPath(rel)) == LogicalPath(rel)
  {
    var p := LogicalPath(rel);
    LogicalPathName(rel);
    LogicalPathParent(rel);
    var dir := Lower(Slashed(ParentPath(rel)));
    LowerIsLowered(Slashed(ParentPath(rel)));
    assert forall i :: 0 <= i < |dir| ==> dir[i] == LowerChar(Slashed(ParentPath(rel))[i]);
    NormalFixed(dir);
    LowerIdempotent(FileName(rel));
  }

  /** Folding case before normalising changes nothing. */
  lemma LogicalPathIgnoresCase(rel: string)
    ensures LogicalPath(Lower(rel)) == LogicalPath(rel)
  {
    LowerIsMap(rel);
    LowerKeepsPathSyntax();
    ComponentsMapped(LowerChar, rel);
    LowerIsMap(FileName(rel));
    LowerIsMap(ParentPath(rel));
    LowerIdempotent(FileName(rel));
    var parent := ParentPath(rel);
    assert Lower(Slashed(Lower(parent))) == Lower(Slashed(parent));
  }

  /** Writing the separators as slashes before normalising changes nothing. */
  lemma LogicalPathIgnoresSeparatorStyle(rel: string)
    ensures LogicalPath(Slashed(rel)) == LogicalPath(rel)
  {
    SlashKeepsPathSyntax();
    ComponentsMapped(SlashChar, rel);
    var name := FileName(rel);
    assert Slashed(name) == name;
    var parent := ParentPath(rel);
    assert Slashed(Slashed(parent)) == Slashed(parent);
  }

  /** Relative paths that agree up to case and separator style have the same
      logical path. */
  lemma LogicalPathAgrees(a: string, b: string)
    requires Lower(Slashed(a)) == Lower(Slashed(b))
    ensures LogicalPath(a) == LogicalPath(b)
  {
    LogicalPathIgnoresSeparatorStyle(a);
    LogicalPathIgnoresCase(Slashed(a));
    LogicalPathIgnoresSeparatorStyle(b);
    LogicalPathIgnoresCase(Slashed(b));
  }

  /** A file directly under the replacement folder has an empty parent part,
      so its logical path starts with the slash. */
  lemma LogicalPathOfDirectChild(rel: string)
    requires HasNoSeparator(rel) && RootNameEnd(rel) == 0
    ensures LogicalPath(rel) == "/" + Lower(rel)
  {
    NameStartOfName(rel);
    assert FileName(rel) == rel;
  }

  /** The logical path of such a file has the root "/" as its parent, so
      normalising it again adds a slash in front. */
  lemma DirectChildNormalisedTwice(rel: string)
    requires HasNoSeparator(rel) && RootNameEnd(rel) == 0
    ensures LogicalPath(LogicalPath(rel)) == "/" + LogicalPath(rel)
  {
    LogicalPathOfDirectChild(rel);
    LowerKeepsNoSeparator(rel);
    LowerIsLowered(rel);
    LogicalPathOfRooted(Lower(rel));
  }

  lemma LogicalPathOfRooted(name: string)
    requires HasNoSeparator(name) && IsLowered(name)
    ensures LogicalPath("/" + name) == "/" + ("/" + name)
  {
    RootedNameComponents('/', name);
    assert Slashed("/") == "/";
    assert Lower("/") == "/";
    LowerOfLowered(name);
  }

  // ---------------------------------------------------------------------
  // Walking the replacement folder (lines 30-47)

  /** What the recursive walk meets: the path relative to the replacement
      folder and whether it is a directory. */
  datatype WalkEntry = WalkEntry(rel: string, isDirectory: bool)

  /** An entry added to the virtual archive: its logical path and the file it reads. */
  datatype Override = Override(logicalPath: string, file: string)

  /** The replacement folder: the index path without its extension (and
      without an alternate data stream of its file name). */
  function ReplacementRoot(indexPath: string): (r: string)
    ensures r + Extension(indexPath) + AlternateStream(indexPath) == indexPath
  {
    RemoveExtension(indexPath)
  }

  /** The entries the walk adds: one per file, in walk order; directories are skipped. */
  function Overrides(root: string, walk: seq<WalkEntry>): (r: seq<Override>)
    ensures |r| <= |walk|
    decreases |walk|
  {
    if |walk| == 0 then []
    else
      var e := walk[|walk| - 1];
      Overrides(root, walk[..|walk| - 1])
        + EntryOverride(root, e)
  }

  method AddOverrides(root: string, walk: seq<WalkEntry>) returns (added: seq<Override>)
    ensures added == Overrides(root, walk)
  {
    added := [];
    var i := 0;
    while i < |walk|
      invariant 0 <= i <= |walk|
      invariant added == Overrides(root, walk[..i])
    {
      OverridesStep(root, walk, i);
      var e := walk[i];
      if !e.isDirectory {
        var fullPath := Normalise(e.rel);
        added := added + [Override(fullPath, Combine(root, e.rel))];
      }
      i := i + 1;
    }
    assert walk[..i] == walk;
  }

  /** The overrides of one more walk entry. */
  function EntryOverride(root: string, e: WalkEntry): seq<Override>
  {
    if e.isDirectory then [] else [Override(LogicalPath(e.rel), Combine(root, e.rel))]
  }

  lemma EntryOverrideIsNormal(root: string, e: WalkEntry)
    ensures |EntryOverride(root, e)| == if e.isDirectory then 0 else 1
    ensures forall k :: 0 <= k < |EntryOverride(root, e)| ==> IsLogicalPath(EntryOverride(root, e)[k].logicalPath)
  {
    LogicalPathIsNormal(e.rel);
  }

  lemma OverridesStep(root: string, walk: seq<WalkEntry>, i: nat)
    requires i < |walk|
    ensures Overrides(root, walk[..i + 1]) == Overrides(root, walk[..i]) + EntryOverride(root, walk[i])
  {
    assert walk[..i + 1][..i] == walk[..i];
  }

  function FileCount(walk: seq<WalkEntry>): nat
    decreases |walk|
  {
    if |walk| == 0 then 0
    else FileCount(walk[..|walk| - 1]) + (if walk[|walk| - 1].isDirectory then 0 else 1)
  }

  /** The shape of what normalisation yields: a slash, no backslash, no capital. */
  predicate IsLogicalPath(s: string)
  {
    '/' in s && '\\' !in s && IsLowered(s)
  }

  /** One entry per file of the walk, each under a normalised logical path. */
  lemma {:induction false} OverridesAreNormal(root: string, walk: seq<WalkEntry>)
    ensures |Overrides(root, walk)| == FileCount(walk)
    ensures forall k :: 0 <= k < |Overrides(root, walk)| ==> IsLogicalPath(Overrides(root, walk)[k].logicalPath)
    decreases |walk|
  {
    if |walk| > 0 {
      var front := walk[..|walk| - 1];
      var e := walk[|walk| - 1];
      OverridesAreNormal(root, front);
      EntryOverrideIsNormal(root, e);
      var before: seq<Override> := Overrides(root, front);
      var more: seq<Override> := EntryOverride(root, e);
      var all: seq<Override> := before + more;
      assert Overrides(root, walk) == all;
      forall k | 0 <= k < |all|
        ensures IsLogicalPath(all[k].logicalPath)
      {
        if k >= |before| {
          assert all[k] == more[k - |before|];
        }
      }
    }
  }

  // ---------------------------------------------------------------------
  // Picking the index (lines 14-24 and 113)

  const GameFolder: string := "ffxiv"
  const IndexFileName: string := "000000.win32.index"
  const IndexExtension: string := ".index"

  /** An entry of the sqpack folder: its name, whether it is a directory, and
      the names inside it. */
  datatype Listing = Listing(name: string, isDirectory: bool, children: seq<string>)

  predicate HoldsIndex(e: Listing)
  {
    e.isDirectory && e.name == GameFolder && IndexFileName in e.children
  }

  /** The index test_convert works on: the first ffxiv directory holding a
      000000.win32.index; it returns after that one. */
  function FirstIndex(root: string, entries: seq<Listing>): (r: Option<string>)
    decreases |entries|
  {
    if |entries| == 0 then None
    else if HoldsIndex(entries[0]) then Some(Combine(Combine(root, GameFolder), IndexFileName))
    else FirstIndex(root, entries[1..])
  }

  /** The extension test after the name test never refuses anything. */
  lemma IndexNameHasIndexExtension()
    ensures FileName(IndexFileName) == IndexFileName
    ensures Extension(IndexFileName) == IndexExtension
  {
    IndexNameChars();
    IndexNameSplit();
    SliceAfterPrefix("000000.win32", IndexExtension);
    PlainNameExtension(IndexFileName, 12, IndexExtension);
  }

  /** The index name is made of letters, digits and dots, its last dot at 12. */
  lemma IndexNameChars()
    ensures |IndexFileName| == 18
    ensures forall i :: 0 <= i < |IndexFileName| ==>
      IndexFileName[i] == '.' || 'a' <= IndexFileName[i] <= 'z' || '0' <= IndexFileName[i] <= '9'
    ensures IndexFileName[12] == '.' && forall i :: 12 < i < |IndexFileName| ==> IndexFileName[i] != '.'
  {
  }

  lemma SliceAfterPrefix(a: string, b: string)
    ensures (a + b)[|a|..] == b
  {
  }

  /** The index name is its own file name and has no alternate data stream. */
  lemma IndexNameStreamless()
    ensures FileName(IndexFileName) == IndexFileName
    ensures StreamlessName(IndexFileName) == IndexFileName
    ensures AlternateStream(IndexFileName) == ""
  {
    IndexNameChars();
    PlainNameParts(IndexFileName);
  }

  /** The test of lines 21 and 23: the name is 000000.win32.index and its
      extension is ".index"; the second half never refuses. */
  function IsIndexName(name: string): (r: bool)
    ensures r <==> name == IndexFileName
  {
    IndexNameHasIndexExtension();
    name == IndexFileName && Extension(name) == IndexExtension
  }

  /** The inner loop over the ffxiv folder: a child passes when its name is
      000000.win32.index and its extension is ".index". */
  method FindIndexName(children: seq<string>) returns (found: bool)
    ensures found <==> IndexFileName in children
  {
    var j := 0;
    while j < |children|
      invariant 0 <= j <= |children|
      invariant IndexFileName !in children[..j]
    {
      var name := children[j];
      assert children[..j + 1] == children[..j] + [name];
      if IsIndexName(name) {
        return true;
      }
      j := j + 1;
    }
    assert children[..j] == children;
    found := false;
  }

  /** The outer loop over the sqpack folder, returning after the first index. */
  method SelectIndex(root: string, entries: seq<Listing>) returns (r: Option<string>)
    ensures r == FirstIndex(root, entries)
  {
    var i := 0;
    while i < |entries|
      invariant 0 <= i <= |entries|
      invariant FirstIndex(root, entries[i..]) == FirstIndex(root, entries)
    {
      var entry1 := entries[i];
      assert entries[i..][1..] == entries[i + 1..];
      if !entry1.isDirectory || entry1.name != GameFolder {
        i := i + 1;
        continue;
      }
      var found := FindIndexName(entry1.children);
      if found {
        return Some(Combine(Combine(root, entry1.name), IndexFileName));
      }
      i := i + 1;
    }
    r := None;
  }

  /** FirstIndex finds an index exactly when some entry holds one, and then
      the first such entry; the path names the index file inside ffxiv. */
  lemma {:induction false} FirstIndexFound(root: string, entries: seq<Listing>)
    ensures FirstIndex(root, entries).Some? <==> exists k :: 0 <= k < |entries| && HoldsIndex(entries[k])
    ensures FirstIndex(root, entries).Some? ==>
      FirstIndex(root, entries).value == Combine(Combine(root, GameFolder), IndexFileName)
    decreases |entries|
  {
    if |entries| > 0 {
      FirstIndexFound(root, entries[1..]);
      if !HoldsIndex(entries[0]) {
        forall k | 0 <= k < |entries| && HoldsIndex(entries[k])
          ensures exists m :: 0 <= m < |entries[1..]| && HoldsIndex(entries[1..][m])
        {
          assert entries[1..][k - 1] == entries[k];
        }
      }
    }
  }

  /** The index found sits in the ffxiv folder. */
  lemma IndexPathParts(root: string)
    ensures var p := Combine(Combine(root, GameFolder), IndexFileName);
      FileName(p) == IndexFileName && ParentPath(p) == Combine(root, GameFolder)
  {
    var folder := Combine(root, GameFolder);
    assert folder[|folder| - 1] == 'v';
    assert forall i :: 0 <= i < |IndexFileName| ==> !IsSeparator(IndexFileName[i]);
    CombineComponents(folder, IndexFileName);
  }

  /** The extension of the index path is ".index". */
  lemma IndexPathExtension(root: string)
    ensures Extension(Combine(Combine(root, GameFolder), IndexFileName)) == IndexExtension
    ensures AlternateStream(Combine(Combine(root, GameFolder), IndexFileName)) == ""
  {
    IndexPathParts(root);
    IndexNameHasIndexExtension();
    IndexNameStreamless();
    var p := Combine(Combine(root, GameFolder), IndexFileName);
    assert FileName(p) == FileName(IndexFileName);
  }

  /** Inside a folder, the index name is the stem name followed by ".index". */
  lemma IndexNameInFolder(folder: string)
    requires folder != "" && !IsSeparator(folder[|folder| - 1])
    ensures Combine(folder, "000000.win32") + IndexExtension == Combine(folder, IndexFileName)
  {
    IndexNameSplit();
    AppendAssoc(folder + "\\", "000000.win32", IndexExtension);
  }

  lemma IndexNameSplit()
    ensures IndexFileName == "000000.win32" + IndexExtension
  {
  }

  /** Its replacement folder is the same place without ".index". */
  lemma IndexReplacementRoot(root: string)
    ensures ReplacementRoot(Combine(Combine(root, GameFolder), IndexFileName))
      == Combine(Combine(root, GameFolder), "000000.win32")
  {
    var folder := Combine(root, GameFolder);
    assert folder[|folder| - 1] == 'v';
    IndexNameInFolder(folder);
    IndexPathExtension(root);
    var p := Combine(folder, IndexFileName);
    AppendCancel(ReplacementRoot(p), Combine(folder, "000000.win32"), IndexExtension);
  }

  // ---------------------------------------------------------------------
  // Reading a stream through (lines 57-66)

  /** The bytes the engine copies into the buffer when asked at an offset. */
  type Reader = nat -> nat

  /** The offset after the first k reads, each advancing by what it returned. */
  function ReadPos(read: Reader, k: nat): nat
  {
    if k == 0 then 0 else ReadPos(read, k - 1) + read(ReadPos(read, k - 1))
  }

  /** What the first k reads returned. */
  function Chunks(read: Reader, k: nat): (r: seq<nat>)
    ensures |r| == k
  {
    if k == 0 then [] else Chunks(read, k - 1) + [read(ReadPos(read, k - 1))]
  }

  function Sum(s: seq<nat>): nat
    decreases |s|
  {
    if |s| == 0 then 0 else Sum(s[..|s| - 1]) + s[|s| - 1]
  }

  /** The loop stops after k reads: the k + 1st returns 0, none before did. */
  predicate EndOfStream(read: Reader, k: nat)
  {
    read(ReadPos(read, k)) == 0 && forall j :: 0 <= j < k ==> read(ReadPos(read, j)) > 0
  }

  /** The offset a read starts at is what the reads before it returned, in sum. */
  lemma {:induction false} ReadPosIsSum(read: Reader, k: nat)
    ensures ReadPos(read, k) == Sum(Chunks(read, k))
  {
    if k > 0 {
      ReadPosIsSum(read, k - 1);
      assert Chunks(read, k)[..k - 1] == Chunks(read, k - 1);
    }
  }

  /** The reads are contiguous: read j starts where read j - 1 ended. */
  lemma {:induction false} ChunksPrefix(read: Reader, j: nat, k: nat)
    requires j <= k
    ensures Chunks(read, k)[..j] == Chunks(read, j)
    decreases k
  {
    if j < k {
      ChunksPrefix(read, j, k - 1);
      assert Chunks(read, k)[..k - 1] == Chunks(read, k - 1);
    }
  }

  /** There is one place the loop stops. */
  lemma EndOfStreamUnique(read: Reader, k1: nat, k2: nat)
    requires EndOfStream(read, k1) && EndOfStream(read, k2)
    ensures k1 == k2
  {
    if k1 < k2 {
      assert false;
    } else if k2 < k1 {
      assert false;
    }
  }

  /** The read-until-zero loop. It ends when the engine eventually returns 0
      at the offset reached, which `ends` witnesses. */
  method ReadToEnd(read: Reader, ghost ends: nat) returns (pos: nat, ghost count: nat)
    requires read(ReadPos(read, ends)) == 0
    ensures count <= ends && EndOfStream(read, count)
    ensures pos == ReadPos(read, count) == Sum(Chunks(read, count))
  {
    pos := 0;
    count := 0;
    while true
      invariant count <= ends && pos == ReadPos(read, count)
      invariant forall j :: 0 <= j < count ==> read(ReadPos(read, j)) > 0
      decreases ends - count
    {
      var w := read(pos);
      if w == 0 {
        break;
      }
      pos := pos + w;
      count := count + 1;
    }
    ReadPosIsSum(read, count);
  }

  /** The test pass over the data files: each is read through from offset 0;
      pos keeps the end of the last one. */
  method ReadAllData(dats: seq<Reader>, ghost ends: seq<nat>) returns (pos: nat, ghost counts: seq<nat>)
    requires |ends| == |dats|
    requires forall i :: 0 <= i < |dats| ==> dats[i](ReadPos(dats[i], ends[i])) == 0
    ensures |counts| == |dats|
    ensures forall i :: 0 <= i < |dats| ==> EndOfStream(dats[i], counts[i])
    ensures pos == if |dats| == 0 then 0 else ReadPos(dats[|dats| - 1], counts[|dats| - 1])
  {
    pos := 0;
    counts := [];
    var i := 0;
    while i < |dats|
      invariant 0 <= i <= |dats| && |counts| == i
      invariant forall k :: 0 <= k < i ==> EndOfStream(dats[k], counts[k])
      invariant pos == if i == 0 then 0 else ReadPos(dats[i - 1], counts[i - 1])
    {
      var size, count := ReadToEnd(dats[i], ends[i]);
      pos := size;
      counts := counts + [count];
      i := i + 1;
    }
  }

  // ---------------------------------------------------------------------
  // Copying a stream to a file (lines 69-111)

  /** The bytes a file reports written when given a chunk at an offset. */
  type Writer = (nat, nat) -> nat

  /** The output offset after k rounds: each reads at the offset reached and
      advances by what the write reports. */
  function CopyPos(read: Reader, write: Writer, k: nat): nat
  {
    if k == 0 then 0
    else
      var p := CopyPos(read, write, k - 1);
      p + write(p, read(p))
  }

  predicate EndOfCopy(read: Reader, write: Writer, k: nat)
  {
    read(CopyPos(read, write, k)) == 0 && forall j :: 0 <= j < k ==> read(CopyPos(read, write, j)) > 0
  }

  /** The write-advance loop. */
  method CopyToEnd(read: Reader, write: Writer, ghost ends: nat) returns (pos: nat, ghost count: nat)
    requires read(CopyPos(read, write, ends)) == 0
    ensures count <= ends && EndOfCopy(read, write, count)
    ensures pos == CopyPos(read, write, count)
  {
    pos := 0;
    count := 0;
    while true
      invariant count <= ends && pos == CopyPos(read, write, count)
      invariant forall j :: 0 <= j < count ==> read(CopyPos(read, write, j)) > 0
      decreases ends - count
    {
      var w := read(pos);
      if w == 0 {
        break;
      }
      pos := pos + write(pos, w);
      count := count + 1;
    }
  }

  ghost predicate WritesAll(write: Writer)
  {
    forall p: nat, w: nat :: write(p, w) == w
  }

  /** With a file that writes every chunk whole, the copy reads exactly what
      the read-through reads, and the file ends at the sum of the chunks. */
  lemma {:induction false} CopyMatchesRead(read: Reader, write: Writer, k: nat)
    requires WritesAll(write)
    ensures CopyPos(read, write, k) == ReadPos(read, k)
    ensures EndOfCopy(read, write, k) <==> EndOfStream(read, k)
  {
    if k > 0 {
      CopyMatchesRead(read, write, k - 1);
    }
    forall j | 0 <= j <= k
      ensures CopyPos(read, write, j) == ReadPos(read, j)
    {
      CopyPosMatchesRead(read, write, j);
    }
  }

  lemma {:induction false} CopyPosMatchesRead(read: Reader, write: Writer, k: nat)
    requires WritesAll(write)
    ensures CopyPos(read, write, k) == ReadPos(read, k)
  {
    if k > 0 {
      CopyPosMatchesRead(read, write, k - 1);
    }
  }

  // ---------------------------------------------------------------------
  // The exported files

  /** The name of an export: the index's file name with a new extension, in
      the target folder. */
  function ExportName(targetBase: string, indexPath: string, extension: string): string
  {
    targetBase + "\\" + ReplaceExtension(FileName(indexPath), extension)
  }

  /** What every export name starts with: the target folder and the index's
      file name without its extension. */
  function ExportStem(targetBase: string, indexPath: string): string
  {
    targetBase + "\\" + RemoveExtension(FileName(indexPath))
  }

  /** With an extension that starts with a dot, replace_extension appends it
      to the stem. */
  lemma ExportNameFromStem(targetBase: string, indexPath: string, extension: string)
    requires extension != "" && extension[0] == '.'
    ensures ExportName(targetBase, indexPath, extension) == ExportStem(targetBase, indexPath) + extension
  {
    AppendAssoc(targetBase + "\\", RemoveExtension(FileName(indexPath)), extension);
  }

  /** The extensions of the data file exports: ".dat0" to ".dat<n - 1>". */
  function DatExtensions(n: nat): (r: seq<string>)
    ensures |r| == n
    ensures forall i :: 0 <= i < n ==> r[i] == ".dat" + Decimal(i)
  {
    if n == 0 then [] else DatExtensions(n - 1) + [".dat" + Decimal(n - 1)]
  }

  /** The extensions written, in order: ".index", ".index2", ".dat0", ... */
  function ExportExtensions(dataFiles: nat): (r: seq<string>)
    ensures |r| == dataFiles + 2
    ensures r[0] == ".index" && r[1] == ".index2"
    ensures forall i :: 2 <= i < |r| ==> r[i] == ".dat" + Decimal(i - 2)
  {
    [".index", ".index2"] + DatExtensions(dataFiles)
  }

  /** Every export goes to a file of its own. */
  lemma ExportExtensionsDistinct(dataFiles: nat)
    ensures var r := ExportExtensions(dataFiles);
      forall i, j :: 0 <= i < j < |r| ==> r[i] != r[j]
  {
    var r := ExportExtensions(dataFiles);
    forall i, j | 0 <= i < j < |r|
      ensures r[i] != r[j]
    {
      if i < 2 {
        assert r[i][1] == 'i';
        if j >= 2 {
          assert r[j][1] == 'd';
        } else {
          assert |r[i]| != |r[j]|;
        }
      } else {
        assert r[i][4..] == Decimal(i - 2) && r[j][4..] == Decimal(j - 2);
        assert DecimalValue(Decimal(i - 2)) != DecimalValue(Decimal(j - 2));
      }
    }
  }

  /** The names of the exports, in order. */
  function ExportNames(stem: string, extensions: seq<string>): (r: seq<string>)
    ensures |r| == |extensions|
    ensures forall k :: 0 <= k < |r| ==> r[k] == stem + extensions[k]
  {
    if |extensions| == 0 then []
    else ExportNames(stem, extensions[..|extensions| - 1]) + [stem + extensions[|extensions| - 1]]
  }

  lemma SamePrefixDistinct(stem: string, x: string, y: string)
    requires x != y
    ensures stem + x != stem + y
  {
    assert (stem + x)[|stem|..] == x && (stem + y)[|stem|..] == y;
  }

  lemma ExportExtensionsDotted(dataFiles: nat)
    ensures var r := ExportExtensions(dataFiles);
      forall k :: 0 <= k < |r| ==> r[k] != "" && r[k][0] == '.'
  {
  }

  /** Distinct extensions give distinct names: no export overwrites another,
      and each is the index's file name with its extension replaced. */
  lemma ExportNamesDistinct(targetBase: string, indexPath: string, dataFiles: nat)
    ensures var extensions := ExportExtensions(dataFiles);
      var r := ExportNames(ExportStem(targetBase, indexPath), extensions);
      && (forall i, j :: 0 <= i < j < |r| ==> r[i] != r[j])
      && (forall k :: 0 <= k < |r| ==> r[k] == ExportName(targetBase, indexPath, extensions[k]))
  {
    var extensions := ExportExtensions(dataFiles);
    ExportExtensionsDistinct(dataFiles);
    ExportExtensionsDotted(dataFiles);
    NamesFromStem(targetBase, indexPath, extensions);
  }

  /** Names built from one stem are distinct when the extensions are, and are
      the replace_extension names when the extensions start with a dot. */
  lemma NamesFromStem(targetBase: string, indexPath: string, extensions: seq<string>)
    requires forall i, j :: 0 <= i < j < |extensions| ==> extensions[i] != extensions[j]
    requires forall k :: 0 <= k < |extensions| ==> extensions[k] != "" && extensions[k][0] == '.'
    ensures var r := ExportNames(ExportStem(targetBase, indexPath), extensions);
      && (forall i, j :: 0 <= i < j < |r| ==> r[i] != r[j])
      && (forall k :: 0 <= k < |r| ==> r[k] == ExportName(targetBase, indexPath, extensions[k]))
  {
    var stem := ExportStem(targetBase, indexPath);
    var r := ExportNames(stem, extensions);
    forall i, j | 0 <= i < j < |r|
      ensures r[i] != r[j]
    {
      SamePrefixDistinct(stem, extensions[i], extensions[j]);
    }
    forall k | 0 <= k < |r|
      ensures r[k] == ExportName(targetBase, indexPath, extensions[k])
    {
      ExportNameFromStem(targetBase, indexPath, extensions[k]);
    }
  }

  /** One exported file: its name and where the copy loop left off. */
  datatype Exported = Exported(name: string, size: nat)

  /** The engine returns 0 after n rounds of copying. */
  predicate CopyEndsBy(read: Reader, write: Writer, n: nat)
  {
    read(CopyPos(read, write, n)) == 0
  }

  /** A file copied through: the loop stopped after count rounds, where it reached. */
  predicate CopiedThrough(read: Reader, write: Writer, e: Exported, count: nat)
  {
    EndOfCopy(read, write, count) && e.size == CopyPos(read, write, count)
  }

  /** The copy loop run once per stream, each into the file of the same
      position in names; each ends when the engine returns 0, which `ends`
      witnesses. */
  method CopyEach(names: seq<string>, streams: seq<Reader>, files: string -> Writer, ghost ends: seq<nat>)
    returns (exported: seq<Exported>, ghost counts: seq<nat>)
    requires |names| == |streams| == |ends|
    requires forall k :: 0 <= k < |streams| ==> CopyEndsBy(streams[k], files(names[k]), ends[k])
    ensures |exported| == |streams| == |counts|
    ensures forall k :: 0 <= k < |streams| ==> exported[k].name == names[k]
    ensures forall k :: 0 <= k < |streams| ==>
      CopiedThrough(streams[k], files(names[k]), exported[k], counts[k])
  {
    exported := [];
    counts := [];
    var i := 0;
    while i < |streams|
      invariant 0 <= i <= |streams| && |exported| == i == |counts|
      invariant forall k :: 0 <= k < i ==> exported[k].name == names[k]
      invariant forall k :: 0 <= k < i ==> CopiedThrough(streams[k], files(names[k]), exported[k], counts[k])
    {
      var pos, count := CopyToEnd(streams[i], files(names[i]), ends[i]);
      exported := exported + [Exported(names[i], pos)];
      counts := counts + [count];
      i := i + 1;
    }
  }

  /** The three export blocks: index, index2, then one file per data file,
      each named after the index with its extension replaced. The streams are
      the index, the index2 and the data files in that order. */
  method Export(targetBase: string, indexPath: string, streams: seq<Reader>,
                files: string -> Writer, ghost ends: seq<nat>)
    returns (exported: seq<Exported>, ghost counts: seq<nat>)
    requires |streams| >= 2 && |ends| == |streams|
    requires var names := ExportNames(ExportStem(targetBase, indexPath), ExportExtensions(|streams| - 2));
      forall k :: 0 <= k < |streams| ==> CopyEndsBy(streams[k], files(names[k]), ends[k])
    ensures var names := ExportNames(ExportStem(targetBase, indexPath), ExportExtensions(|streams| - 2));
      && |exported| == |streams| == |counts|
      && (forall k :: 0 <= k < |streams| ==> exported[k].name == names[k])
      && (forall k :: 0 <= k < |streams| ==> CopiedThrough(streams[k], files(names[k]), exported[k], counts[k]))
  {
    var names := ExportNames(ExportStem(targetBase, indexPath), ExportExtensions(|streams| - 2));
    exported, counts := CopyEach(names, streams, files, ends);
  }
}
