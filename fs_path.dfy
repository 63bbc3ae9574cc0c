/** The parts of std::filesystem::path the core relies on, on Windows
    paths where both '\\' and '/' separate components: filename(),
    parent_path(), extension() and replace_extension(""). */
module FsPath {
  import opened Text

  predicate IsSeparator(c: char) { c == '\\' || c == '/' }

  /** Where the last component starts: just past the last separator, or 0. */
  function NameStart(p: string): (k: nat)
    ensures k <= |p|
    ensures forall i :: k <= i < |p| ==> !IsSeparator(p[i])
    ensures k > 0 ==> IsSeparator(p[k - 1])
    decreases |p|
  {
    if |p| == 0 then 0
    else if IsSeparator(p[|p| - 1]) then |p|
    else NameStart(p[..|p| - 1])
  }

  predicate IsDriveLetter(c: char) { 'a' <= c <= 'z' || 'A' <= c <= 'Z' }

  /** The end of the root name: a drive "X:" at the start, or 0 when there is none. */
  function RootNameEnd(p: string): (k: nat)
    ensures k <= |p| && (k == 0 || k == 2)
    ensures k == 2 <==> |p| >= 2 && p[1] == ':' && IsDriveLetter(p[0])
  {
    if |p| >= 2 && p[1] == ':' && IsDriveLetter(p[0]) then 2 else 0
  }

  /** The first position at or after k that does not hold a separator. */
  function SkipSeparators(p: string, k: nat): (e: nat)
    requires k <= |p|
    ensures k <= e <= |p|
    ensures forall i :: k <= i < e ==> IsSeparator(p[i])
    ensures e < |p| ==> !IsSeparator(p[e])
    decreases |p| - k
  {
    if k < |p| && IsSeparator(p[k]) then SkipSeparators(p, k + 1) else k
  }

  /** Where the relative part starts: after the root name and the separators
      of the root directory. */
  function RootEnd(p: string): (k: nat)
    ensures RootNameEnd(p) <= k <= |p|
    ensures forall i :: RootNameEnd(p) <= i < k ==> IsSeparator(p[i])
    ensures k < |p| ==> !IsSeparator(p[k])
  {
    SkipSeparators(p, RootNameEnd(p))
  }

  /** Where filename() starts: after the last separator, never inside the root. */
  function FileStart(p: string): (k: nat)
    ensures RootEnd(p) <= k <= |p|
    ensures forall i :: k <= i < |p| ==> !IsSeparator(p[i])
    ensures k > RootEnd(p) ==> IsSeparator(p[k - 1])
  {
    if NameStart(p) < RootEnd(p) then RootEnd(p) else NameStart(p)
  }

  /** path::filename(): the last component of the relative part, empty when
      the path ends in a separator or is only a root. */
  function FileName(p: string): (r: string)
    ensures forall i :: 0 <= i < |r| ==> !IsSeparator(r[i])
    ensures EndsWith(p, r)
    ensures |r| <= |p| - RootEnd(p)
  {
    p[FileStart(p)..]
  }

  /** The position below k after dropping the separators that end p[..k], never below lo. */
  function TrimSeparators(p: string, lo: nat, k: nat): (e: nat)
    requires lo <= k <= |p|
    ensures lo <= e <= k
    ensures forall i :: e <= i < k ==> IsSeparator(p[i])
    ensures e > lo ==> !IsSeparator(p[e - 1])
    decreases k
  {
    if k > lo && IsSeparator(p[k - 1]) then TrimSeparators(p, lo, k - 1) else k
  }

  /** path::parent_path(): the file name and the separators before it removed,
      keeping the root; a path that is only a root is its own parent. */
  function ParentPath(p: string): (r: string)
    ensures |r| <= |p| && r == p[..|r|]
    ensures RootEnd(p) <= |r|
    ensures |r| > RootEnd(p) ==> !IsSeparator(r[|r| - 1])
    ensures RootEnd(p) < |p| <==> |r| < |p|
  {
    p[..TrimSeparators(p, RootEnd(p), FileStart(p))]
  }

  /** A path is its parent, the separators between, and its file name. */
  lemma ParentAndName(p: string)
    ensures var r := ParentPath(p);
      p == r + p[|r|..FileStart(p)] + FileName(p) &&
      forall i :: |r| <= i < FileStart(p) ==> IsSeparator(p[i])
  {
    var k := FileStart(p);
    var e := TrimSeparators(p, RootEnd(p), k);
    assert ParentPath(p) == p[..e];
    assert FileName(p) == p[k..];
    ThreeParts(p, e, k);
  }

  /** Where the alternate data stream of a file name starts: at its first
      ':', or at |name| when it has none. */
  function StreamStart(name: string): (k: nat)
    ensures k <= |name|
    ensures forall i :: 0 <= i < k ==> name[i] != ':'
    ensures k < |name| ==> name[k] == ':'
    decreases |name|
  {
    if |name| == 0 || name[0] == ':' then 0
    else
      var k := 1 + StreamStart(name[1..]);
      assert forall i :: 1 <= i < k ==> name[i] == name[1..][i - 1];
      k
  }

  /** The part of filename() that extension() and replace_extension() search
      for a dot: the file name cut at its alternate data stream. */
  function StreamlessName(p: string): (r: string)
    ensures forall i :: 0 <= i < |r| ==> r[i] != ':'
    ensures |r| <= |FileName(p)| && FileName(p)[..|r|] == r
    ensures |r| < |FileName(p)| ==> FileName(p)[|r|] == ':'
  {
    var name := FileName(p);
    name[..StreamStart(name)]
  }

  /** The alternate data stream of the file name, its ':' included, or "". */
  function AlternateStream(p: string): (r: string)
    ensures r == "" || r[0] == ':'
    ensures StreamlessName(p) + r == FileName(p)
    ensures r == "" <==> forall i :: 0 <= i < |FileName(p)| ==> FileName(p)[i] != ':'
  {
    var name := FileName(p);
    var k := StreamStart(name);
    assert name[..k] + name[k..] == name;
    name[k..]
  }

  /** Where the extension of a file name starts, or |name| when it has none:
      "." and "..", names without a dot and names whose only dot leads have none. */
  function ExtensionStart(name: string): (k: nat)
    ensures k <= |name|
    ensures k < |name| ==> name[k] == '.' && k > 0
    ensures forall i :: k < i < |name| ==> name[i] != '.'
    ensures k == |name| && name != "." && name != ".." ==> forall d :: 0 < d < |name| ==> name[d] != '.'
  {
    if name == "." || name == ".." then |name|
    else
      var d := LastDot(name);
      if d.None? || d.value == 0 then |name| else d.value
  }

  function LastDot(s: string): (r: Option<nat>)
    ensures r.Some? ==> r.value < |s| && s[r.value] == '.'
    ensures r.Some? ==> forall i :: r.value < i < |s| ==> s[i] != '.'
    ensures r.None? ==> '.' !in s
    decreases |s|
  {
    if |s| == 0 then None
    else if s[|s| - 1] == '.' then Some(|s| - 1)
    else LastDot(s[..|s| - 1])
  }

  /** path::extension(), dot included: taken from the file name before its
      alternate data stream, so it never holds a ':'. */
  function Extension(p: string): (r: string)
    ensures EndsWith(StreamlessName(p), r)
    ensures forall i :: 0 <= i < |r| ==> r[i] != ':'
  {
    var stem := StreamlessName(p);
    stem[ExtensionStart(stem)..]
  }

  /** The extension is empty or a dot followed by no other dot, shorter than
      the file name before its stream; it is empty only when that name is
      ".", ".." or has no dot after its first character. */
  lemma ExtensionShape(p: string)
    ensures var r := Extension(p);
      var name := StreamlessName(p);
      && (r != "" ==> r[0] == '.' && |r| < |name| && forall i :: 0 < i < |r| ==> r[i] != '.')
      && (r == "" && name != "." && name != ".." ==> forall d :: 0 < d < |name| ==> name[d] != '.')
  {
    var name := StreamlessName(p);
    var e := ExtensionStart(name);
    assert Extension(p) == name[e..];
    assert forall i :: 0 < i < |name| - e ==> name[e..][i] == name[e + i];
  }

  /** The extension starts at the last dot before the alternate data stream
      when that dot is not the first character, and the name before the
      stream is not "." or "..". */
  lemma ExtensionAtLastDot(p: string, d: nat)
    requires StreamlessName(p) != "." && StreamlessName(p) != ".."
    requires 0 < d < |StreamlessName(p)| && StreamlessName(p)[d] == '.'
    requires forall i :: d < i < |StreamlessName(p)| ==> StreamlessName(p)[i] != '.'
    ensures Extension(p) == StreamlessName(p)[d..]
  {
    ExtensionShape(p);
    var name := StreamlessName(p);
    var r := Extension(p);
    assert name[|name| - |r|..] == r;
  }

  /** path::replace_extension(""): the path cut where the extension starts,
      which drops the extension and the alternate data stream after it. */
  function RemoveExtension(p: string): (r: string)
    ensures r + Extension(p) + AlternateStream(p) == p
  {
    var k := FileStart(p);
    var stem := StreamlessName(p);
    var e := ExtensionStart(stem);
    RemoveExtensionParts(p, k, stem, e);
    p[..k + e]
  }

  /** A dot after the first ':' of a file name does not start an extension. */
  lemma DotInStreamIsNoExtension()
    ensures Extension("ab:s.x") == ""
  {
    DotInStreamChars();
    StreamWithoutDot("ab:s.x", 2);
  }

  lemma DotInStreamChars()
    ensures var p := "ab:s.x";
      && |p| == 6 && p[1] != ':' && p[2] == ':' && p[0] != ':'
      && (forall i :: 0 <= i < |p| ==> !IsSeparator(p[i]))
      && forall i :: 0 < i < 2 ==> p[i] != '.'
  {
  }

  /** replace_extension("") drops the stream along with the extension. */
  lemma StreamDroppedWithExtension()
    ensures Extension("f.txt:s.e") == ".txt"
    ensures RemoveExtension("f.txt:s.e") == "f"
  {
    StreamDroppedChars();
    StreamAfterDot("f.txt:s.e", 5, 1);
  }

  lemma StreamDroppedChars()
    ensures var q := "f.txt:s.e";
      && |q| == 9 && q[1] != ':' && q[5] == ':' && (forall i :: 0 <= i < 5 ==> q[i] != ':')
      && (forall i :: 0 <= i < |q| ==> !IsSeparator(q[i]))
      && q[1] == '.' && (forall i :: 1 < i < 5 ==> q[i] != '.')
      && q[1..5] == ".txt" && q[..1] == "f"
  {
  }

  /** A relative name without separators whose stream starts at k: the name
      searched for the extension is name[..k]. */
  lemma StreamParts(name: string, k: nat)
    requires |name| >= 2 && name[1] != ':'
    requires forall i :: 0 <= i < |name| ==> !IsSeparator(name[i])
    requires k < |name| && name[k] == ':' && forall i :: 0 <= i < k ==> name[i] != ':'
    ensures FileStart(name) == 0 && FileName(name) == name
    ensures StreamlessName(name) == name[..k] && AlternateStream(name) == name[k..]
  {
    PlainFileName(name);
    StreamStartAt(name, k);
  }

  /** With no dot after the first character before the stream, there is no extension. */
  lemma StreamWithoutDot(name: string, k: nat)
    requires |name| >= 2 && name[1] != ':'
    requires forall i :: 0 <= i < |name| ==> !IsSeparator(name[i])
    requires k < |name| && name[k] == ':' && forall i :: 0 <= i < k ==> name[i] != ':'
    requires forall i :: 0 < i < k ==> name[i] != '.'
    ensures Extension(name) == ""
  {
    StreamParts(name, k);
    var stem := name[..k];
    assert forall i :: 0 < i < |stem| ==> stem[i] != '.';
  }

  /** With a last dot at d before the stream, the extension runs from d to
      the stream and replace_extension("") keeps name[..d]. */
  lemma StreamAfterDot(name: string, k: nat, d: nat)
    requires |name| >= 2 && name[1] != ':'
    requires forall i :: 0 <= i < |name| ==> !IsSeparator(name[i])
    requires k < |name| && name[k] == ':' && forall i :: 0 <= i < k ==> name[i] != ':'
    requires 0 < d < k && name[d] == '.' && forall i :: d < i < k ==> name[i] != '.'
    requires k > 2
    ensures Extension(name) == name[d..k]
    ensures RemoveExtension(name) == name[..d]
  {
    StreamParts(name, k);
    var stem := name[..k];
    LastDotAt(stem, d);
    assert |stem| == k;
    assert stem[d..] == name[d..k];
  }

  /** A relative name without separators or drive is its own file name. */
  lemma PlainFileName(p: string)
    requires |p| >= 2 && p[1] != ':'
    requires forall i :: 0 <= i < |p| ==> !IsSeparator(p[i])
    ensures FileName(p) == p
  {
    NameStartOfName(p);
    assert p[0..] == p;
  }

  /** A file name without ':' has no stream. */
  lemma NoStreamWithoutColon(name: string)
    requires forall i :: 0 <= i < |name| ==> name[i] != ':'
    ensures StreamStart(name) == |name|
  {
  }

  /** A relative name made of letters, digits and dots is its own file name
      and has no alternate data stream. */
  lemma PlainNameParts(name: string)
    requires |name| >= 2
    requires forall i :: 0 <= i < |name| ==> name[i] == '.' || 'a' <= name[i] <= 'z' || '0' <= name[i] <= '9'
    ensures FileName(name) == name
    ensures StreamlessName(name) == name && AlternateStream(name) == ""
  {
    PlainFileName(name);
    NoStreamWithoutColon(name);
  }

  /** The extension of such a name starts at its last dot, when that dot is
      not the first character. */
  lemma PlainNameExtension(name: string, d: nat, ext: string)
    requires |name| > 2
    requires forall i :: 0 <= i < |name| ==> name[i] == '.' || 'a' <= name[i] <= 'z' || '0' <= name[i] <= '9'
    requires 0 < d < |name| && name[d] == '.'
    requires forall i :: d < i < |name| ==> name[i] != '.'
    requires name[d..] == ext
    ensures FileName(name) == name
    ensures Extension(name) == ext
  {
    PlainNameParts(name);
    ExtensionAtLastDot(name, d);
  }

  /** The stream starts at a ':' with no ':' before it. */
  lemma StreamStartAt(name: string, k: nat)
    requires k < |name| && name[k] == ':'
    requires forall i :: 0 <= i < k ==> name[i] != ':'
    ensures StreamStart(name) == k
  {
  }

  lemma RemoveExtensionParts(p: string, k: nat, stem: string, e: nat)
    requires k == FileStart(p) && stem == StreamlessName(p) && e == ExtensionStart(stem)
    ensures k + e <= |p|
    ensures p[..k + e] + stem[e..] + AlternateStream(p) == p
  {
    CutInsideSuffix(p, k, stem, AlternateStream(p), e);
  }

  /** Cutting p inside the first part of its suffix p[k..] == a + b. */
  lemma CutInsideSuffix(p: string, k: nat, a: string, b: string, e: nat)
    requires k <= |p| && p[k..] == a + b && e <= |a|
    ensures k + e <= |p|
    ensures p[..k + e] + a[e..] + b == p
  {
    assert p[..k + e] == p[..k] + a[..e] by {
      assert a[..e] == p[k..k + e];
    }
    assert a == a[..e] + a[e..];
    assert p == p[..k] + p[k..];
  }

  lemma ThreeParts(p: string, e: nat, k: nat)
    requires e <= k <= |p|
    ensures p == p[..e] + p[e..k] + p[k..]
  {
    assert p[..k] == p[..e] + p[e..k];
    assert p == p[..k] + p[k..];
  }

  /** path::replace_extension(ext): the extension removed, then ext appended,
      with a dot put in front of an ext that does not start with one. */
  function ReplaceExtension(p: string, ext: string): (r: string)
    ensures ext != "" && ext[0] == '.' ==> r == RemoveExtension(p) + ext
    ensures ext != "" && ext[0] != '.' ==> r == RemoveExtension(p) + "." + ext
    ensures ext == "" ==> r == RemoveExtension(p)
  {
    var stem := RemoveExtension(p);
    if ext == "" then stem
    else if ext[0] == '.' then stem + ext
    else stem + "." + ext
  }

  /** A name without separators is its own last component. */
  lemma {:induction false} NameStartOfName(p: string)
    requires forall i :: 0 <= i < |p| ==> !IsSeparator(p[i])
    ensures NameStart(p) == 0
    decreases |p|
  {
    if |p| > 0 {
      NameStartOfName(p[..|p| - 1]);
    }
  }

  /** The last dot is the dot after which no other dot follows. */
  lemma {:induction false} LastDotAt(s: string, k: nat)
    requires k < |s| && s[k] == '.'
    requires forall i :: k < i < |s| ==> s[i] != '.'
    ensures LastDot(s) == Some(k)
    decreases |s|
  {
    if |s| - 1 > k {
      LastDotAt(s[..|s| - 1], k);
    }
  }

  /** operator/: a name with another drive replaces the path, a name with a
      root directory keeps only the path's drive, and otherwise the name's
      relative part is appended, after a backslash unless the path is empty,
      only a drive, or already ends in a separator. */
  function Combine(p: string, name: string): (r: string)
    ensures EndsWith(r, name[RootNameEnd(name)..])
    ensures RootEnd(name) == 0 ==> |p| <= |r| && r[..|p|] == p
  {
    var nr := RootNameEnd(name);
    var pr := RootNameEnd(p);
    if nr > 0 && name[..nr] != p[..pr] then name
    else if nr < |name| && IsSeparator(name[nr]) then p[..pr] + name[nr..]
    else if pr == |p| || IsSeparator(p[|p| - 1]) then p + name[nr..]
    else p + "\\" + name[nr..]
  }

  /** Appending a plain name adds one component whose parent is the original path. */
  lemma CombineComponents(p: string, name: string)
    requires name != "" && forall i :: 0 <= i < |name| ==> !IsSeparator(name[i])
    requires RootNameEnd(name) == 0
    requires p != "" && !IsSeparator(p[|p| - 1])
    ensures FileName(Combine(p, name)) == name
    ensures ParentPath(Combine(p, name)) == p
  {
    if RootNameEnd(p) == |p| {
      CombineAfterDrive(p, name);
    } else {
      assert Combine(p, name) == p + "\\" + name;
      SkipSeparatorsAtMost(p, RootNameEnd(p), |p| - 1);
      SplitAtLastSeparator(p, '\\', name);
    }
  }

  /** After a bare drive the name follows directly and the drive is the parent. */
  lemma CombineAfterDrive(p: string, name: string)
    requires name != "" && forall i :: 0 <= i < |name| ==> !IsSeparator(name[i])
    requires RootNameEnd(name) == 0 && RootNameEnd(p) == |p| > 0
    ensures FileName(Combine(p, name)) == name
    ensures ParentPath(Combine(p, name)) == p
  {
    var r := Combine(p, name);
    assert name[0..] == name;
    assert r == p + name;
    assert r[..2] == p && r[2..] == name;
    NameStartOfName(r);
  }

  /** A path that ends in a separator and a plain name: the name is its file name,
      and a relative directory before the separator is its parent. */
  lemma SplitAtLastSeparator(dir: string, sep: char, name: string)
    requires IsSeparator(sep) && forall i :: 0 <= i < |name| ==> !IsSeparator(name[i])
    ensures FileName(dir + [sep] + name) == name
    ensures dir != "" && RootEnd(dir) < |dir| && !IsSeparator(dir[|dir| - 1]) ==>
      ParentPath(dir + [sep] + name) == dir
  {
    var p := dir + [sep] + name;
    assert p[..|dir|] == dir && p[|dir|] == sep && p[|dir| + 1..] == name;
    NameStartAfter(p, |dir| + 1);
    assert RootNameEnd(p) <= |dir| by {
      if |dir| < 2 && |p| >= 2 {
        assert p[0] == sep || p[1] == sep;
      }
    }
    SkipSeparatorsAtMost(p, RootNameEnd(p), |dir| + 1);
    if dir != "" && RootEnd(dir) < |dir| && !IsSeparator(dir[|dir| - 1]) {
      ParentOfSplit(dir, sep, name);
    }
  }

  lemma ParentOfSplit(dir: string, sep: char, name: string)
    requires IsSeparator(sep) && forall i :: 0 <= i < |name| ==> !IsSeparator(name[i])
    requires dir != "" && RootEnd(dir) < |dir| && !IsSeparator(dir[|dir| - 1])
    requires FileStart(dir + [sep] + name) == |dir| + 1
    ensures ParentPath(dir + [sep] + name) == dir
  {
    var p := dir + [sep] + name;
    assert RootNameEnd(p) == RootNameEnd(dir) by {
      if |dir| >= 2 {
        assert p[0] == dir[0] && p[1] == dir[1];
      } else if |p| >= 2 {
        assert p[1] == sep;
      }
    }
    assert p == dir + ([sep] + name);
    SkipSeparatorsPrefix(dir, [sep] + name, RootNameEnd(dir));
    assert RootEnd(p) == RootEnd(dir);
    assert p[|dir|] == sep && p[|dir| - 1] == dir[|dir| - 1];
    assert TrimSeparators(p, RootEnd(dir), |dir| + 1) == |dir|;
    assert p[..|dir|] == dir;
  }

  /** A plain name after a single leading separator: the separator is the
      root, and so the parent, and the name is the file name. */
  lemma RootedNameComponents(sep: char, name: string)
    requires IsSeparator(sep) && forall i :: 0 <= i < |name| ==> !IsSeparator(name[i])
    ensures FileName([sep] + name) == name
    ensures ParentPath([sep] + name) == [sep]
  {
    var p := [sep] + name;
    assert p[0] == sep && p[1..] == name;
    NameStartAfter(p, 1);
    assert RootNameEnd(p) == 0;
    SkipSeparatorsAtMost(p, 0, 1);
    assert RootEnd(p) == 1;
    assert FileStart(p) == 1;
    assert p[..1] == [sep];
  }

  /** Skipping stops at the first position that holds no separator. */
  lemma SkipSeparatorsAtMost(p: string, k: nat, m: nat)
    requires k <= m <= |p| && (m == |p| || !IsSeparator(p[m]))
    ensures SkipSeparators(p, k) <= m
  {
  }

  /** Text after the point where skipping stopped does not move it. */
  lemma {:induction false} SkipSeparatorsPrefix(p: string, s: string, k: nat)
    requires k <= |p| && SkipSeparators(p, k) < |p|
    ensures SkipSeparators(p + s, k) == SkipSeparators(p, k)
    decreases |p| - k
  {
    if IsSeparator(p[k]) {
      SkipSeparatorsPrefix(p, s, k + 1);
    }
  }

  /** The last component starts right after the last separator. */
  lemma {:induction false} NameStartAfter(p: string, k: nat)
    requires 0 < k <= |p| && IsSeparator(p[k - 1])
    requires forall i :: k <= i < |p| ==> !IsSeparator(p[i])
    ensures NameStart(p) == k
    decreases |p|
  {
    if |p| > k {
      NameStartAfter(p[..|p| - 1], k);
    }
  }

  // ---------------------------------------------------------------------
  // Character maps that keep separators (case folding, separator style)

  function MapChars(f: char -> char, s: string): (r: string)
    ensures |r| == |s|
    ensures forall i :: 0 <= i < |s| ==> r[i] == f(s[i])
  {
    seq(|s|, i requires 0 <= i < |s| => f(s[i]))
  }

  /** The characters the path grammar looks at keep their role: separators,
      the drive colon and drive letters. */
  predicate KeepsPathSyntax(f: char -> char)
  {
    forall c ::
      (IsSeparator(f(c)) <==> IsSeparator(c)) && (f(c) == ':' <==> c == ':') &&
      (IsDriveLetter(f(c)) <==> IsDriveLetter(c))
  }

  lemma {:induction false} NameStartMapped(f: char -> char, p: string)
    requires KeepsPathSyntax(f)
    ensures NameStart(MapChars(f, p)) == NameStart(p)
    decreases |p|
  {
    if |p| > 0 {
      var q := MapChars(f, p);
      assert q[..|q| - 1] == MapChars(f, p[..|p| - 1]);
      NameStartMapped(f, p[..|p| - 1]);
    }
  }

  lemma {:induction false} SkipSeparatorsMapped(f: char -> char, p: string, k: nat)
    requires KeepsPathSyntax(f) && k <= |p|
    ensures SkipSeparators(MapChars(f, p), k) == SkipSeparators(p, k)
    decreases |p| - k
  {
    if k < |p| && IsSeparator(p[k]) {
      SkipSeparatorsMapped(f, p, k + 1);
    }
  }

  lemma {:induction false} TrimSeparatorsMapped(f: char -> char, p: string, lo: nat, k: nat)
    requires KeepsPathSyntax(f) && lo <= k <= |p|
    ensures TrimSeparators(MapChars(f, p), lo, k) == TrimSeparators(p, lo, k)
    decreases k
  {
    if k > lo && IsSeparator(p[k - 1]) {
      TrimSeparatorsMapped(f, p, lo, k - 1);
    }
  }

  /** The root, file name start and parent end of a mapped path are those of the path. */
  lemma BoundsMapped(f: char -> char, p: string)
    requires KeepsPathSyntax(f)
    ensures RootNameEnd(MapChars(f, p)) == RootNameEnd(p)
    ensures RootEnd(MapChars(f, p)) == RootEnd(p)
    ensures FileStart(MapChars(f, p)) == FileStart(p)
    ensures TrimSeparators(MapChars(f, p), RootEnd(p), FileStart(p)) == TrimSeparators(p, RootEnd(p), FileStart(p))
  {
    var q := MapChars(f, p);
    if |p| >= 2 {
      assert q[0] == f(p[0]) && q[1] == f(p[1]);
    }
    SkipSeparatorsMapped(f, p, RootNameEnd(p));
    NameStartMapped(f, p);
    TrimSeparatorsMapped(f, p, RootEnd(p), FileStart(p));
  }

  /** File name and parent of a mapped path are the mapped file name and parent. */
  lemma ComponentsMapped(f: char -> char, p: string)
    requires KeepsPathSyntax(f)
    ensures FileName(MapChars(f, p)) == MapChars(f, FileName(p))
    ensures ParentPath(MapChars(f, p)) == MapChars(f, ParentPath(p))
  {
    FileNameMapped(f, p);
    ParentPathMapped(f, p);
  }

  lemma FileNameMapped(f: char -> char, p: string)
    requires KeepsPathSyntax(f)
    ensures FileName(MapChars(f, p)) == MapChars(f, FileName(p))
  {
    BoundsMapped(f, p);
    MapCharsSlices(f, p, FileStart(p));
  }

  lemma ParentPathMapped(f: char -> char, p: string)
    requires KeepsPathSyntax(f)
    ensures ParentPath(MapChars(f, p)) == MapChars(f, ParentPath(p))
  {
    BoundsMapped(f, p);
    MapCharsSlices(f, p, TrimSeparators(p, RootEnd(p), FileStart(p)));
  }

  /** Mapping commutes with taking a prefix or a suffix. */
  lemma MapCharsSlices(f: char -> char, s: string, k: nat)
    requires k <= |s|
    ensures MapChars(f, s)[..k] == MapChars(f, s[..k])
    ensures MapChars(f, s)[k..] == MapChars(f, s[k..])
  {
    var q := MapChars(f, s);
    assert forall i :: 0 <= i < k ==> q[..k][i] == f(s[..k][i]);
    assert forall i :: 0 <= i < |s| - k ==> q[k..][i] == f(s[k..][i]);
  }

  lemma LowerIsMap(s: string)
    ensures Lower(s) == MapChars(LowerChar, s)
  {
  }

  lemma LowerKeepsPathSyntax()
    ensures KeepsPathSyntax(LowerChar)
  {
  }

  // ---------------------------------------------------------------------
  // Equality of paths as std::set<path> sees it

  /** Every run of separators written as one backslash. */
  function CollapseSeparators(s: string): (r: string)
    ensures '/' !in r
    ensures |r| <= |s|
    decreases |s|
  {
    if |s| == 0 then ""
    else if IsSeparator(s[0]) then "\\" + CollapseSeparators(s[SkipSeparators(s, 0)..])
    else [s[0]] + CollapseSeparators(s[1..])
  }

  /** What path::compare looks at: the root name, whether a root directory
      follows it, and the components of the relative part. Two paths compare
      equal exactly when their keys are equal. */
  function PathKey(p: string): (k: string)
    ensures '/' !in k
    ensures |k| <= |p|
  {
    var rn := RootNameEnd(p);
    assert forall i :: 0 <= i < rn ==> p[i] != '/';
    p[..rn] + (if RootEnd(p) > rn then "\\" else "") + CollapseSeparators(p[RootEnd(p)..])
  }

  lemma CollapseExamples()
    ensures CollapseSeparators("a//b") == "a\\b"
    ensures CollapseSeparators("a\\b") == "a\\b"
    ensures CollapseSeparators("a\\") == "a\\"
  {
    assert CollapseSeparators("b") == "b";
    assert "a//b"[1..] == "//b" && SkipSeparators("//b", 0) == 2 && "//b"[2..] == "b";
    assert "a\\b"[1..] == "\\b" && SkipSeparators("\\b", 0) == 1 && "\\b"[1..] == "b";
    assert "a\\"[1..] == "\\" && SkipSeparators("\\", 0) == 1 && "\\"[1..] == "";
  }

  /** Separator style and repeated separators do not matter. */
  lemma PathKeyExamples()
    ensures PathKey("C:/a//b") == PathKey("C:\\a\\b") == "C:\\a\\b"
  {
    CollapseExamples();
    var s := "C:/a//b";
    assert RootNameEnd(s) == 2 && SkipSeparators(s, 3) == 3 && s[3..] == "a//b";
    var t := "C:\\a\\b";
    assert RootNameEnd(t) == 2 && SkipSeparators(t, 3) == 3 && t[3..] == "a\\b";
  }

  /** A trailing separator does matter. */
  lemma PathKeyKeepsTrailingSeparator()
    ensures PathKey("a\\") != PathKey("a")
  {
    CollapseExamples();
    assert RootEnd("a\\") == 0 && RootEnd("a") == 0;
    assert CollapseSeparators("a") == "a";
  }
}
