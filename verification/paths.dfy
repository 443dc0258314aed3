/** The `System.IO.Path` operations the program uses, with their Windows
    meaning: both '\' and '/' separate directories, a drive letter and ':'
    start a rooted path.  A file system is a set of paths, compared after
    separators are made canonical, as Windows resolves them. */
module Paths {
  import opened Wrappers
  import opened Text

  predicate IsSeparator(c: char) { c == '\\' || c == '/' }

  predicate EndsWithSeparator(s: string) {
    |s| > 0 && IsSeparator(s[|s| - 1])
  }

  predicate IsDriveLetter(c: char) { IsUpperAscii(c) || IsLowerAscii(c) }

  /** `Path.IsPathRooted`: a leading separator or a drive letter and ':'. */
  predicate IsRooted(p: string) {
    (|p| >= 1 && IsSeparator(p[0])) || (|p| >= 2 && IsDriveLetter(p[0]) && p[1] == ':')
  }

  /** A single path component: no separator and no volume ':'. */
  predicate IsPlainName(s: string) {
    |s| > 0 && forall i :: 0 <= i < |s| ==> !IsSeparator(s[i]) && s[i] != ':'
  }

  /** The length of the root: "C:\" is 3, "C:" is 2, a leading separator 1. */
  function RootLength(p: string): (n: nat)
    ensures n <= 3 && n <= |p|
    ensures n > 0 <==> IsRooted(p)
  {
    if |p| >= 1 && IsSeparator(p[0]) then 1
    else if |p| >= 2 && IsDriveLetter(p[0]) && p[1] == ':' then
      if |p| >= 3 && IsSeparator(p[2]) then 3 else 2
    else 0
  }

  /** `Path.Combine(a, b)`: `b` alone when `a` is empty or `b` is rooted,
      otherwise `a`, a '\' unless `a` already ends in a separator, and `b`. */
  function Combine(a: string, b: string): (r: string)
    ensures |b| > 0 && !IsRooted(b) && |a| > 0 ==>
      r == a + (if EndsWithSeparator(a) then "" else "\\") + b
  {
    if |a| == 0 then b
    else if |b| == 0 then a
    else if IsRooted(b) then b
    else if EndsWithSeparator(a) then a + b
    else a + "\\" + b
  }

  // ----- GetDirectoryName ----------------------------------------------------

  /** The first loop of `GetDirectoryName`: step back from `end` to the last
      separator at or after `root`, or to `root` if there is none. */
  function ScanBack(p: string, root: nat, end: nat): (r: nat)
    requires root <= end <= |p|
    ensures root <= r <= end
    ensures r > root ==> r < end && IsSeparator(p[r])
    ensures forall i :: r < i < end ==> !IsSeparator(p[i])
    decreases end
  {
    if end > root then
      if IsSeparator(p[end - 1]) then end - 1 else ScanBack(p, root, end - 1)
    else end
  }

  /** The second loop: drop the separators just before `end`, not into the root. */
  function TrimSeparators(p: string, root: nat, end: nat): (r: nat)
    requires root <= end <= |p|
    ensures root <= r <= end
    ensures forall i :: r <= i < end ==> IsSeparator(p[i])
    ensures r > root ==> !IsSeparator(p[r - 1])
    decreases end
  {
    if end > root && IsSeparator(p[end - 1]) then TrimSeparators(p, root, end - 1) else end
  }

  predicate AllSpaces(s: string) {
    forall i :: 0 <= i < |s| ==> s[i] == ' '
  }

  /** Where `GetDirectoryName` cuts the path: nowhere for an empty or
      all-space path and for a bare root; otherwise before the last
      separator, with the separators just before it dropped down to the root. */
  function DirectoryNameEnd(p: string): (r: Option<nat>)
    ensures r.None? <==> AllSpaces(p) || |p| <= RootLength(p)
    ensures r.Some? ==> RootLength(p) <= r.value < |p|
    ensures r.Some? && r.value > RootLength(p) ==> IsSeparator(p[r.value]) && !IsSeparator(p[r.value - 1])
  {
    var root := RootLength(p);
    if AllSpaces(p) || |p| <= root then None
    else Some(TrimSeparators(p, root, ScanBack(p, root, |p|)))
  }

  /** `Path.GetDirectoryName(p)` as .NET on Windows computes it: the part
      before the cut, with its separators normalised. */
  function DirectoryName(p: string): (r: Option<string>)
    ensures r.Some? <==> DirectoryNameEnd(p).Some?
    ensures r.Some? ==> var cut := DirectoryNameEnd(p).value;
      SeparatorsNormalised(r.value) && Canonical(r.value) == Canonical(p[..cut]) &&
      EndsWithSeparator(r.value) == EndsWithSeparator(p[..cut]) && (|r.value| == 0 <==> cut == 0)
  {
    match DirectoryNameEnd(p)
    case None => None
    case Some(cut) => Some(NormalizeSeparators(p[..cut]))
  }

  /** A forward slash comes back as '\'. */
  lemma DirectoryNameSlash()
    ensures DirectoryName("C:/d/a") == Some("C:\\d")
  {
    var p := "C:/d/a";
    assert RootLength(p) == 3;
    assert ScanBack(p, 3, 6) == 4 by {
      assert !IsSeparator(p[5]) && IsSeparator(p[4]);
    }
    assert TrimSeparators(p, 3, 4) == 4 by {
      assert !IsSeparator(p[3]);
    }
    assert DirectoryNameEnd(p) == Some(4);
    assert p[..4] == "C:/d";
    assert NormalizeSeparators("C:/d") == Canonical("C:/d");
    CanonicalOfSlash();
  }

  lemma CanonicalOfSlash()
    ensures Canonical("C:/d") == "C:\\d"
  {
    assert Canonical("C:") == "C:" by {
      assert "C:"[..1] == "C";
      assert Canonical("C") == "C";
    }
    assert Canonical("C:/") == "C:\\" by {
      assert "C:/"[..2] == "C:";
    }
    assert "C:/d"[..3] == "C:/";
  }

  /** A bare name has an empty directory, and a bare root has none. */
  lemma DirectoryNameEdges()
    ensures DirectoryName("a") == Some("")
    ensures DirectoryName("C:\\") == None
  {
    var p := "a";
    assert !AllSpaces(p) by {
      assert p[0] != ' ';
    }
    assert RootLength(p) == 0;
    assert ScanBack(p, 0, 1) == 0 by {
      assert !IsSeparator(p[0]);
    }
    assert DirectoryNameEnd(p) == Some(0);
    assert p[..0] == "";
    assert RootLength("C:\\") == 3;
  }

  // ----- GetFileName ---------------------------------------------------------

  /** The index just after the last separator, 0 when there is none. */
  function AfterLastSeparator(p: string): (r: nat)
    ensures r <= |p|
    ensures r > 0 ==> IsSeparator(p[r - 1])
    ensures forall i :: r <= i < |p| ==> !IsSeparator(p[i])
  {
    if |p| == 0 then 0
    else if IsSeparator(p[|p| - 1]) then |p|
    else AfterLastSeparator(p[..|p| - 1])
  }

  /** `Path.GetFileName(p)`: what follows the last separator, and never any
      part of the root ("C:x" gives "x"). */
  function FileName(p: string): (r: string)
    ensures |r| <= |p| && r == p[|p| - |r|..]
    ensures forall i :: 0 <= i < |r| ==> !IsSeparator(r[i])
  {
    var after := AfterLastSeparator(p);
    var root := RootLength(p);
    p[if after < root then root else after..]
  }

  /** The index of the last '.', if any. */
  function LastDot(s: string): (r: Option<nat>)
    ensures r.Some? ==> r.value < |s| && s[r.value] == '.'
    ensures forall i :: 0 <= i < |s| && s[i] == '.' ==> r.Some? && i <= r.value
  {
    if |s| == 0 then None
    else if s[|s| - 1] == '.' then Some(|s| - 1)
    else LastDot(s[..|s| - 1])
  }

  /** `Path.GetFileNameWithoutExtension(p)`: the file name up to its last '.'. */
  function FileNameWithoutExtension(p: string): (r: string)
  {
    var name := FileName(p);
    match LastDot(name)
    case None => name
    case Some(i) => name[..i]
  }

  /** The stem is a prefix of the file name that stops exactly at its last
      '.', or is the whole name when there is no '.'. */
  lemma FileNameWithoutExtensionPrefix(p: string)
    ensures var name, stem := FileName(p), FileNameWithoutExtension(p);
      |stem| <= |name| && stem == name[..|stem|] &&
      (|stem| < |name| <==> '.' in name) &&
      (|stem| < |name| ==> name[|stem|] == '.' && '.' !in name[|stem| + 1..])
  {
    var name := FileName(p);
    match LastDot(name)
    case None =>
    case Some(i) =>
      assert name[i] == '.';
      assert forall j :: i + 1 <= j < |name| ==> name[j] != '.';
  }

  // ----- the file system -----------------------------------------------------

  /** A path with every run of separators written as one '\'. */
  function Canonical(s: string): (r: string)
    ensures |r| == 0 <==> |s| == 0
    ensures EndsWithSeparator(r) == EndsWithSeparator(s)
  {
    if |s| == 0 then []
    else
      var init, c := s[..|s| - 1], s[|s| - 1];
      if IsSeparator(c) && EndsWithSeparator(init) then Canonical(init)
      else Canonical(init) + [if IsSeparator(c) then '\\' else c]
  }

  /** A canonical path has no '/' and no two separators in a row. */
  lemma {:induction false} CanonicalShape(s: string)
    ensures forall i :: 0 <= i < |Canonical(s)| ==> Canonical(s)[i] != '/'
    ensures forall i, j :: 0 <= i && j == i + 1 && j < |Canonical(s)| ==>
      !(IsSeparator(Canonical(s)[i]) && IsSeparator(Canonical(s)[j]))
    decreases |s|
  {
    if |s| > 0 {
      var init := s[..|s| - 1];
      CanonicalShape(init);
    }
  }

  /** Whatever precedes it, a tail reads the same canonically as its own
      canonical form. */
  lemma {:induction false} CanonicalInner(a: string, t: string)
    ensures Canonical(a + t) == Canonical(a + Canonical(t))
    decreases |t|
  {
    if |t| == 0 {
      assert a + t == a + Canonical(t);
    } else {
      var t', c := t[..|t| - 1], t[|t| - 1];
      CanonicalInner(a, t');
      assert (a + t)[..|a + t| - 1] == a + t';
      assert EndsWithSeparator(a + t') == EndsWithSeparator(a + Canonical(t')) by {
        if |t'| > 0 {
          assert (a + t')[|a + t'| - 1] == t'[|t'| - 1];
          assert (a + Canonical(t'))[|a + Canonical(t')| - 1] == Canonical(t')[|Canonical(t')| - 1];
        } else {
          assert a + t' == a + Canonical(t');
        }
      }
      if !(IsSeparator(c) && EndsWithSeparator(t')) {
        var n := if IsSeparator(c) then '\\' else c;
        assert Canonical(t) == Canonical(t') + [n];
        assert a + Canonical(t) == (a + Canonical(t')) + [n];
        assert ((a + Canonical(t')) + [n])[..|a + Canonical(t')|] == a + Canonical(t');
      }
    }
  }

  /** Making a path canonical twice is making it canonical once. */
  lemma CanonicalIdempotent(s: string)
    ensures Canonical(Canonical(s)) == Canonical(s)
  {
    CanonicalInner([], s);
    assert [] + s == s && [] + Canonical(s) == Canonical(s);
  }

  /** A normalised directory path: no '/', and no two separators in a row
      except at the very start. */
  ghost predicate SeparatorsNormalised(s: string) {
    (forall i :: 0 <= i < |s| ==> s[i] != '/') &&
    forall i, j :: 1 <= i < j < |s| && j == i + 1 ==> !(IsSeparator(s[i]) && IsSeparator(s[j]))
  }

  /** .NET's separator normalisation on Windows (`NormalizeDirectorySeparators`):
      a leading separator is kept as '\', and every later run of separators
      becomes a single '\'. */
  function NormalizeSeparators(s: string): (r: string)
    ensures SeparatorsNormalised(r)
    ensures Canonical(r) == Canonical(s)
    ensures EndsWithSeparator(r) == EndsWithSeparator(s)
    ensures |r| == 0 <==> |s| == 0
  {
    if |s| > 0 && IsSeparator(s[0]) then
      var t := s[1..];
      var r := "\\" + Canonical(t);
      assert Canonical(r) == Canonical(s) by {
        assert s == [s[0]] + t;
        CanonicalAppend([s[0]], "\\", t);
        CanonicalInner("\\", t);
      }
      assert EndsWithSeparator(r) == EndsWithSeparator(s) by {
        if |t| > 0 {
          assert r[|r| - 1] == Canonical(t)[|Canonical(t)| - 1];
          assert s[|s| - 1] == t[|t| - 1];
        }
      }
      CanonicalShape(t);
      forall i, j | 1 <= i && j == i + 1 && j < |r|
        ensures !(IsSeparator(r[i]) && IsSeparator(r[j]))
      {
        assert r[i] == Canonical(t)[i - 1] && r[j] == Canonical(t)[j - 1];
      }
      r
    else
      CanonicalIdempotent(s);
      CanonicalShape(s);
      Canonical(s)
  }

  /** The files and directories that exist, by canonical path. */
  datatype FileSystem = FileSystem(files: set<string>, directories: set<string>)

  /** `File.Exists`. */
  predicate FileExists(fs: FileSystem, p: string) {
    Canonical(p) in fs.files
  }

  /** `Directory.Exists`. */
  predicate DirectoryExists(fs: FileSystem, p: string) {
    Canonical(p) in fs.directories
  }

  /** Paths that agree canonically and on a trailing separator stay in
      agreement when the same text is appended to both. */
  lemma {:induction false} CanonicalAppend(a: string, b: string, c: string)
    requires Canonical(a) == Canonical(b) && EndsWithSeparator(a) == EndsWithSeparator(b)
    ensures Canonical(a + c) == Canonical(b + c)
    ensures EndsWithSeparator(a + c) == EndsWithSeparator(b + c)
    decreases |c|
  {
    if |c| > 0 {
      var c' := c[..|c| - 1];
      CanonicalAppend(a, b, c');
      assert (a + c)[..|a + c| - 1] == a + c';
      assert (b + c)[..|b + c| - 1] == b + c';
    } else {
      assert a + c == a && b + c == b;
    }
  }

  /** Separators after a separator change nothing canonically. */
  lemma {:induction false} CanonicalTrailing(a: string, t: string)
    requires EndsWithSeparator(a)
    requires forall i :: 0 <= i < |t| ==> IsSeparator(t[i])
    ensures Canonical(a + t) == Canonical(a)
    decreases |t|
  {
    if |t| > 0 {
      var t' := t[..|t| - 1];
      CanonicalTrailing(a, t');
      assert (a + t)[..|a + t| - 1] == a + t';
      assert EndsWithSeparator(a + t');
    } else {
      assert a + t == a;
    }
  }

  /** Any one separator reads as '\'. */
  lemma CanonicalSeparator(a: string, c: char)
    requires IsSeparator(c)
    ensures Canonical(a + [c]) == Canonical(a + "\\")
  {
    assert (a + [c])[..|a|] == a;
    assert (a + "\\")[..|a|] == a;
  }

  /** A file looked up "next to" another one — in the directory of
      `Combine(folder, name)` — is the file `Combine(folder, sibling)`. */
  lemma SiblingPath(folder: string, name: string, sibling: string)
    requires |folder| > 0 && IsPlainName(name) && IsPlainName(sibling)
    ensures DirectoryName(Combine(folder, name)).Some?
    ensures Canonical(Combine(DirectoryName(Combine(folder, name)).value, sibling))
         == Canonical(Combine(folder, sibling))
  {
    var head := folder + (if EndsWithSeparator(folder) then "" else "\\");
    assert Combine(folder, name) == head + name;
    assert Combine(folder, sibling) == head + sibling;
    var t := ParentOfJoined(head, name);
    SiblingOfParent(head, t, sibling);
  }

  /** A plain name combined with the normalised part of a folder path before
      some trailing separators names the same file as the name appended to
      the whole folder path. */
  lemma SiblingOfParent(head: string, t: nat, sibling: string)
    requires 0 < t <= |head| && EndsWithSeparator(head) && IsPlainName(sibling)
    requires forall i :: t <= i < |head| ==> IsSeparator(head[i])
    ensures Canonical(Combine(NormalizeSeparators(head[..t]), sibling)) == Canonical(head + sibling)
  {
    ParentSibling(head, t, sibling);
    NormalizedCombine(head[..t], sibling);
  }

  /** The same, before the folder's separators are normalised. */
  lemma ParentSibling(head: string, t: nat, sibling: string)
    requires 0 < t <= |head| && EndsWithSeparator(head) && IsPlainName(sibling)
    requires forall i :: t <= i < |head| ==> IsSeparator(head[i])
    ensures Canonical(Combine(head[..t], sibling)) == Canonical(head + sibling)
  {
    var dir, rest := head[..t], head[t..];
    assert dir + rest == head;
    SuffixSeparators(head, t);
    CanonicalSibling(dir, rest, sibling);
    assert dir + rest + sibling == head + sibling;
  }

  /** The part of a path from `t` on, when all of it is separators. */
  lemma SuffixSeparators(s: string, t: nat)
    requires t <= |s|
    requires forall i :: t <= i < |s| ==> IsSeparator(s[i])
    ensures forall i :: 0 <= i < |s[t..]| ==> IsSeparator(s[t..][i])
  {
    forall i | 0 <= i < |s[t..]|
      ensures IsSeparator(s[t..][i])
    {
      assert s[t..][i] == s[t + i];
    }
  }

  /** Normalising a folder's separators does not change which file a plain
      name in it names. */
  lemma NormalizedCombine(dir: string, name: string)
    requires |dir| > 0 && IsPlainName(name)
    ensures Canonical(Combine(NormalizeSeparators(dir), name)) == Canonical(Combine(dir, name))
  {
    CombineCanonical(NormalizeSeparators(dir), dir, name);
  }

  /** Folders that agree canonically and on a trailing separator name the
      same file when combined with a plain name. */
  lemma CombineCanonical(a: string, b: string, name: string)
    requires |a| > 0 && |b| > 0 && IsPlainName(name)
    requires Canonical(a) == Canonical(b) && EndsWithSeparator(a) == EndsWithSeparator(b)
    ensures Canonical(Combine(a, name)) == Canonical(Combine(b, name))
  {
    var tail := CombineTail(a, name);
    assert CombineTail(b, name) == tail;
    CanonicalAppend(a, b, tail);
  }

  /** What `Combine` appends to a non-empty folder for a plain name. */
  function CombineTail(folder: string, name: string): (r: string)
    requires |folder| > 0 && IsPlainName(name)
    ensures Combine(folder, name) == folder + r
  {
    assert !IsRooted(name) by {
      assert !IsSeparator(name[0]);
    }
    (if EndsWithSeparator(folder) then "" else "\\") + name
  }

  /** The directory of a folder path ending in a separator, joined with a plain
      name, is that folder less some trailing separators. */
  lemma ParentOfJoined(head: string, name: string) returns (t: nat)
    requires |head| > 0 && IsSeparator(head[|head| - 1]) && IsPlainName(name)
    ensures 0 < t <= |head|
    ensures DirectoryName(head + name) == Some(NormalizeSeparators(head[..t]))
    ensures forall i :: t <= i < |head| ==> IsSeparator(head[i])
  {
    var k := |head|;
    var p := head + name;
    assert IsSeparator(p[k - 1]);
    assert !AllSpaces(p);
    var root := RootLength(p);
    assert root <= k by {
      RootWithin(head, name);
    }
    var scan := ScanBack(p, root, |p|);
    t := TrimSeparators(p, root, scan);
    assert DirectoryNameEnd(p) == Some(t);
    if root == k {
      assert scan == k;
    } else {
      assert scan == k - 1;
    }
    assert p[..t] == head[..t];
    forall i | t <= i < k
      ensures IsSeparator(head[i])
    {
      assert head[i] == p[i];
    }
  }

  /** A folder followed by separators reads, with a plain name appended, as
      the folder combined with that name. */
  lemma CanonicalSibling(dir: string, rest: string, sibling: string)
    requires |dir| > 0 && EndsWithSeparator(dir + rest) && IsPlainName(sibling)
    requires forall i :: 0 <= i < |rest| ==> IsSeparator(rest[i])
    ensures Canonical(Combine(dir, sibling)) == Canonical(dir + rest + sibling)
  {
    if EndsWithSeparator(dir) {
      SiblingAfterSeparator(dir, rest, sibling);
    } else {
      assert |rest| > 0 by {
        assert |rest| == 0 ==> dir + rest == dir;
      }
      assert rest == [rest[0]] + rest[1..];
      assert dir + rest == dir + [rest[0]] + rest[1..];
      SiblingAfterName(dir, rest[0], rest[1..], sibling);
    }
  }

  lemma SiblingAfterSeparator(dir: string, rest: string, sibling: string)
    requires EndsWithSeparator(dir) && IsPlainName(sibling)
    requires forall i :: 0 <= i < |rest| ==> IsSeparator(rest[i])
    ensures Canonical(Combine(dir, sibling)) == Canonical(dir + rest + sibling)
  {
    assert Combine(dir, sibling) == dir + sibling;
    CanonicalTrailing(dir, rest);
    assert EndsWithSeparator(dir + rest) by {
      if |rest| > 0 {
        assert (dir + rest)[|dir + rest| - 1] == rest[|rest| - 1];
      } else {
        assert dir + rest == dir;
      }
    }
    CanonicalAppend(dir, dir + rest, sibling);
  }

  lemma SiblingAfterName(dir: string, c: char, more: string, sibling: string)
    requires |dir| > 0 && !EndsWithSeparator(dir) && IsSeparator(c) && IsPlainName(sibling)
    requires forall i :: 0 <= i < |more| ==> IsSeparator(more[i])
    ensures Canonical(Combine(dir, sibling)) == Canonical(dir + [c] + more + sibling)
  {
    var marked := dir + [c];
    assert Combine(dir, sibling) == (dir + "\\") + sibling;
    assert Canonical(marked) == Canonical(dir + "\\") by {
      CanonicalSeparator(dir, c);
    }
    assert Canonical(marked + more) == Canonical(marked) by {
      CanonicalTrailing(marked, more);
    }
    assert EndsWithSeparator(marked + more) by {
      if |more| > 0 {
        assert (marked + more)[|marked + more| - 1] == more[|more| - 1];
      } else {
        assert marked + more == marked;
      }
    }
    CanonicalAppend(dir + "\\", marked + more, sibling);
  }

  /** The last component of `Combine(folder, name)` is `name`. */
  lemma FileNameOfCombine(folder: string, name: string)
    requires |folder| > 0 && IsPlainName(name)
    ensures FileName(Combine(folder, name)) == name
  {
    var head := folder + (if EndsWithSeparator(folder) then "" else "\\");
    var p := head + name;
    assert Combine(folder, name) == p;
    var after := AfterLastSeparator(p);
    assert IsSeparator(p[|head| - 1]);
    assert after >= |head|;
    RootWithin(head, name);
    assert p[|head|..] == name;
  }

  lemma RootWithin(head: string, name: string)
    requires EndsWithSeparator(head) && IsPlainName(name)
    ensures RootLength(head + name) <= |head|
  {
  }
}
