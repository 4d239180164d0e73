/** The pure string helpers of `Paths` (Paths.h), with `std::filesystem::path`'s
    filename and extension rules for a Windows build, where both `/` and `\` separate
    components. */
module Paths {
  import opened Results
  import opened ByteSeq

  /** `npos`, the "not found" value of `std::string::find` (a `size_t`). */
  const NotFound: nat := U64Modulus - 1

  /** The separators of a Windows build. */
  const Slashes: set<char> := {'/', '\\'}

  const Dots: set<char> := {'.'}

  predicate IsSlash(c: char) {
    c in Slashes
  }

  predicate IsDot(c: char) {
    c in Dots
  }

  /** The position of the last character of `s` that is in `cs` (`find_last_of`). */
  function LastWhere(s: string, cs: set<char>): (r: Option<nat>)
    ensures r.Some? ==> r.value < |s| && s[r.value] in cs
  {
    LastBelow(s, cs, |s|)
  }

  /** The last position below `n` whose character is in `cs`. */
  function LastBelow(s: string, cs: set<char>, n: nat): (r: Option<nat>)
    requires n <= |s|
    ensures r.Some? ==> r.value < n && s[r.value] in cs
  {
    if n == 0 then None
    else if s[n - 1] in cs then Some(n - 1)
    else LastBelow(s, cs, n - 1)
  }

  lemma {:induction false} LastBelowSpec(s: string, cs: set<char>, n: nat)
    requires n <= |s|
    ensures LastBelow(s, cs, n).Some? ==> forall j :: LastBelow(s, cs, n).value < j < n ==> s[j] !in cs
    ensures LastBelow(s, cs, n).None? <==> forall j :: 0 <= j < n ==> s[j] !in cs
  {
    if n > 0 && s[n - 1] !in cs {
      LastBelowSpec(s, cs, n - 1);
    }
  }

  /** `LastWhere` finds the last match, and finds none exactly when there is none. */
  lemma LastWhereSpec(s: string, cs: set<char>)
    ensures LastWhere(s, cs).Some? ==> forall j :: LastWhere(s, cs).value < j < |s| ==> s[j] !in cs
    ensures LastWhere(s, cs).None? <==> forall j :: 0 <= j < |s| ==> s[j] !in cs
  {
    LastBelowSpec(s, cs, |s|);
  }

  /** No character after the one `LastWhere` finds is in `cs`. */
  lemma LastWhereNoLater(s: string, cs: set<char>, j: nat)
    requires LastWhere(s, cs).Some? && LastWhere(s, cs).value < j < |s|
    ensures s[j] !in cs
  {
    LastWhereSpec(s, cs);
  }

  /** Without a character of `cs` there is nothing to find. */
  lemma LastWhereAbsent(s: string, cs: set<char>)
    requires forall j :: 0 <= j < |s| ==> s[j] !in cs
    ensures LastWhere(s, cs) == None
  {
    LastWhereSpec(s, cs);
  }

  /** A match with no match after it is the one `LastWhere` finds. */
  lemma LastWhereAt(s: string, cs: set<char>, i: nat)
    requires i < |s| && s[i] in cs && forall j :: i < j < |s| ==> s[j] !in cs
    ensures LastWhere(s, cs) == Some(i)
  {
    LastWhereSpec(s, cs);
  }

  /** Searching `a ‖ b` finds the hit in `b` if there is one, otherwise the one in `a`. */
  lemma LastWhereConcat(a: string, b: string, cs: set<char>)
    ensures LastWhere(a + b, cs) == match LastWhere(b, cs)
                                  case Some(i) => Some(|a| + i)
                                  case None => LastWhere(a, cs)
  {
    LastBelowConcat(a, b, cs, |b|);
    if LastWhere(b, cs).None? {
      LastBelowFront(a, b, cs, |a|);
    }
  }

  /** Below a position in `b`, searching `a ‖ b` finds the hit in `b`, or else falls
      back to the search of `a ‖ b` below `|a|`. */
  lemma {:induction false} LastBelowConcat(a: string, b: string, cs: set<char>, k: nat)
    requires k <= |b|
    ensures LastBelow(a + b, cs, |a| + k) == match LastBelow(b, cs, k)
                                            case Some(i) => Some(|a| + i)
                                            case None => LastBelow(a + b, cs, |a|)
  {
    if k > 0 {
      assert (a + b)[|a| + k - 1] == b[k - 1];
      if b[k - 1] !in cs {
        LastBelowConcat(a, b, cs, k - 1);
      }
    }
  }

  /** Below `|a|`, searching `a ‖ b` is searching `a`. */
  lemma {:induction false} LastBelowFront(a: string, b: string, cs: set<char>, m: nat)
    requires m <= |a|
    ensures LastBelow(a + b, cs, m) == LastBelow(a, cs, m)
  {
    if m > 0 {
      assert (a + b)[m - 1] == a[m - 1];
      LastBelowFront(a, b, cs, m - 1);
    }
  }

  /** `std::string::find(sub)`: the first position where `sub` occurs. */
  predicate OccursAt(s: string, sub: string, i: nat) {
    i + |sub| <= |s| && s[i..i + |sub|] == sub
  }

  function FindFirst(s: string, sub: string, from: nat := 0): (r: Option<nat>)
    requires from <= |s| + 1
    ensures r.Some? ==> from <= r.value && OccursAt(s, sub, r.value)
    ensures r.Some? ==> forall j :: from <= j < r.value ==> !OccursAt(s, sub, j)
    ensures r.None? <==> forall j :: from <= j ==> !OccursAt(s, sub, j)
    decreases |s| + 1 - from
  {
    if from + |sub| > |s| then None
    else if s[from..from + |sub|] == sub then assert OccursAt(s, sub, from); Some(from)
    else FindFirst(s, sub, from + 1)
  }

  /** `path(filePath).filename()`: what follows the last separator. The Windows
      root-name form `C:name` is not modelled. */
  function FileName(path: string): (r: string)
    ensures |r| <= |path|
  {
    match LastWhere(path, Slashes)
    case None => path
    case Some(i) => path[i + 1..]
  }

  /** The file name is the longest separator-free tail: it has no separator and is
      either the whole path or preceded by one. */
  lemma FileNameSpec(path: string)
    ensures forall j :: 0 <= j < |FileName(path)| ==> !IsSlash(FileName(path)[j])
    ensures |FileName(path)| < |path| ==> IsSlash(path[|path| - |FileName(path)| - 1])
    ensures path == path[..|path| - |FileName(path)|] + FileName(path)
  {
    forall j | 0 <= j < |FileName(path)|
      ensures !IsSlash(FileName(path)[j])
    {
      FileNameNoSlashAt(path, j);
    }
    FileNameTail(path);
  }

  /** The file name holds no separator. */
  lemma FileNameNoSlashAt(path: string, j: nat)
    requires j < |FileName(path)|
    ensures !IsSlash(FileName(path)[j])
  {
    match LastWhere(path, Slashes)
    case None =>
      LastWhereSpec(path, Slashes);
      assert FileName(path)[j] == path[j];
    case Some(i) =>
      assert FileName(path)[j] == path[i + 1 + j];
      LastWhereNoLater(path, Slashes, i + 1 + j);
  }

  /** A file name shorter than its path follows a separator. */
  lemma FileNameBoundary(path: string)
    ensures |FileName(path)| < |path| ==> IsSlash(path[|path| - |FileName(path)| - 1])
  {
  }

  /** A path is its directory part, empty or ending in a separator, followed by its
      file name. */
  lemma FileNameSplit(path: string) returns (dir: string)
    ensures path == dir + FileName(path)
    ensures |dir| == 0 || IsSlash(dir[|dir| - 1])
  {
    dir := path[..|path| - |FileName(path)|];
    FileNameBoundary(path);
    FileNameTail(path);
  }

  /** Only the file name follows its directory part. */
  lemma FileNameTail(path: string)
    ensures path == path[..|path| - |FileName(path)|] + FileName(path)
  {
    match LastWhere(path, Slashes)
    case None =>
    case Some(i) => assert path == path[..i + 1] + path[i + 1..];
  }

  /** After a directory part, text without separators is the file name. */
  lemma FileNameAfterDirectory(dir: string, name: string)
    requires |dir| == 0 || IsSlash(dir[|dir| - 1])
    requires forall j :: 0 <= j < |name| ==> !IsSlash(name[j])
    ensures FileName(dir + name) == name
  {
    FileNameOfDirectory(dir);
    FileNameAppend(dir, name);
  }

  /** Text without separators extends the file name. */
  lemma FileNameAppend(path: string, more: string)
    requires forall j :: 0 <= j < |more| ==> !IsSlash(more[j])
    ensures FileName(path + more) == FileName(path) + more
  {
    LastWhereAbsent(more, Slashes);
    LastWhereConcat(path, more, Slashes);
    match LastWhere(path, Slashes)
    case None =>
    case Some(i) => DropAcross(path, more, i + 1);
  }

  /** A suffix of `a ‖ b` starting inside `a`. */
  lemma DropAcross(a: string, b: string, k: nat)
    requires k <= |a|
    ensures (a + b)[k..] == a[k..] + b
  {
  }

  /** A path that is empty or ends in a separator has the empty file name. */
  lemma FileNameOfDirectory(dir: string)
    requires |dir| == 0 || IsSlash(dir[|dir| - 1])
    ensures FileName(dir) == ""
  {
  }

  /** The special names `.` and `..`. */
  predicate IsDotName(name: string) {
    0 < |name| <= 2 && IsDot(name[0]) && IsDot(name[|name| - 1])
  }

  /** `path(filePath).extension()`: from the last `.` of the file name, unless the name
      is `.` or `..` or that dot is its first character. */
  function Extension(path: string): string {
    var name := FileName(path);
    if IsDotName(name) then ""
    else match LastWhere(name, Dots)
         case Some(i) => if i > 0 then name[i..] else ""
         case None => ""
  }

  /** The extension is a suffix of the path. */
  lemma ExtensionSuffix(path: string)
    ensures |Extension(path)| <= |FileName(path)| <= |path|
    ensures path == path[..|path| - |Extension(path)|] + Extension(path)
  {
    var dir := FileNameSplit(path);
    if Extension(path) == "" {
      assert path[..|path|] == path;
    } else {
      var i := ExtensionDot(path);
      SplitAcross(dir, FileName(path), i);
    }
  }

  /** Where a non-empty extension starts within the file name. */
  lemma ExtensionDot(path: string) returns (i: nat)
    requires Extension(path) != ""
    ensures LastWhere(FileName(path), Dots) == Some(i)
    ensures Extension(path) == FileName(path)[i..]
    ensures 0 < i < |FileName(path)|
  {
    i := LastWhere(FileName(path), Dots).value;
  }

  /** Cutting `a ‖ b` at a position inside `b`. */
  lemma SplitAcross(a: string, b: string, i: nat)
    requires i <= |b|
    ensures a + b == (a + b)[..|a| + i] + b[i..]
  {
    assert b == b[..i] + b[i..];
  }

  /** A prefix of `a ‖ b` reaching into `b`. */
  lemma TakeAcross(a: string, b: string, k: nat)
    requires |a| <= k <= |a| + |b|
    ensures (a + b)[..k] == a + b[..k - |a|]
  {
  }

  /** A non-empty extension is a dot, not the file name's first character, followed by
      no further dot. */
  lemma ExtensionSpec(path: string)
    ensures var r := Extension(path);
            && (r == "" || (r[0] == '.' && |r| < |FileName(path)|))
            && forall j :: 1 <= j < |r| ==> !IsDot(r[j])
  {
    var name := FileName(path);
    var r := Extension(path);
    if r != "" {
      var i := LastWhere(name, Dots).value;
      assert r == name[i..];
      forall j | 1 <= j < |r|
        ensures !IsDot(r[j])
      {
        assert r[j] == name[i + j];
        LastWhereNoLater(name, Dots, i + j);
      }
    }
  }

  /** A name with a dot after its first character has a non-empty extension, starting
      at its last dot. */
  lemma ExtensionAt(path: string, i: nat)
    requires var name := FileName(path);
             && 0 < i < |name| && IsDot(name[i])
             && forall j :: i < j < |name| ==> !IsDot(name[j])
    requires !IsDotName(FileName(path))
    ensures Extension(path) == FileName(path)[i..]
  {
    LastWhereAt(FileName(path), Dots, i);
  }

  /** `GetFileNameWithoutExtension`: the file name cut at its last dot (a leading dot
      included, so `.gitignore` gives the empty string). */
  function FileNameWithoutExtension(path: string): (r: string)
    ensures r <= FileName(path)
  {
    var name := FileName(path);
    match LastWhere(name, Dots)
    case None => name
    case Some(i) => name[..i]
  }

  /** The whole file name when it has no dot; otherwise the part before its last dot. */
  lemma FileNameWithoutExtensionSpec(path: string)
    ensures var name := FileName(path);
            var r := FileNameWithoutExtension(path);
            && (r == name <==> forall j :: 0 <= j < |name| ==> !IsDot(name[j]))
            && (r != name ==> IsDot(name[|r|]) && forall j :: |r| < j < |name| ==> !IsDot(name[j]))
  {
    LastWhereSpec(FileName(path), Dots);
  }

  /** `ReplaceFileExtension`: everything from the last dot of the whole path replaced
      by `newExtension`; a path without a dot is left alone. */
  function ReplaceFileExtension(path: string, newExtension: string): string {
    match LastWhere(path, Dots)
    case None => path
    case Some(i) => path[..i] + newExtension
  }

  lemma ReplaceFileExtensionSpec(path: string, newExtension: string)
    ensures (forall j :: 0 <= j < |path| ==> !IsDot(path[j])) ==> ReplaceFileExtension(path, newExtension) == path
    ensures forall i :: 0 <= i < |path| && IsDot(path[i]) && (forall j :: i < j < |path| ==> !IsDot(path[j])) ==>
              ReplaceFileExtension(path, newExtension) == path[..i] + newExtension
  {
    LastWhereSpec(path, Dots);
  }

  /** `ReplaceSlashes`: every backslash becomes a forward slash. */
  function ReplaceSlashes(path: string): (r: string)
    ensures |r| == |path|
    ensures forall j :: 0 <= j < |r| ==> r[j] != '\\'
    ensures forall j :: 0 <= j < |r| && path[j] != '\\' ==> r[j] == path[j]
  {
    seq(|path|, j requires 0 <= j < |path| => if path[j] == '\\' then '/' else path[j])
  }

  lemma ReplaceSlashesIdempotent(path: string)
    ensures ReplaceSlashes(ReplaceSlashes(path)) == ReplaceSlashes(path)
  {
  }

  /** Only the separators change: the result separates exactly where `path` did. */
  lemma ReplaceSlashesKeepsSeparators(path: string)
    ensures forall j :: 0 <= j < |path| ==> (IsSlash(ReplaceSlashes(path)[j]) <==> IsSlash(path[j]))
  {
  }

  /** `StripPath`: `path.substr(path.find(parentPath) + parentPath.length() + 1)`, with
      the sum taken in `size_t`. `None` is the `out_of_range` that `substr` throws
      when the start lies beyond the end. */
  function StripPath(path: string, parentPath: string): (r: Option<string>)
    requires |parentPath| < NotFound
  {
    var pos := match FindFirst(path, parentPath) case Some(i) => i case None => NotFound;
    var start := (pos + |parentPath| + 1) % U64Modulus;
    if start > |path| then None else Some(path[start..])
  }

  /** When `parentPath` occurs and is followed by at least one character (the
      separator), the result is what follows that character after its first
      occurrence. */
  lemma StripPathFound(path: string, parentPath: string, i: nat)
    requires |path| < NotFound
    requires OccursAt(path, parentPath, i) && forall j :: 0 <= j < i ==> !OccursAt(path, parentPath, j)
    ensures i + |parentPath| < |path| ==> StripPath(path, parentPath) == Some(path[i + |parentPath| + 1..])
    ensures i + |parentPath| == |path| ==> StripPath(path, parentPath).None?
  {
    var pos := FindFirst(path, parentPath);
    assert pos == Some(i);
    assert i + |parentPath| + 1 < U64Modulus;
  }

  /** When `parentPath` does not occur, `npos + length + 1` wraps around to the length,
      and the first `|parentPath|` characters are cut off instead. */
  lemma StripPathNotFound(path: string, parentPath: string)
    requires |parentPath| < NotFound
    requires forall j :: 0 <= j ==> !OccursAt(path, parentPath, j)
    ensures |parentPath| <= |path| ==> StripPath(path, parentPath) == Some(path[|parentPath|..])
    ensures |parentPath| > |path| ==> StripPath(path, parentPath).None?
  {
  }

  /** `std::filesystem::path(dir) / name` for a relative `name`: a backslash goes
      between them unless `dir` is empty or already ends in a separator. */
  function JoinPath(dir: string, name: string): (r: string)
    ensures r == dir + name || (r == dir + ['\\'] + name && |dir| > 0 && !IsSlash(dir[|dir| - 1]))
    ensures |dir| > 0 ==> IsSlash(r[|r| - |name| - 1])
  {
    if |dir| == 0 || IsSlash(dir[|dir| - 1]) then dir + name else dir + ['\\'] + name
  }

  /** A join is the directory, at most one separator (only after a non-empty
      directory), then the name. */
  lemma JoinPathParts(dir: string, name: string)
    ensures var r := JoinPath(dir, name);
            var sep := r[|dir|..|r| - |name|];
            && dir <= r
            && r == dir + sep + name
            && |sep| <= 1
            && (|sep| == 1 ==> IsSlash(sep[0]) && |dir| > 0)
  {
    var r := JoinPath(dir, name);
    if |dir| == 0 || IsSlash(dir[|dir| - 1]) {
      assert r[|dir|..|r| - |name|] == [];
      assert r == dir + [] + name;
    } else {
      assert r[|dir|..|r| - |name|] == ['\\'];
    }
  }

  /** Joining a file name onto a directory yields a path whose file name is that name. */
  lemma JoinPathFileName(dir: string, name: string)
    requires forall j :: 0 <= j < |name| ==> !IsSlash(name[j])
    ensures FileName(JoinPath(dir, name)) == name
  {
    var head := if |dir| == 0 || IsSlash(dir[|dir| - 1]) then dir else dir + ['\\'];
    assert JoinPath(dir, name) == head + name;
    FileNameOfDirectory(head);
    FileNameAppend(head, name);
  }
}
