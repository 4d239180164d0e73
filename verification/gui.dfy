/** The extension normalisation of `Gui::SavePakFile`, `SaveProjectFile` and
    `SaveHeaderFile`: a name without an extension gets one appended, a name with a
    different extension has it replaced. */
module Gui {
  import opened Results
  import opened Paths

  /** An extension the dialogs force: a dot, then at least one character that is
      neither a dot nor a separator. */
  predicate ValidExtension(ext: string) {
    && |ext| >= 2 && ext[0] == '.'
    && forall j :: 1 <= j < |ext| ==> !IsDot(ext[j]) && !IsSlash(ext[j])
  }

  function NormalizeExtension(filename: string, ext: string): string {
    var current := Extension(filename);
    if current == "" then filename + ext
    else if current != ext then ReplaceFileExtension(filename, ext)
    else filename
  }

  function SavePakFile(filename: string): string {
    NormalizeExtension(filename, ".pak")
  }

  function SaveProjectFile(filename: string): string {
    NormalizeExtension(filename, ".pakproj")
  }

  function SaveHeaderFile(filename: string): string {
    NormalizeExtension(filename, ".h")
  }

  /** A name with an extension: its last dot, anywhere in the path, is the one the
      extension starts at. */
  lemma LastDotIsExtension(filename: string, newExtension: string)
    requires Extension(filename) != ""
    ensures var cut := |filename| - |Extension(filename)|;
            && LastWhere(filename, Dots) == Some(cut)
            && ReplaceFileExtension(filename, newExtension) == filename[..cut] + newExtension
  {
    var cut := |filename| - |Extension(filename)|;
    LastDotPosition(filename);
    ReplaceAtLastDot(filename, newExtension, cut);
  }

  lemma LastDotPosition(filename: string)
    requires Extension(filename) != ""
    ensures LastWhere(filename, Dots) == Some(|filename| - |Extension(filename)|)
  {
    var dir := FileNameSplit(filename);
    var i := ExtensionDot(filename);
    LastDotAfterDirectory(filename, dir, FileName(filename), i);
  }

  lemma ReplaceAtLastDot(filename: string, newExtension: string, cut: nat)
    requires LastWhere(filename, Dots) == Some(cut)
    ensures ReplaceFileExtension(filename, newExtension) == filename[..cut] + newExtension
  {
  }

  lemma LastDotAfterDirectory(filename: string, dir: string, name: string, i: nat)
    requires filename == dir + name
    requires LastWhere(name, Dots) == Some(i)
    ensures LastWhere(filename, Dots) == Some(|dir| + i)
  {
    LastWhereConcat(dir, name, Dots);
  }

  /** Appending `ext` to a path whose file name is not empty gives it extension `ext`. */
  lemma ExtensionOfAppended(filename: string, ext: string)
    requires ValidExtension(ext)
    requires FileName(filename) != ""
    ensures Extension(filename + ext) == ext
  {
    var name := FileName(filename);
    FileNameAppend(filename, ext);
    assert FileName(filename + ext) == name + ext;
    ExtensionAt(filename + ext, |name|);
    assert (name + ext)[|name|..] == ext;
  }

  /** The result keeps everything before the old extension (all of the name when there
      is none) and ends in `ext`; when the name is not empty, `ext` is then its
      extension. */
  lemma NormalizeExtensionSpec(filename: string, ext: string)
    requires ValidExtension(ext)
    ensures var kept := |filename| - |Extension(filename)|;
            NormalizeExtension(filename, ext) == filename[..kept] + ext
    ensures FileName(filename) != "" ==> Extension(NormalizeExtension(filename, ext)) == ext
  {
    if Extension(filename) == "" {
      NormalizeWithoutExtension(filename, ext);
      assert filename[..|filename|] == filename;
    } else {
      NormalizeWithExtension(filename, ext);
    }
  }

  /** The three branches of the dialogs: no extension gets `ext` appended, `ext`
      itself is left alone, and another extension is replaced, so that the name
      changes and its extension becomes `ext`. */
  lemma NormalizeExtensionCases(filename: string, ext: string)
    requires ValidExtension(ext)
    ensures Extension(filename) == "" ==> NormalizeExtension(filename, ext) == filename + ext
    ensures Extension(filename) == ext ==> NormalizeExtension(filename, ext) == filename
    ensures Extension(filename) != "" && Extension(filename) != ext ==>
              && NormalizeExtension(filename, ext) != filename
              && Extension(NormalizeExtension(filename, ext)) == ext
  {
    if Extension(filename) == "" {
      NormalizeWithoutExtension(filename, ext);
    } else if Extension(filename) != ext {
      NormalizeWithExtension(filename, ext);
    }
  }

  lemma NormalizeWithoutExtension(filename: string, ext: string)
    requires ValidExtension(ext) && Extension(filename) == ""
    ensures NormalizeExtension(filename, ext) == filename + ext
    ensures FileName(filename) != "" ==> Extension(filename + ext) == ext
  {
    if FileName(filename) != "" {
      ExtensionOfAppended(filename, ext);
    }
  }

  lemma NormalizeWithExtension(filename: string, ext: string)
    requires ValidExtension(ext) && Extension(filename) != ""
    ensures var kept := |filename| - |Extension(filename)|;
            && NormalizeExtension(filename, ext) == filename[..kept] + ext
            && Extension(filename[..kept] + ext) == ext
  {
    var current := Extension(filename);
    var kept := |filename| - |current|;
    LastDotIsExtension(filename, ext);
    ExtensionSuffix(filename);
    StemKeepsName(filename, kept);
    ExtensionOfAppended(filename[..kept], ext);
  }

  /** Cutting off the extension leaves a non-empty file name. */
  lemma StemKeepsName(filename: string, kept: nat)
    requires Extension(filename) != "" && kept == |filename| - |Extension(filename)|
    ensures FileName(filename[..kept]) != ""
  {
    var dir, stem := StemSplit(filename, kept);
    PrefixHasNoSlash(filename, |stem|);
    FileNameAfterDirectory(dir, stem);
  }

  /** What is left without the extension: the directory part and the start of the
      file name. */
  lemma StemSplit(filename: string, kept: nat) returns (dir: string, stem: string)
    requires Extension(filename) != "" && kept == |filename| - |Extension(filename)|
    ensures filename[..kept] == dir + stem
    ensures |dir| == 0 || IsSlash(dir[|dir| - 1])
    ensures 0 < |stem| <= |FileName(filename)| && stem == FileName(filename)[..|stem|]
  {
    dir := FileNameSplit(filename);
    var i := ExtensionDot(filename);
    stem := FileName(filename)[..i];
    TakeAcross(dir, FileName(filename), kept);
  }

  lemma PrefixHasNoSlash(filename: string, i: nat)
    requires i <= |FileName(filename)|
    ensures forall j :: 0 <= j < |FileName(filename)[..i]| ==> !IsSlash(FileName(filename)[..i][j])
  {
    forall j | 0 <= j < i
      ensures !IsSlash(FileName(filename)[..i][j])
    {
      FileNameNoSlashAt(filename, j);
    }
  }

  /** Saving twice gives the same name, provided the name is not empty: for the empty
      name (or one ending in a separator) the first call yields ".pak", whose leading
      dot is no extension, and the second ".pak.pak". */
  lemma SavePakFileIdempotent(filename: string)
    requires FileName(filename) != ""
    ensures SavePakFile(SavePakFile(filename)) == SavePakFile(filename)
  {
    NormalizeExtensionSpec(filename, ".pak");
  }

  lemma SaveProjectFileIdempotent(filename: string)
    requires FileName(filename) != ""
    ensures SaveProjectFile(SaveProjectFile(filename)) == SaveProjectFile(filename)
  {
    NormalizeExtensionSpec(filename, ".pakproj");
  }

  lemma SaveHeaderFileIdempotent(filename: string)
    requires FileName(filename) != ""
    ensures SaveHeaderFile(SaveHeaderFile(filename)) == SaveHeaderFile(filename)
  {
    NormalizeExtensionSpec(filename, ".h");
  }

  /** A name that is empty or ends in a separator gets `ext` appended, and since a
      leading dot starts no extension, a second call appends it again. */
  lemma DirectoryNotIdempotent(filename: string, ext: string)
    requires ValidExtension(ext) && FileName(filename) == ""
    ensures NormalizeExtension(filename, ext) == filename + ext
    ensures NormalizeExtension(filename + ext, ext) == filename + ext + ext
  {
    assert Extension(filename) == "";
    FileNameAppend(filename, ext);
    LeadingDotOnly(filename + ext, ext);
  }

  lemma LeadingDotOnly(filename: string, ext: string)
    requires ValidExtension(ext) && FileName(filename) == ext
    ensures Extension(filename) == ""
  {
    LastWhereAt(ext, Dots, 0);
  }

  lemma EmptyNameNotIdempotent(filename: string)
    requires FileName(filename) == ""
    ensures SavePakFile(filename) == filename + ".pak"
    ensures SavePakFile(SavePakFile(filename)) == filename + ".pak" + ".pak"
  {
    DirectoryNotIdempotent(filename, ".pak");
  }
}
