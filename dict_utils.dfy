/**
 * Finding the files of a StarDict bundle in a directory listing: each file's
 * real extension (after stripping any `.dz`/`.gz` compression suffixes)
 * gives its role, a later file of the same role replacing an earlier one,
 * and a bundle is complete when it has its `.ifo`, `.idx` and `.dict` files.
 * The directory test and the listing are given as parameters.
 */
module DictUtils {
  import opened Wrappers

  /** The position of the last dot in `s`, if any. */
  function LastDot(s: string): (r: Option<nat>)
    ensures r.Some? ==> r.value < |s| && s[r.value] == '.' && forall i :: r.value < i < |s| ==> s[i] != '.'
    ensures r.None? ==> forall i :: 0 <= i < |s| ==> s[i] != '.'
  {
    if s == [] then None
    else if s[|s| - 1] == '.' then Some(|s| - 1)
    else LastDot(s[..|s| - 1])
  }

  predicate AllDots(s: string)
  {
    forall i :: 0 <= i < |s| ==> s[i] == '.'
  }

  /**
   * A file name split before its extension: the extension runs from the
   * last dot, unless only dots precede that dot (a hidden file's leading
   * dots are not an extension).
   */
  function SplitExt(name: string): (r: (string, string))
    ensures r.0 + r.1 == name
    ensures r.1 == [] || (r.1[0] == '.' && !AllDots(r.0))
  {
    match LastDot(name)
    case None => (name, "")
    case Some(d) =>
      if AllDots(name[..d]) then (name, "")
      else
        assert name[..d] + name[d..] == name;
        (name[..d], name[d..])
  }

  /** The extension of `base + ext` is `ext`, when `ext` is one dot and no other and `base` is not only dots. */
  lemma SplitExtOf(base: string, ext: string)
    requires |ext| > 0 && ext[0] == '.' && forall i :: 1 <= i < |ext| ==> ext[i] != '.'
    requires !AllDots(base)
    ensures SplitExt(base + ext) == (base, ext)
  {
    var name := base + ext;
    assert forall i :: |base| < i < |name| ==> name[i] == ext[i - |base|];
    assert LastDot(name) == Some(|base|) by {
      assert name[|base|] == '.';
    }
    assert name[..|base|] == base;
    assert name[|base|..] == ext;
  }

  predicate IsCompression(ext: string)
  {
    ext == ".dz" || ext == ".gz"
  }

  /** The real extension of a file name, and whether a compression suffix was stripped to find it. */
  function StripCompression(name: string): (r: (string, bool))
    ensures !IsCompression(r.0)
    ensures r.0 == [] || r.0[0] == '.'
    ensures r.1 <==> IsCompression(SplitExt(name).1)
    decreases |name|
  {
    var (n, e) := SplitExt(name);
    if IsCompression(e) then (StripCompression(n).0, true) else (e, false)
  }

  /** A name followed by the compression suffixes `zs`. */
  function WithSuffixes(base: string, zs: seq<string>): string
  {
    if zs == [] then base else WithSuffixes(base, zs[..|zs| - 1]) + zs[|zs| - 1]
  }

  /**
   * Stripping undoes any number of compression suffixes: it finds the base
   * name's own extension, and reports compression exactly when a suffix was
   * there.
   */
  lemma {:induction false} StripCompressionSuffixes(base: string, zs: seq<string>)
    requires !IsCompression(SplitExt(base).1)
    requires !AllDots(base)
    requires forall i :: 0 <= i < |zs| ==> IsCompression(zs[i])
    ensures StripCompression(WithSuffixes(base, zs)) == (SplitExt(base).1, |zs| > 0)
  {
    if zs != [] {
      var p := WithSuffixes(base, zs[..|zs| - 1]);
      var z := zs[|zs| - 1];
      assert !AllDots(p) by {
        PrefixNotAllDots(base, zs[..|zs| - 1]);
      }
      SplitExtOf(p, z);
      StripCompressionSuffixes(base, zs[..|zs| - 1]);
    }
  }

  lemma {:induction false} PrefixNotAllDots(base: string, zs: seq<string>)
    requires !AllDots(base)
    ensures !AllDots(WithSuffixes(base, zs)) && base <= WithSuffixes(base, zs)
  {
    if zs != [] {
      PrefixNotAllDots(base, zs[..|zs| - 1]);
      var p := WithSuffixes(base, zs[..|zs| - 1]);
      var i :| 0 <= i < |p| && p[i] != '.';
      assert (p + zs[|zs| - 1])[i] == p[i];
    }
  }

  /** The loop that strips compression suffixes off a file name. */
  method RealExtension(filename: string) returns (ext: string, isCompressed: bool)
    ensures (ext, isCompressed) == StripCompression(filename)
  {
    var name := filename;
    isCompressed := false;
    while true
      invariant StripCompression(filename) == (StripCompression(name).0, isCompressed || StripCompression(name).1)
      decreases |name|
    {
      var split := SplitExt(name);
      if split.1 != ".dz" && split.1 != ".gz" {
        ext := split.1;
        break;
      }
      name := split.0;
      isCompressed := true;
    }
  }

  /** The part a file plays in a bundle. */
  datatype Role = Ifo | Idx | Dict | Syn

  /** The role a real extension gives a file; other extensions give none. */
  function RoleOf(ext: string): Option<Role>
  {
    if ext == ".ifo" then Some(Ifo)
    else if ext == ".idx" then Some(Idx)
    else if ext == ".dict" then Some(Dict)
    else if ext == ".syn" then Some(Syn)
    else None
  }

  /** A file's path and whether it is compressed. */
  datatype Located = Located(path: string, compressed: bool)

  /**
   * The files found for each role. Only the index and the definitions
   * record whether they are compressed.
   */
  datatype FilePaths = FilePaths(ifo: Option<string>, idx: Option<Located>, dict: Option<Located>, syn: Option<string>)

  const NoFiles := FilePaths(None, None, None, None)

  /** `name` inside directory `dir`. */
  function Join(dir: string, name: string): string
  {
    if dir == [] || dir[|dir| - 1] == '/' then dir + name else dir + "/" + name
  }

  /** The path recorded for `role`. */
  function PathOf(fp: FilePaths, role: Role): Option<string>
  {
    match role
    case Ifo => fp.ifo
    case Idx => if fp.idx.Some? then Some(fp.idx.value.path) else None
    case Dict => if fp.dict.Some? then Some(fp.dict.value.path) else None
    case Syn => fp.syn
  }

  /** The compression flag recorded for `role`; only the index and the definitions have one. */
  function CompressedOf(fp: FilePaths, role: Role): Option<bool>
  {
    match role
    case Idx => if fp.idx.Some? then Some(fp.idx.value.compressed) else None
    case Dict => if fp.dict.Some? then Some(fp.dict.value.compressed) else None
    case _ => None
  }

  /** Record one listed file under the role its real extension gives it. */
  function Classify(fp: FilePaths, dir: string, filename: string): (r: FilePaths)
    ensures RoleOfFile(filename).None? ==> r == fp
    ensures RoleOfFile(filename).Some? ==> PathOf(r, RoleOfFile(filename).value) == Some(Join(dir, filename))
    ensures forall role :: Some(role) != RoleOfFile(filename) ==> PathOf(r, role) == PathOf(fp, role)
  {
    var (ext, compressed) := StripCompression(filename);
    var path := Join(dir, filename);
    match RoleOf(ext)
    case Some(Ifo) => fp.(ifo := Some(path))
    case Some(Idx) => fp.(idx := Some(Located(path, compressed)))
    case Some(Dict) => fp.(dict := Some(Located(path, compressed)))
    case Some(Syn) => fp.(syn := Some(path))
    case None => fp
  }

  /** Every listed file recorded in listing order. */
  function ClassifyAll(dir: string, listing: seq<string>): (r: FilePaths)
    ensures forall role :: PathOf(r, role).Some? ==>
      exists i :: 0 <= i < |listing| && RoleOfFile(listing[i]) == Some(role) && PathOf(r, role).value == Join(dir, listing[i])
  {
    if listing == [] then NoFiles
    else
      var p := listing[..|listing| - 1];
      assert forall i :: 0 <= i < |p| ==> p[i] == listing[i];
      Classify(ClassifyAll(dir, p), dir, listing[|listing| - 1])
  }

  /** The role of a listed file. */
  function RoleOfFile(filename: string): Option<Role>
  {
    RoleOf(StripCompression(filename).0)
  }

  /** Classifying a file touches its own role's slot only. */
  lemma ClassifyOne(fp: FilePaths, dir: string, filename: string, role: Role)
    ensures var fp' := Classify(fp, dir, filename);
      if RoleOfFile(filename) == Some(role) then
        PathOf(fp', role) == Some(Join(dir, filename)) &&
        CompressedOf(fp', role) == (if role == Idx || role == Dict then Some(StripCompression(filename).1) else None)
      else PathOf(fp', role) == PathOf(fp, role) && CompressedOf(fp', role) == CompressedOf(fp, role)
  {
  }

  /**
   * Of the files sharing a role, the last one listed is the one recorded,
   * with its compression flag when the role has one.
   */
  lemma {:induction false} ClassifyLastWins(dir: string, listing: seq<string>, i: nat)
    requires i < |listing| && RoleOfFile(listing[i]).Some?
    requires forall j :: i < j < |listing| ==> RoleOfFile(listing[j]) != RoleOfFile(listing[i])
    ensures var role := RoleOfFile(listing[i]).value;
      PathOf(ClassifyAll(dir, listing), role) == Some(Join(dir, listing[i])) &&
      CompressedOf(ClassifyAll(dir, listing), role) ==
        (if role == Idx || role == Dict then Some(StripCompression(listing[i]).1) else None)
  {
    var p := listing[..|listing| - 1];
    var role := RoleOfFile(listing[i]).value;
    ClassifyOne(ClassifyAll(dir, p), dir, listing[|listing| - 1], role);
    if i < |p| {
      assert p[i] == listing[i];
      ClassifyLastWins(dir, p, i);
    }
  }

  /** A role no listed file has stays empty. */
  lemma {:induction false} ClassifyAbsent(dir: string, listing: seq<string>, role: Role)
    requires forall j :: 0 <= j < |listing| ==> RoleOfFile(listing[j]) != Some(role)
    ensures PathOf(ClassifyAll(dir, listing), role) == None
  {
    if listing != [] {
      var p := listing[..|listing| - 1];
      ClassifyOne(ClassifyAll(dir, p), dir, listing[|listing| - 1], role);
      ClassifyAbsent(dir, p, role);
    }
  }

  /** Some listed file has `role`. */
  predicate HasRole(listing: seq<string>, role: Role)
  {
    exists i :: 0 <= i < |listing| && RoleOfFile(listing[i]) == Some(role)
  }

  /** A role's slot is filled exactly when some listed file has that role. */
  lemma PresentIffListed(dir: string, listing: seq<string>, role: Role)
    ensures PathOf(ClassifyAll(dir, listing), role).Some? <==> HasRole(listing, role)
  {
    if HasRole(listing, role) {
      var i :| 0 <= i < |listing| && RoleOfFile(listing[i]) == Some(role);
      LastOfRole(listing, role, i);
      var k :| 0 <= k < |listing| && RoleOfFile(listing[k]) == Some(role) &&
        forall j :: k < j < |listing| ==> RoleOfFile(listing[j]) != Some(role);
      ClassifyLastWins(dir, listing, k);
    } else {
      ClassifyAbsent(dir, listing, role);
    }
  }

  lemma {:induction false} LastOfRole(listing: seq<string>, role: Role, i: nat)
    requires i < |listing| && RoleOfFile(listing[i]) == Some(role)
    ensures exists k :: (0 <= k < |listing| && RoleOfFile(listing[k]) == Some(role) &&
      forall j :: k < j < |listing| ==> RoleOfFile(listing[j]) != Some(role))
    decreases |listing| - i
  {
    if exists j :: i < j < |listing| && RoleOfFile(listing[j]) == Some(role) {
      var j :| i < j < |listing| && RoleOfFile(listing[j]) == Some(role);
      LastOfRole(listing, role, j);
    } else {
      assert i < |listing| && RoleOfFile(listing[i]) == Some(role) &&
        forall j :: i < j < |listing| ==> RoleOfFile(listing[j]) != Some(role);
    }
  }

  /** A bundle needs its metadata, index and definitions; the synonyms are optional. */
  predicate Complete(fp: FilePaths)
  {
    fp.ifo.Some? && fp.idx.Some? && fp.dict.Some?
  }

  /** The bundle found in a directory with the given listing, if it is a directory holding a complete one. */
  function BundleAt(dir: string, isDir: bool, listing: seq<string>): (r: Option<FilePaths>)
    ensures r.Some? ==> isDir && Complete(r.value)
    ensures r.Some? ==> forall role :: PathOf(r.value, role).Some? <==> HasRole(listing, role)
  {
    var fp := ClassifyAll(dir, listing);
    if isDir && Complete(fp) then
      assert forall role :: PathOf(fp, role).Some? <==> HasRole(listing, role) by {
        forall role ensures PathOf(fp, role).Some? <==> HasRole(listing, role) {
          PresentIffListed(dir, listing, role);
        }
      }
      Some(fp)
    else None
  }

  /** A directory holds a bundle exactly when its listing has a metadata, an index and a definitions file. */
  lemma BundleIffRoles(dir: string, isDir: bool, listing: seq<string>)
    ensures BundleAt(dir, isDir, listing).Some? <==>
      isDir && HasRole(listing, Ifo) && HasRole(listing, Idx) && HasRole(listing, Dict)
  {
    PresentIffListed(dir, listing, Ifo);
    PresentIffListed(dir, listing, Idx);
    PresentIffListed(dir, listing, Dict);
  }

  /** `find_dictionary_filepaths`: classify every listed file, then keep a complete bundle only. */
  method FindDictionaryFilepaths(dictionaryPath: string, isDir: bool, listing: seq<string>) returns (r: Option<FilePaths>)
    ensures r == BundleAt(dictionaryPath, isDir, listing)
  {
    if !isDir {
      return None;
    }
    var filepaths := NoFiles;
    for i := 0 to |listing|
      invariant filepaths == ClassifyAll(dictionaryPath, listing[..i])
    {
      assert listing[..i + 1][..i] == listing[..i];
      var filename := listing[i];
      var ext, isCompressed := RealExtension(filename);
      var filepath := Join(dictionaryPath, filename);
      if ext == ".ifo" {
        filepaths := filepaths.(ifo := Some(filepath));
      } else if ext == ".idx" {
        filepaths := filepaths.(idx := Some(Located(filepath, isCompressed)));
      } else if ext == ".dict" {
        filepaths := filepaths.(dict := Some(Located(filepath, isCompressed)));
      } else if ext == ".syn" {
        filepaths := filepaths.(syn := Some(filepath));
      }
    }
    assert listing[..|listing|] == listing;
    if !Complete(filepaths) {
      return None;
    }
    return Some(filepaths);
  }

  /** `get_all_filenames_in`: every listed file classified, without the completeness check. */
  function GetAllFilenamesIn(dictDir: string, isDir: bool, listing: seq<string>): (r: Option<FilePaths>)
    ensures r.Some? <==> isDir
    ensures r.Some? ==> forall role :: PathOf(r.value, role).Some? <==> HasRole(listing, role)
    ensures BundleAt(dictDir, isDir, listing).Some? ==> r == BundleAt(dictDir, isDir, listing)
  {
    if !isDir then None
    else
      var fp := ClassifyAll(dictDir, listing);
      assert forall role :: PathOf(fp, role).Some? <==> HasRole(listing, role) by {
        forall role ensures PathOf(fp, role).Some? <==> HasRole(listing, role) {
          PresentIffListed(dictDir, listing, role);
        }
      }
      Some(fp)
  }

  /** The entries of the listing that are not plain files and hold a bundle, joined to the directory, in listing order. */
  function Installed(dir: string, listing: seq<string>, isFile: string -> bool, bundleAt: string -> Option<FilePaths>)
    : (r: seq<string>)
    ensures |r| <= |listing|
    ensures forall k :: 0 <= k < |r| ==> bundleAt(r[k]).Some?
  {
    if listing == [] then []
    else
      var name := listing[|listing| - 1];
      Installed(dir, listing[..|listing| - 1], isFile, bundleAt) +
        (if !isFile(name) && bundleAt(Join(dir, name)).Some? then [Join(dir, name)] else [])
  }

  /** A path is installed exactly when some listed entry that is not a plain file holds a bundle there. */
  lemma {:induction false} InstalledMembers(dir: string, listing: seq<string>, isFile: string -> bool,
                                            bundleAt: string -> Option<FilePaths>, path: string)
    ensures path in Installed(dir, listing, isFile, bundleAt) <==>
      exists i :: 0 <= i < |listing| && !isFile(listing[i]) && bundleAt(Join(dir, listing[i])).Some? &&
        path == Join(dir, listing[i])
  {
    if listing != [] {
      var p := listing[..|listing| - 1];
      var name := listing[|listing| - 1];
      var last := if !isFile(name) && bundleAt(Join(dir, name)).Some? then [Join(dir, name)] else [];
      InstalledMembers(dir, p, isFile, bundleAt, path);
      assert path in Installed(dir, listing, isFile, bundleAt) <==> path in Installed(dir, p, isFile, bundleAt) || path in last;
      if exists i :: 0 <= i < |p| && !isFile(p[i]) && bundleAt(Join(dir, p[i])).Some? && path == Join(dir, p[i]) {
        var i :| 0 <= i < |p| && !isFile(p[i]) && bundleAt(Join(dir, p[i])).Some? && path == Join(dir, p[i]);
        assert listing[i] == p[i];
      }
      if exists i :: 0 <= i < |listing| && !isFile(listing[i]) && bundleAt(Join(dir, listing[i])).Some? &&
                     path == Join(dir, listing[i]) {
        var i :| 0 <= i < |listing| && !isFile(listing[i]) && bundleAt(Join(dir, listing[i])).Some? &&
                 path == Join(dir, listing[i]);
        if i < |p| {
          assert p[i] == listing[i];
        }
      }
    }
  }

  /**
   * `find_installed_dictionaries_paths`: every entry of the dictionaries
   * directory that is not a plain file and holds a complete bundle. Whether
   * a name is a plain file is asked of the bare name, not of its path in
   * the directory.
   */
  method FindInstalledDictionariesPaths(dictsDir: string, isDir: bool, listing: seq<string>,
                                        isFile: string -> bool, isDirAt: string -> bool,
                                        listdir: string -> seq<string>)
    returns (r: seq<string>)
    ensures r == (if isDir then Installed(dictsDir, listing, isFile, path => BundleAt(path, isDirAt(path), listdir(path))) else [])
  {
    if !isDir {
      return [];
    }
    ghost var bundleAt := path => BundleAt(path, isDirAt(path), listdir(path));
    var installed := [];
    for i := 0 to |listing|
      invariant installed == Installed(dictsDir, listing[..i], isFile, bundleAt)
    {
      assert listing[..i + 1][..i] == listing[..i];
      var filename := listing[i];
      if isFile(filename) {
        continue;
      }
      var dictionaryPath := Join(dictsDir, filename);
      var filepaths := FindDictionaryFilepaths(dictionaryPath, isDirAt(dictionaryPath), listdir(dictionaryPath));
      if filepaths.Some? {
        installed := installed + [dictionaryPath];
      }
    }
    assert listing[..|listing|] == listing;
    return installed;
  }
}
