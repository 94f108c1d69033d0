/**
 * Path rules of the handler: turning a `file://` URL from the user interface
 * into a file path (`cleanFilePath`), the file name and suffix of a path as
 * `QFileInfo` reports them, the suffix `saveExcel` forces, and the path of
 * the shared copy in the cloud folder (`getCloudFilePath`).
 */
module Paths {
  import opened Options
  import opened Strings

  /** The URL prefixes removed by `cleanFilePath`, longest first. */
  const FileUrlPrefix: string := "file:///"
  const ShortFileUrlPrefix: string := "file://"

  /** The path with a leading `file:///` (8 characters) or `file://` (7 characters) removed. */
  function StripFileUrl(path: string): (r: string)
    ensures |r| <= |path| && r == path[|path| - |r|..]
    ensures !StartsWith(path, ShortFileUrlPrefix) ==> r == path
  {
    if StartsWith(path, FileUrlPrefix) then path[|FileUrlPrefix|..]
    else if StartsWith(path, ShortFileUrlPrefix) then path[|ShortFileUrlPrefix|..]
    else path
  }

  /**
   * `cleanFilePath`: the URL prefix is removed; on Linux a relative,
   * non-empty result is made absolute by a leading `/`.
   */
  function CleanFilePath(path: string, onLinux: bool): (r: string)
    ensures !onLinux ==> r == StripFileUrl(path)
    ensures onLinux ==> (r == [] <==> StripFileUrl(path) == [])
    ensures onLinux && r != [] ==> r[0] == '/'
    ensures onLinux ==> r == StripFileUrl(path) || r == "/" + StripFileUrl(path)
  {
    var p := StripFileUrl(path);
    if onLinux && p != [] && p[0] != '/' then "/" + p else p
  }

  /** On Linux a cleaned path never starts with a URL prefix, so cleaning it again changes nothing. */
  lemma CleanIdempotentOnLinux(path: string)
    ensures CleanFilePath(CleanFilePath(path, true), true) == CleanFilePath(path, true)
  {
    var r := CleanFilePath(path, true);
    if r != [] {
      assert r[0] == '/' != ShortFileUrlPrefix[0];
    }
  }

  /**
   * Elsewhere cleaning is not idempotent: a doubled URL prefix loses one
   * layer per call.
   */
  lemma CleanNotIdempotentElsewhere()
    ensures CleanFilePath("file://file://a", false) == "file://a"
    ensures CleanFilePath(CleanFilePath("file://file://a", false), false) == "a"
  {
    assert !StartsWith("file://file://a", FileUrlPrefix) by {
      assert "file://file://a"[7] != FileUrlPrefix[7];
    }
    assert StartsWith("file://file://a", ShortFileUrlPrefix);
    assert "file://file://a"[7..] == "file://a";
    assert !StartsWith("file://a", FileUrlPrefix) by {
      assert |"file://a"| == |FileUrlPrefix| && "file://a"[7] != FileUrlPrefix[7];
    }
    assert StartsWith("file://a", ShortFileUrlPrefix);
    assert "file://a"[7..] == "a";
  }

  /** A `file:///` URL becomes the absolute path it names on Linux. */
  lemma CleanFileUrl(rest: string)
    requires rest != [] && rest[0] != '/'
    ensures CleanFilePath(FileUrlPrefix + rest, true) == "/" + rest
    ensures CleanFilePath(FileUrlPrefix + rest, false) == rest
  {
    assert StartsWith(FileUrlPrefix + rest, FileUrlPrefix);
    assert (FileUrlPrefix + rest)[|FileUrlPrefix|..] == rest;
  }

  // ------------------------------------------------------- name and suffix

  /** `QFileInfo::fileName`: the part after the last `/`. */
  function FileName(path: string): (r: string)
    ensures '/' !in r
    ensures |r| <= |path| && r == path[|path| - |r|..]
  {
    AfterLastSpec(path, '/');
    AfterLast(path, '/')
  }

  /**
   * The file name is exactly the part after the last `/`: a `/`-free suffix
   * of the path, preceded by a `/` unless it is the whole path.
   */
  lemma FileNameAfterLastSlash(path: string)
    ensures |FileName(path)| < |path| ==> path[|path| - |FileName(path)| - 1] == '/'
    ensures '/' !in path ==> FileName(path) == path
  {
    AfterLastSpec(path, '/');
  }

  /** `QFileInfo::suffix`: the part of the file name after its last `.`, empty when there is none. */
  function Suffix(path: string): (r: string)
    ensures '.' !in r && '/' !in r
  {
    var name := FileName(path);
    if '.' in name then
      AfterLastSpec(name, '.');
      var r := AfterLast(name, '.');
      assert forall k :: 0 <= k < |r| ==> r[k] == name[|name| - |r| + k];
      r
    else []
  }

  /**
   * The suffix test of `loadExcel` and `setPermanentFile`: "xlsx" or "xls",
   * ignoring case. A path that passes it has a file name with a dot and a
   * suffix of three or four characters.
   */
  predicate IsExcelPath(path: string)
    ensures IsExcelPath(path) ==> '.' in FileName(path) && (|Suffix(path)| == 3 || |Suffix(path)| == 4)
  {
    ToLower(Suffix(path)) == "xlsx" || ToLower(Suffix(path)) == "xls"
  }

  /** The last component after appending a tail free of `ch` is the old last component plus the tail. */
  lemma {:induction false} AfterLastAppend(s: string, ch: char, tail: string)
    requires ch !in tail
    ensures AfterLast(s + tail, ch) == AfterLast(s, ch) + tail
    decreases |tail|
  {
    if tail == [] {
      assert s + tail == s;
    } else {
      var init := tail[..|tail| - 1];
      assert (s + tail)[..|s + tail| - 1] == s + init;
      assert tail[|tail| - 1] in tail;
      assert init + [tail[|tail| - 1]] == tail;
      forall c | c in init
        ensures c != ch
      {
        var i :| 0 <= i < |init| && init[i] == c;
        assert tail[i] == c;
      }
      AfterLastAppend(s, ch, init);
    }
  }

  /** A text of lower-case ASCII letters. */
  predicate LowerLetters(t: string)
  {
    forall i :: 0 <= i < |t| ==> 'a' <= t[i] <= 'z'
  }

  /** Both Excel extensions are made of lower-case letters. */
  lemma ExcelExtensionLetters(ext: string)
    requires ext == "xlsx" || ext == "xls"
    ensures LowerLetters(ext)
  {
  }

  /** A dot followed by lower-case letters is its own lower-case form. */
  lemma LowerExtension(ext: string)
    requires LowerLetters(ext)
    ensures ToLower("." + ext) == "." + ext
  {
    var dotted := "." + ext;
    ToLowerSpec(dotted);
    forall i | 0 <= i < |dotted|
      ensures ToLower(dotted)[i] == dotted[i]
    {
      if i > 0 {
        assert dotted[i] == ext[i - 1];
      }
    }
  }

  /** A text that lower-cases to a dot and a letter extension is a dot, then that extension in some case. */
  lemma ExtensionText(e: string, ext: string)
    requires LowerLetters(ext)
    requires ToLower(e) == ToLower("." + ext)
    ensures |e| == |ext| + 1 && e[0] == '.'
    ensures '/' !in e && '.' !in e[1..]
    ensures ToLower(e[1..]) == ext
  {
    var dotted := "." + ext;
    LowerExtension(ext);
    ToLowerSpec(e);
    var t := e[1..];
    assert LowerChar(e[0]) == ToLower(e)[0] == dotted[0] == '.';
    forall i | 0 <= i < |t|
      ensures LowerChar(t[i]) == ext[i]
    {
      assert t[i] == e[i + 1];
      assert ToLower(e)[i + 1] == dotted[i + 1] == ext[i];
    }
    LowerOfLetters(t, ext);
    assert e == [e[0]] + t;
  }

  /** A text whose characters lower-case to letters lower-cases to those letters and holds no '/' or '.'. */
  lemma LowerOfLetters(t: string, letters: string)
    requires |t| == |letters| && LowerLetters(letters)
    requires forall i :: 0 <= i < |t| ==> LowerChar(t[i]) == letters[i]
    ensures ToLower(t) == letters
    ensures '/' !in t && '.' !in t
  {
    ToLowerSpec(t);
    forall i | 0 <= i < |t|
      ensures t[i] != '/' && t[i] != '.'
    {
      assert 'a' <= LowerChar(t[i]) <= 'z';
    }
  }

  /** A path ending (in any case) with "." and a letter extension, such as "xlsx" or "xls", has that extension as its suffix. */
  lemma ExcelEnding(path: string, ext: string)
    requires LowerLetters(ext)
    requires EndsWithIgnoreCase(path, "." + ext)
    ensures ToLower(Suffix(path)) == ext
  {
    var x := path[..|path| - |ext| - 1];
    var e := path[|path| - |ext| - 1..];
    ExtensionText(e, ext);
    FileNameOfJoin(path, x, e);
    DottedSuffix(path, AfterLast(x, '/'), e);
  }

  /** Appending a tail free of `/` to a path appends it to the file name. */
  lemma FileNameOfJoin(path: string, x: string, e: string)
    requires path == x + e && '/' !in e
    ensures FileName(path) == AfterLast(x, '/') + e
  {
    AfterLastAppend(x, '/', e);
  }

  /** A file name made of a stem, then a dot and a dot-free tail, has that tail as its suffix. */
  lemma DottedSuffix(path: string, stem: string, e: string)
    requires FileName(path) == stem + e
    requires e != [] && e[0] == '.' && '.' !in e[1..]
    ensures Suffix(path) == e[1..]
  {
    var name := FileName(path);
    var t := e[1..];
    assert e == ['.'] + t;
    assert name == stem + ['.'] + t;
    assert '.' in name by {
      assert name[|stem|] == '.';
    }
    AfterLastOfJoin(stem, '.', t);
  }

  // ----------------------------------------------------------------- saving

  /** `saveExcel`'s suffix rule: ".xlsx" is appended unless the path ends with ".xlsx" or ".xls", ignoring case. */
  function ForceExcelSuffix(path: string): (r: string)
    ensures EndsWithIgnoreCase(r, ".xlsx") || EndsWithIgnoreCase(r, ".xls")
    ensures r == path || r == path + ".xlsx"
    ensures EndsWithIgnoreCase(path, ".xlsx") || EndsWithIgnoreCase(path, ".xls") ==> r == path
  {
    if EndsWithIgnoreCase(path, ".xlsx") || EndsWithIgnoreCase(path, ".xls") then path
    else
      assert (path + ".xlsx")[|path + ".xlsx"| - 5..] == ".xlsx";
      path + ".xlsx"
  }

  /** Forcing the suffix twice is forcing it once. */
  lemma ForceExcelSuffixIdempotent(path: string)
    ensures ForceExcelSuffix(ForceExcelSuffix(path)) == ForceExcelSuffix(path)
  {
  }

  /** Every path `saveExcel` writes passes the suffix check of `loadExcel`. */
  lemma SavedPathIsExcel(path: string)
    ensures IsExcelPath(ForceExcelSuffix(path))
  {
    var r := ForceExcelSuffix(path);
    if EndsWithIgnoreCase(r, ".xlsx") {
      ExcelExtensionLetters("xlsx");
      ExcelEnding(r, "xlsx");
    } else {
      ExcelExtensionLetters("xls");
      ExcelEnding(r, "xls");
    }
  }

  /**
   * The file `saveExcel(filePath)` writes: the given path cleaned, or the
   * current file when none is given, with the suffix forced; `None` when
   * there is no path at all.
   */
  function SaveTarget(filePath: string, currentFile: string, onLinux: bool): (r: Option<string>)
    ensures r.Some? ==> IsExcelPath(r.value)
    ensures r.None? <==> (if filePath == [] then currentFile else CleanFilePath(filePath, onLinux)) == []
  {
    var p := if filePath == [] then currentFile else CleanFilePath(filePath, onLinux);
    if p == [] then None
    else
      SavedPathIsExcel(p);
      Some(ForceExcelSuffix(p))
  }

  // ------------------------------------------------------------------ cloud

  /** `getCloudFilePath`: the current file's name inside the cloud folder, empty without both. */
  function CloudFilePath(cloudFolder: string, currentFile: string): (r: string)
    ensures r == [] <==> cloudFolder == [] || currentFile == []
    ensures r != [] ==> StartsWith(r, cloudFolder + "/")
  {
    if cloudFolder == [] || currentFile == [] then []
    else cloudFolder + "/" + FileName(currentFile)
  }

  /** The cloud copy keeps the current file's name. */
  lemma CloudCopyKeepsName(cloudFolder: string, currentFile: string)
    requires cloudFolder != [] && currentFile != []
    ensures FileName(CloudFilePath(cloudFolder, currentFile)) == FileName(currentFile)
  {
    AfterLastOfJoin(cloudFolder, '/', FileName(currentFile));
    assert cloudFolder + "/" + FileName(currentFile) == cloudFolder + ['/'] + FileName(currentFile);
  }

  /** `canEdit`: only the roles "owner" and "editor" may upload; the comparison is exact. */
  predicate CanEdit(role: string)
    ensures CanEdit(role) ==> role == "owner" || role == "editor"
  {
    role == "owner" || role == "editor"
  }

  /**
   * The role test is exact: both editing roles, and the default role
   * "editor", may upload, while a role differing in case, with surrounding
   * spaces, or any other role may not.
   */
  lemma RoleTestIsExact(role: string)
    ensures CanEdit("owner") && CanEdit("editor")
    ensures !CanEdit("Owner") && !CanEdit("Editor") && !CanEdit(" editor") && !CanEdit("viewer")
    ensures role != "owner" && role != "editor" ==> !CanEdit(role)
  {
    assert "Owner"[0] != "owner"[0];
    assert "Editor"[0] != "editor"[0];
  }
}
