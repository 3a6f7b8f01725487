/**
 * Model of the naming part of SaveMultipartToFile in file/file.go: the
 * choice of file name, directory and extension and the destination path
 * they are joined into. The fresh UUID the source draws is a parameter;
 * the directory creation and the save itself are not modelled.
 */
module FileUtil {
  import opened StringUtil

  /** The stored file's name: the requested filename, or the UUID when none was given. */
  function FileName(filename: string, uuid: string): (name: string)
    ensures !IsEmpty(filename) ==> name == filename
    ensures IsEmpty(filename) ==> name == uuid
  {
    if IsEmpty(filename) then uuid else filename
  }

  /** The destination directory: the requested path, or "./" when none was given; never empty. */
  function DestinationDir(path: string): (destPath: string)
    ensures destPath != ""
    ensures !IsEmpty(path) ==> destPath == path
    ensures IsEmpty(path) ==> destPath == "./"
  {
    if IsEmpty(path) then "./" else path
  }

  /**
   * The extension: the text after the last '.' of the uploaded file's name,
   * or the whole name when it has no '.'.
   */
  function Extension(sourceFileName: string): (ext: string)
    ensures '.' !in ext
    ensures '.' !in sourceFileName ==> ext == sourceFileName
    ensures '.' in sourceFileName ==>
              |ext| < |sourceFileName| &&
              sourceFileName == sourceFileName[..|sourceFileName| - |ext| - 1] + "." + ext
  {
    var ext := GetPartOfLast(sourceFileName, ".");
    GetPartOfLastSpec(sourceFileName, ".");
    ContainsChar(ext, '.');
    ContainsChar(sourceFileName, '.');
    ext
  }

  /**
   * The destination file of SaveMultipartToFile: directory, exactly one '/'
   * (added only when the directory does not already end in one), name,
   * '.', extension.
   */
  function DestinationFile(path: string, filename: string, sourceFileName: string, uuid: string): (destFile: string)
    ensures var dir, name, ext := DestinationDir(path), FileName(filename, uuid), Extension(sourceFileName);
            var stem := |destFile| - |name| - |ext| - 1;
            && |dir| <= stem <= |dir| + 1
            && destFile[..|dir|] == dir
            && destFile[stem - 1] == '/'
            && (HasSuffix(dir, "/") ==> stem == |dir|)
            && destFile[stem..] == name + "." + ext
  {
    var name := FileName(filename, uuid);
    var destPath := DestinationDir(path);
    var extension := Extension(sourceFileName);
    if HasSuffix(destPath, "/") then
      assert destPath[|destPath| - 1] == '/';
      JoinedPath(destPath, "", name, extension);
      destPath + name + "." + extension
    else
      JoinedPath(destPath, "/", name, extension);
      destPath + "/" + name + "." + extension
  }

  /** `dir`, a separator ("" when `dir` already ends in '/'), then `name.ext`. */
  lemma JoinedPath(dir: string, sep: string, name: string, ext: string)
    requires sep == "/" || (sep == "" && dir != "" && dir[|dir| - 1] == '/')
    ensures var f := dir + sep + name + "." + ext;
            var stem := |f| - |name| - |ext| - 1;
            && stem == |dir| + |sep|
            && f[..|dir|] == dir
            && f[stem - 1] == '/'
            && f[stem..] == name + "." + ext
  {
    var f := dir + sep + name + "." + ext;
    assert f == dir + sep + (name + "." + ext);
  }

  /** The saved file keeps the uploaded file's extension: its own last '.'-piece is that extension. */
  lemma DestinationKeepsExtension(path: string, filename: string, sourceFileName: string, uuid: string)
    ensures Extension(DestinationFile(path, filename, sourceFileName, uuid)) == Extension(sourceFileName)
  {
    var destFile := DestinationFile(path, filename, sourceFileName, uuid);
    var name, ext := FileName(filename, uuid), Extension(sourceFileName);
    EndsWithNameDotExt(destFile, name, ext);
    ExtensionAfterLastDot(destFile[..|destFile| - |ext| - 1], ext);
  }

  /** A path ending in `name.ext` is some text, a '.', and `ext`. */
  lemma EndsWithNameDotExt(f: string, name: string, ext: string)
    requires |name| + |ext| + 1 <= |f| && f[|f| - |name| - |ext| - 1..] == name + "." + ext
    ensures f == f[..|f| - |ext| - 1] + ['.'] + ext
  {
    var dot := |f| - |ext| - 1;
    assert f[dot..] == (name + "." + ext)[|name|..] == ['.'] + ext;
    assert f == f[..dot] + f[dot..];
  }

  /** A name ending in '.' and a dot-free `ext` has extension `ext`. */
  lemma ExtensionAfterLastDot(p: string, ext: string)
    requires '.' !in ext
    ensures Extension(p + ['.'] + ext) == ext
  {
    GetPartOfLastChar(p, '.', ext);
    assert "." == ['.'];
  }
}
