/**
 * The pure part of `uploadMP3` (utils.js): choosing which file in the
 * working directory to upload, and the path handed to the storage client.
 * Reading the directory, the upload itself and the deletion are I/O and
 * are not modelled; the directory listing is a parameter.
 */
module Mp3Upload {
  import opened Wrappers

  /** JavaScript's `s.endsWith(suffix)`, case-sensitive. */
  predicate EndsWith(s: string, suffix: string) {
    |suffix| <= |s| && s[|s| - |suffix|..] == suffix
  }

  /** The test the source applies to each directory entry. */
  predicate IsMp3(name: string) {
    EndsWith(name, ".mp3")
  }

  /** Entry `i` is an `.mp3` file and no earlier entry is. */
  predicate IsFirstMp3(files: seq<string>, i: nat) {
    i < |files| && IsMp3(files[i]) && forall n :: 0 <= n < i ==> !IsMp3(files[n])
  }

  /**
   * `files.find((file) => file.endsWith(".mp3"))`: the first entry, in list
   * order, that ends with `.mp3`, or `None` (JavaScript's `undefined`).
   */
  function FindMp3(files: seq<string>): (found: Option<string>)
    ensures found.Some? ==> exists i: nat :: IsFirstMp3(files, i) && files[i] == found.value
    ensures found.None? <==> forall n :: 0 <= n < |files| ==> !IsMp3(files[n])
    ensures forall i: nat :: IsFirstMp3(files, i) ==> found == Some(files[i])
  {
    if |files| == 0 then None
    else if IsMp3(files[0]) then
      assert IsFirstMp3(files, 0);
      Some(files[0])
    else
      var found := FindMp3(files[1..]);
      assert forall i: nat :: IsFirstMp3(files, i + 1) <==> IsFirstMp3(files[1..], i) by {
        forall i: nat ensures IsFirstMp3(files, i + 1) <==> IsFirstMp3(files[1..], i) {
          if IsFirstMp3(files[1..], i) {
            assert forall n :: 1 <= n < i + 1 ==> files[n] == files[1..][n - 1];
          }
        }
      }
      found
  }

  /**
   * Listing order decides: in a listing split into two parts the first part
   * is searched first, and the second only when the first has no `.mp3`.
   */
  lemma FindMp3Concat(a: seq<string>, b: seq<string>)
    ensures FindMp3(a + b) == if FindMp3(a).Some? then FindMp3(a) else FindMp3(b)
  {
    var ab := a + b;
    if FindMp3(a).Some? {
      var i: nat :| IsFirstMp3(a, i) && a[i] == FindMp3(a).value;
      assert forall n :: 0 <= n <= i ==> ab[n] == a[n];
      assert IsFirstMp3(ab, i);
    } else if FindMp3(b).Some? {
      var i: nat :| IsFirstMp3(b, i) && b[i] == FindMp3(b).value;
      assert forall n :: 0 <= n < |a| ==> ab[n] == a[n];
      assert forall n :: |a| <= n <= |a| + i ==> ab[n] == b[n - |a|];
      assert IsFirstMp3(ab, |a| + i);
    } else {
      assert forall n :: 0 <= n < |ab| ==> ab[n] == if n < |a| then a[n] else b[n - |a|];
    }
  }

  /** How a template literal shows the result of `find`: the name, or the text `undefined`. */
  function TemplateText(found: Option<string>): string {
    match found
    case Some(name) => name
    case None => "undefined"
  }

  /**
   * `${process.cwd()}/${mp3File}`: the path of the chosen entry inside the
   * working directory `cwd`.
   */
  function UploadPath(cwd: string, found: Option<string>): (path: string)
    ensures |path| == |cwd| + 1 + |TemplateText(found)|
    ensures path[..|cwd|] == cwd && path[|cwd|] == '/' && path[|cwd| + 1..] == TemplateText(found)
  {
    cwd + "/" + TemplateText(found)
  }

  /** Distinct chosen names give distinct paths in the same directory. */
  lemma UploadPathInjective(cwd: string, a: Option<string>, b: Option<string>)
    requires UploadPath(cwd, a) == UploadPath(cwd, b)
    ensures TemplateText(a) == TemplateText(b)
  {
    assert UploadPath(cwd, a)[|cwd| + 1..] == UploadPath(cwd, b)[|cwd| + 1..];
  }

  /**
   * The path handed to the upload ends in `.mp3` when an entry was found;
   * when none was, it names the entry `undefined`, exactly as an entry of
   * that name would.
   */
  lemma UploadPathOfListing(cwd: string, files: seq<string>)
    ensures FindMp3(files).Some? ==> IsMp3(UploadPath(cwd, FindMp3(files)))
    ensures FindMp3(files).None? ==> UploadPath(cwd, FindMp3(files)) == UploadPath(cwd, Some("undefined"))
  {
    var found := FindMp3(files);
    var path := UploadPath(cwd, found);
    if found.Some? {
      var name := found.value;
      assert path == (cwd + "/") + name;
      assert path[|path| - 4..] == name[|name| - 4..];
    }
  }
}
