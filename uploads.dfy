/**
 * The upload filename check `allowed_file` of app.py: a name is accepted when
 * it contains a dot and the text after its last dot, lower-cased, is one of
 * the allowed image extensions.
 */
module Uploads {
  import opened Wrappers

  /** The extensions an uploaded image may have. */
  const ALLOWED_EXTENSIONS: set<string> := {"png", "jpg", "jpeg", "gif"}

  /** Lower-casing of one character (ASCII letters only). */
  function LowerChar(c: char): char
  {
    if 'A' <= c <= 'Z' then (c as int - 'A' as int + 'a' as int) as char else c
  }

  /** Python's `str.lower`, restricted to ASCII letters. */
  function Lower(s: string): string
  {
    seq(|s|, i requires 0 <= i < |s| => LowerChar(s[i]))
  }

  /** The position of the last '.' in `s`, if any. */
  function LastDot(s: string): (r: Option<nat>)
    ensures r.None? <==> '.' !in s
    ensures r.Some? ==> r.value < |s| && s[r.value] == '.' && '.' !in s[r.value + 1..]
  {
    if s == [] then None
    else if s[|s| - 1] == '.' then Some(|s| - 1)
    else
      var r := LastDot(s[..|s| - 1]);
      assert s[..|s| - 1] + [s[|s| - 1]] == s;
      r
  }

  /**
   * Python's `s.rsplit(".", 1)` on a string holding a dot: the text before
   * and the text after the last dot.
   */
  function RSplitOnce(s: string): (r: (string, string))
    requires '.' in s
    ensures s == r.0 + "." + r.1
    ensures '.' !in r.1
  {
    var i := LastDot(s).value;
    assert s == s[..i] + "." + s[i + 1..];
    (s[..i], s[i + 1..])
  }

  /** `allowed_file(filename)`. */
  predicate AllowedFile(filename: string)
  {
    '.' in filename && Lower(RSplitOnce(filename).1) in ALLOWED_EXTENSIONS
  }

  /** A name splits in exactly one way into a stem, a dot and a dot-free suffix. */
  lemma SplitAtLastDotUnique(stem: string, ext: string)
    requires '.' !in ext
    ensures '.' in stem + "." + ext
    ensures RSplitOnce(stem + "." + ext) == (stem, ext)
  {
    var f := stem + "." + ext;
    assert f[|stem|] == '.';
    var (a, b) := RSplitOnce(f);
    assert a == f[..|a|] == stem;
    assert b == f[|a| + 1..] == ext;
  }

  /** A name without a dot is never accepted. */
  lemma NoDotRejected(filename: string)
    requires '.' !in filename
    ensures !AllowedFile(filename)
  {
  }

  /**
   * Every name with a dot is `stem + "." + ext` with a dot-free `ext`
   * (by RSplitOnce), and such a name is accepted exactly when `ext`,
   * lower-cased, is an allowed extension.
   */
  lemma AllowedFileBySuffix(stem: string, ext: string)
    requires '.' !in ext
    ensures AllowedFile(stem + "." + ext) <==> Lower(ext) in ALLOWED_EXTENSIONS
  {
    SplitAtLastDotUnique(stem, ext);
  }

  /** Lower-casing distributes over concatenation. */
  lemma LowerConcat(a: string, b: string)
    ensures Lower(a + b) == Lower(a) + Lower(b)
  {
    assert forall i :: 0 <= i < |a + b| ==> Lower(a + b)[i] == (Lower(a) + Lower(b))[i];
  }

  /** Lower-casing neither adds nor removes dots. */
  lemma LowerKeepsDots(s: string)
    ensures ('.' in Lower(s)) == ('.' in s)
  {
    assert forall k :: 0 <= k < |s| ==> (Lower(s)[k] == '.' <==> s[k] == '.');
  }

  /** The check does not depend on the case of the name. */
  lemma AllowedFileIgnoresCase(filename: string)
    ensures AllowedFile(Lower(filename)) == AllowedFile(filename)
  {
    LowerKeepsDots(filename);
    if '.' in filename {
      var (stem, ext) := RSplitOnce(filename);
      LowerConcat(stem, "." + ext);
      LowerConcat(".", ext);
      assert Lower(".") == ".";
      assert Lower(filename) == Lower(stem) + "." + Lower(ext);
      LowerKeepsDots(ext);
      assert Lower(Lower(ext)) == Lower(ext);
      AllowedFileBySuffix(stem, ext);
      AllowedFileBySuffix(Lower(stem), Lower(ext));
    }
  }

  /**
   * Accepted names: an upper-case extension; only the text after the last
   * dot counts; the stem may be empty.
   */
  lemma AcceptedExamples()
    ensures AllowedFile("a.PNG")
    ensures AllowedFile("x.tar.gif")
    ensures AllowedFile(".jpeg")
  {
    assert "a.PNG" == "a" + "." + "PNG";
    assert Lower("PNG") == "png";
    AllowedFileBySuffix("a", "PNG");
    assert "x.tar.gif" == "x.tar" + "." + "gif";
    assert Lower("gif") == "gif";
    AllowedFileBySuffix("x.tar", "gif");
    assert ".jpeg" == "" + "." + "jpeg";
    assert Lower("jpeg") == "jpeg";
    AllowedFileBySuffix("", "jpeg");
  }

  /**
   * Rejected names: an allowed extension followed by another one, and a
   * name ending in a dot (empty suffix).
   */
  lemma RejectedExamples()
    ensures !AllowedFile("a.png.exe")
    ensures !AllowedFile("a.")
  {
    assert "a.png.exe" == "a.png" + "." + "exe";
    assert Lower("exe") == "exe";
    AllowedFileBySuffix("a.png", "exe");
    assert "a." == "a" + "." + "";
    AllowedFileBySuffix("a", "");
  }
}
