/** The video-upload file-name check: a file is accepted when its name has
    a dot and the text after the last dot, lower-cased, is one of the
    whitelisted video extensions. */
module Uploads {
  import opened Wrappers
  import opened Text

  /** The video extensions a teacher may upload. */
  const AllowedExtensions: set<string> := {"mp4", "avi", "mov", "wmv", "flv", "webm"}

  /** The position of the last dot in `s`, if there is one. */
  function LastDot(s: string): (r: Option<nat>)
    ensures r.None? <==> '.' !in s
    ensures r.Some? ==> r.value < |s| && s[r.value] == '.' && '.' !in s[r.value + 1..]
    decreases |s|
  {
    if s == [] then None
    else if s[|s| - 1] == '.' then Some(|s| - 1)
    else
      var r := LastDot(s[..|s| - 1]);
      assert s[..|s| - 1] + [s[|s| - 1]] == s;
      if r.Some? then
        assert s[r.value + 1..] == s[..|s| - 1][r.value + 1..] + [s[|s| - 1]];
        r
      else None
  }

  /** `filename.rsplit('.', 1)[1]`: the text after the last dot. */
  function Extension(name: string): (e: Option<string>)
    ensures e.None? <==> '.' !in name
    ensures e.Some? ==> '.' !in e.value && |e.value| < |name|
    ensures e.Some? ==> name == name[..|name| - |e.value| - 1] + "." + e.value
  {
    match LastDot(name)
    case None => None
    case Some(i) =>
      assert name == name[..i] + "." + name[i + 1..];
      Some(name[i + 1..])
  }

  /** `allowed_file`: the name has a dot and its lower-cased extension is
      whitelisted. A name without a dot is refused, and an accepted name is
      at least four characters long and does not end with its dot. */
  predicate AllowedFile(name: string): (ok: bool)
    ensures '.' !in name ==> !ok
    ensures ok ==> 4 <= |name| && name[|name| - 1] != '.'
  {
    '.' in name && Lower(Extension(name).value) in AllowedExtensions
  }

  /** In `stem.ext` with a dot-free `ext`, the last dot is the one just
      after the stem, however many dots the stem holds. */
  lemma {:induction false} LastDotOf(stem: string, ext: string)
    requires '.' !in ext
    ensures LastDot(stem + "." + ext) == Some(|stem|)
    decreases |ext|
  {
    var name := stem + "." + ext;
    if ext != [] {
      var init := ext[..|ext| - 1];
      assert name[..|name| - 1] == stem + "." + init;
      assert name[|name| - 1] == ext[|ext| - 1];
      LastDotOf(stem, init);
    }
  }

  /** The extension of `stem.ext` is `ext`. */
  lemma ExtensionOf(stem: string, ext: string)
    requires '.' !in ext
    ensures Extension(stem + "." + ext) == Some(ext)
  {
    LastDotOf(stem, ext);
    assert (stem + "." + ext)[|stem| + 1..] == ext;
  }

  /** A name with an extension is accepted exactly when the lower-cased
      extension is whitelisted. */
  lemma AllowedFileIff(stem: string, ext: string)
    requires '.' !in ext
    ensures AllowedFile(stem + "." + ext) <==> Lower(ext) in AllowedExtensions
  {
    ExtensionOf(stem, ext);
  }

  /** Letter case in the extension does not matter, and only the text
      after the last dot counts. */
  lemma UpperCaseAccepted()
    ensures AllowedFile("lesson.v1.MP4")
  {
    var stem, ext := "lesson.v1", "MP4";
    assert '.' !in ext;
    AllowedFileIff(stem, ext);
    assert stem + "." + ext == "lesson.v1.MP4";
    assert Lower(ext) == "mp4";
  }

  /** A whitelisted extension earlier in the name does not help. */
  lemma InnerExtensionIgnored()
    ensures !AllowedFile("lesson.mp4.exe")
  {
    var stem, ext := "lesson.mp4", "exe";
    assert '.' !in ext;
    AllowedFileIff(stem, ext);
    assert stem + "." + ext == "lesson.mp4.exe";
    assert Lower(ext) == "exe";
  }

  /** A name without a dot is refused, even when it is an extension. */
  lemma NoDotRefused()
    ensures !AllowedFile("mp4")
  {
    var name := "mp4";
    assert name[0] != '.' && name[1] != '.' && name[2] != '.';
    assert '.' !in name;
  }
}
