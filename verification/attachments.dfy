/**
 The attachment check of ticket creation (app.py:148): the uploaded file's
 name is split on '.', the last piece is lower-cased, and the result must be
 one of nine allowed extensions.
 */
module Attachments {
  import opened Text

  const AllowList: seq<string> := ["txt", "pdf", "png", "jpg", "jpeg", "gif", "zip", "mp3", "mp4"]

  /* `filename.split('.')[-1]`: the text after the last '.', or the whole name
     when it has no '.'. */
  function Extension(filename: string): (ext: string)
    ensures IsLastSegment(filename, '.', ext)
  {
    SplitLastPiece(filename, '.');
    var parts := Split(filename, '.');
    parts[|parts| - 1]
  }

  /* The condition that lets an attachment through. */
  predicate ExtensionAllowed(filename: string)
  {
    Lower(Extension(filename)) in AllowList
  }

  /* `l` is `ext` itself or ends in "." + `ext`. */
  predicate DotSuffix(l: string, ext: string)
  {
    l == ext || (|ext| < |l| && l[|l| - |ext| - 1..] == ['.'] + ext)
  }

  /* `name`, compared without case, is `ext` itself or ends in "." + `ext`. */
  predicate EndsWithExtension(name: string, ext: string)
  {
    DotSuffix(Lower(name), ext)
  }

  lemma AllowListHasNoDots()
    ensures forall i :: 0 <= i < |AllowList| ==> '.' !in AllowList[i]
  {
  }

  /* For a dot-free `e`, ending in "." + `e` (or being `e`) is being the text
     after the last '.'. */
  lemma DotSuffixIsLastSegment(l: string, e: string)
    requires '.' !in e
    ensures DotSuffix(l, e) <==> IsLastSegment(l, '.', e)
  {
    if |e| < |l| {
      assert l[|l| - |e| - 1..] == [l[|l| - |e| - 1]] + l[|l| - |e|..];
    }
  }

  /* Lower-casing commutes with taking the extension. */
  lemma LowerExtension(name: string)
    ensures IsLastSegment(Lower(name), '.', Lower(Extension(name)))
  {
    var ext := Extension(name);
    var pre := name[..|name| - |ext|];
    assert name == pre + ext;
    LowerConcat(pre, ext);
    LowerKeepsChar(ext, '.');
  }

  /* The allow-list check, stated without splitting: a name is accepted exactly
     when, ignoring case, it ends in "." followed by an allowed extension, or is
     itself an allowed extension (a file named "pdf" is let through). */
  lemma AcceptedIffEndsWithAllowed(name: string)
    ensures ExtensionAllowed(name) <==>
              exists i :: 0 <= i < |AllowList| && EndsWithExtension(name, AllowList[i])
  {
    var l := Lower(name);
    var le := Lower(Extension(name));
    LowerExtension(name);
    AllowListHasNoDots();
    if ExtensionAllowed(name) {
      var i :| 0 <= i < |AllowList| && AllowList[i] == le;
      DotSuffixIsLastSegment(l, AllowList[i]);
    }
    if i :| 0 <= i < |AllowList| && EndsWithExtension(name, AllowList[i]) {
      DotSuffixIsLastSegment(l, AllowList[i]);
      LastSegmentUnique(l, '.', AllowList[i], le);
    }
  }

  lemma ExtensionIs(name: string, e: string)
    requires IsLastSegment(name, '.', e)
    ensures Extension(name) == e
  {
    LastSegmentUnique(name, '.', e, Extension(name));
  }

  lemma AcceptsTxt()
    ensures ExtensionAllowed("notes.txt")
  {
    ExtensionIs("notes.txt", "txt");
    assert Lower("txt") == "txt" == AllowList[0];
  }

  lemma AcceptsUpperCase()
    ensures ExtensionAllowed("Photo.JPEG")
  {
    ExtensionIs("Photo.JPEG", "JPEG");
    assert Lower("JPEG") == "jpeg" == AllowList[4];
  }

  /* Only the last piece counts. */
  lemma AcceptsLastPieceOnly()
    ensures ExtensionAllowed("archive.tar.zip")
  {
    ExtensionIs("archive.tar.zip", "zip");
    assert Lower("zip") == "zip" == AllowList[6];
  }

  /* A name without '.' is its own extension. */
  lemma AcceptsBareExtension()
    ensures ExtensionAllowed("pdf")
  {
    ExtensionIs("pdf", "pdf");
    assert Lower("pdf") == "pdf" == AllowList[1];
  }

  lemma RejectsExe()
    ensures !ExtensionAllowed("setup.exe")
    ensures !ExtensionAllowed("notes.txt.exe")
  {
    ExtensionIs("setup.exe", "exe");
    ExtensionIs("notes.txt.exe", "exe");
    assert Lower("exe") == "exe";
  }

  /* A trailing '.' leaves an empty extension, which is not allowed. */
  lemma RejectsTrailingDot()
    ensures !ExtensionAllowed("report.")
  {
    ExtensionIs("report.", "");
    assert Lower("") == "";
  }
}
