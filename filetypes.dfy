/** `detect_file_type(file_path)`: the extension `os.path.splitext` splits
    off the path, lower-cased, decides one of six labels. */
module FileTypes {
  import opened CharClasses

  /** The labels `detect_file_type` can return. */
  const FileTypeLabels: set<string> := {"pdf", "docx", "txt", "image", "csv", "unknown"}

  /** The extensions that have a label of their own; every other extension,
      and no extension at all, is "unknown". */
  const LabelOfExtension: map<string, string> := map[
    ".pdf" := "pdf", ".docx" := "docx", ".txt" := "txt",
    ".png" := "image", ".jpg" := "image", ".jpeg" := "image", ".bmp" := "image",
    ".tiff" := "image", ".gif" := "image",
    ".csv" := "csv"
  ]

  /** `s.rfind(c)` on `s[..n]`: the index of the last `c` before `n`, or -1. */
  function LastIndex(s: string, c: char, n: nat): (i: int)
    requires n <= |s|
    ensures -1 <= i < n
    ensures i >= 0 ==> s[i] == c
    ensures forall k :: i < k < n ==> s[k] != c
  {
    if n == 0 then -1
    else if s[n - 1] == c then n - 1
    else LastIndex(s, c, n - 1)
  }

  /** `os.path.splitext(path)[1]` for POSIX paths: from the last '.' of the
      last path component, unless that component is only dots up to it (a
      leading dot starts a hidden name, not an extension). */
  function Extension(path: string): (ext: string)
    ensures ext != [] ==> |ext| <= |path| && ext == path[|path| - |ext|..] && ext[0] == '.'
    ensures forall k :: 0 < k < |ext| ==> ext[k] != '.' && ext[k] != '/'
  {
    var sep := LastIndex(path, '/', |path|);
    var dot := LastIndex(path, '.', |path|);
    if dot > sep && exists k :: sep < k < dot && path[k] != '.' then path[dot..] else []
  }

  /** The if/elif chain of `detect_file_type` on a lower-cased extension. */
  function KindOfExtension(ext: string): (kind: string)
    ensures kind in FileTypeLabels
  {
    if ext == ".pdf" then "pdf"
    else if ext == ".docx" then "docx"
    else if ext == ".txt" then "txt"
    else if ext in [".png", ".jpg", ".jpeg", ".bmp", ".tiff", ".gif"] then "image"
    else if ext == ".csv" then "csv"
    else "unknown"
  }

  /** `detect_file_type(file_path)`. */
  function DetectFileType(path: string): (kind: string)
    ensures kind in FileTypeLabels
  {
    KindOfExtension(Lower(Extension(path)))
  }

  /** The if/elif chain is the extension table: a listed extension gets its
      label and any other extension, or none, gets "unknown". */
  lemma DetectFileTypeByTable(ext: string)
    ensures KindOfExtension(ext) == if ext in LabelOfExtension then LabelOfExtension[ext] else "unknown"
  {
    if ext == ".pdf" || ext == ".docx" || ext == ".txt" || ext == ".csv" {
    } else if ext in [".png", ".jpg", ".jpeg", ".bmp", ".tiff", ".gif"] {
    } else {
      assert ext !in LabelOfExtension;
    }
  }

  /** Case folding keeps the two characters `splitext` looks for. */
  lemma FoldKeepsSeparators(c: char)
    ensures Fold(c) == '.' <==> c == '.'
    ensures Fold(c) == '/' <==> c == '/'
  {
  }

  lemma {:induction false} LastIndexOfLower(s: string, c: char, n: nat)
    requires n <= |s| && (c == '.' || c == '/')
    ensures LastIndex(Lower(s), c, n) == LastIndex(s, c, n)
  {
    if n > 0 {
      FoldKeepsSeparators(s[n - 1]);
      LastIndexOfLower(s, c, n - 1);
    }
  }

  /** Lower-casing a path lower-cases its extension and nothing more. */
  lemma ExtensionOfLower(path: string)
    ensures Extension(Lower(path)) == Lower(Extension(path))
  {
    LastIndexOfLower(path, '/', |path|);
    LastIndexOfLower(path, '.', |path|);
    LowerKeepsDots(path);
    var dot := LastIndex(path, '.', |path|);
    if dot >= 0 {
      LowerOfSuffix(path, dot);
    }
  }

  lemma LowerKeepsDots(path: string)
    ensures forall k :: 0 <= k < |path| ==> (Lower(path)[k] != '.' <==> path[k] != '.')
  {
    forall k | 0 <= k < |path|
      ensures Lower(path)[k] != '.' <==> path[k] != '.'
    {
      FoldKeepsSeparators(path[k]);
    }
  }

  lemma LowerOfSuffix(s: string, i: nat)
    requires i <= |s|
    ensures Lower(s)[i..] == Lower(s[i..])
  {
  }

  /** Folding twice is folding once. */
  lemma LowerIdempotent(s: string)
    ensures Lower(Lower(s)) == Lower(s)
  {
  }

  /** The label ignores the case of the path: `report.PDF` and `report.pdf`
      are both "pdf". */
  lemma DetectFileTypeIgnoresCase(path: string)
    ensures DetectFileType(Lower(path)) == DetectFileType(path)
  {
    ExtensionOfLower(path);
    LowerIdempotent(Extension(path));
  }

  /** `rfind` finds a position holding `c` with no `c` after it. */
  lemma LastIndexIs(s: string, c: char, i: int)
    requires -1 <= i < |s| && (i >= 0 ==> s[i] == c)
    requires forall k :: i < k < |s| ==> s[k] != c
    ensures LastIndex(s, c, |s|) == i
  {
  }

  /** A directory prefix (empty, or ending in '/'), then a name without '/'
      that holds some character other than a dot, then '.' + `tail` with no
      '.' or '/' in `tail`: the extension is '.' + `tail`. The name may start
      with dots ("/tmp/.env.pdf"): only leading dots are skipped. This covers
      the absolute paths of temporary upload files. */
  lemma ExtensionOfPath(dir: string, name: string, tail: string)
    requires dir == [] || dir[|dir| - 1] == '/'
    requires exists k :: 0 <= k < |name| && name[k] != '.'
    requires forall k :: 0 <= k < |name| ==> name[k] != '/'
    requires forall k :: 0 <= k < |tail| ==> tail[k] != '.' && tail[k] != '/'
    ensures Extension(dir + name + "." + tail) == "." + tail
  {
    var path := dir + name + "." + tail;
    var dot := |dir| + |name|;
    assert path[dot] == '.';
    assert forall k :: dot < k < |path| ==> path[k] == tail[k - dot - 1];
    assert forall k :: |dir| <= k < dot ==> path[k] == name[k - |dir|];
    LastIndexIs(path, '.', dot);
    if dir == [] {
      LastIndexIs(path, '/', -1);
    } else {
      assert path[|dir| - 1] == '/';
      LastIndexIs(path, '/', |dir| - 1);
    }
    var k :| 0 <= k < |name| && name[k] != '.';
    assert path[|dir| + k] == name[k];
    assert path[dot..] == "." + tail;
  }

  /** The same for a bare file name. */
  lemma ExtensionOfName(name: string, tail: string)
    requires exists k :: 0 <= k < |name| && name[k] != '.'
    requires forall k :: 0 <= k < |name| ==> name[k] != '/'
    requires forall k :: 0 <= k < |tail| ==> tail[k] != '.' && tail[k] != '/'
    ensures Extension(name + "." + tail) == "." + tail
  {
    ExtensionOfPath([], name, tail);
    assert [] + name == name;
  }

  /** A last component made only of dots, then '.' + `tail` with no '.' or
      '/' in `tail`, has no extension: the dot before `tail` is a leading
      dot ("..pdf", "/tmp/.pdf"). */
  lemma LeadingDotsNoExtension(dir: string, dots: string, tail: string)
    requires dir == [] || dir[|dir| - 1] == '/'
    requires forall k :: 0 <= k < |dots| ==> dots[k] == '.'
    requires forall k :: 0 <= k < |tail| ==> tail[k] != '.' && tail[k] != '/'
    ensures Extension(dir + dots + "." + tail) == []
  {
    var path := dir + dots + "." + tail;
    var dot := |dir| + |dots|;
    assert path[dot] == '.';
    assert forall k :: dot < k < |path| ==> path[k] == tail[k - dot - 1];
    assert forall k :: |dir| <= k < dot ==> path[k] == dots[k - |dir|];
    LastIndexIs(path, '.', dot);
    if dir == [] {
      LastIndexIs(path, '/', -1);
    } else {
      assert path[|dir| - 1] == '/';
      LastIndexIs(path, '/', |dir| - 1);
    }
  }

  /** A last component made only of dots ("..", ".") has no extension. */
  lemma AllDotsNoExtension(dir: string, dots: string)
    requires dir == [] || dir[|dir| - 1] == '/'
    requires dots != [] && forall k :: 0 <= k < |dots| ==> dots[k] == '.'
    ensures Extension(dir + dots) == []
  {
    var init := dots[..|dots| - 1];
    assert dots == init + ".";
    assert dir + dots == dir + init + "." + [];
    LeadingDotsNoExtension(dir, init, []);
  }

  /** A path whose last component holds no '.' has no extension. */
  lemma NoDotNoExtension(path: string)
    requires forall k :: LastIndex(path, '/', |path|) < k < |path| ==> path[k] != '.'
    ensures Extension(path) == []
  {
  }

  /** A directory, a name, a dot and an extension: the label is the table's
      label for the lower-cased extension. */
  lemma KindOfName(dir: string, name: string, tail: string)
    requires dir == [] || dir[|dir| - 1] == '/'
    requires exists k :: 0 <= k < |name| && name[k] != '.'
    requires forall k :: 0 <= k < |name| ==> name[k] != '/'
    requires forall k :: 0 <= k < |tail| ==> tail[k] != '.' && tail[k] != '/'
    ensures var ext := Lower("." + tail);
      DetectFileType(dir + name + "." + tail) == if ext in LabelOfExtension then LabelOfExtension[ext] else "unknown"
  {
    ExtensionOfPath(dir, name, tail);
    DetectFileTypeByTable(Lower("." + tail));
  }

  /** `.PDF` is "pdf", whatever the case. */
  lemma UpperCasePdf()
    ensures DetectFileType("report.PDF") == "pdf"
  {
    assert "report" + "." + "PDF" == "report.PDF";
    assert "report"[0] != '.';
    ExtensionOfName("report", "PDF");
    assert Lower(".PDF") == ".pdf";
  }

  /** `.jpeg` is "image". */
  lemma JpegIsImage()
    ensures DetectFileType("photo.jpeg") == "image"
  {
    assert "photo" + "." + "jpeg" == "photo.jpeg";
    assert "photo"[0] != '.';
    ExtensionOfName("photo", "jpeg");
    assert Lower(".jpeg") == ".jpeg";
  }

  /** `.GIF` is "image", whatever the case. */
  lemma UpperCaseGif()
    ensures DetectFileType("ANIM.GIF") == "image"
  {
    assert "ANIM" + "." + "GIF" == "ANIM.GIF";
    assert "ANIM"[0] != '.';
    ExtensionOfName("ANIM", "GIF");
    assert Lower(".GIF") == ".gif";
  }

  /** A `.gz` archive is "unknown": only the last extension counts. */
  lemma ArchiveIsUnknown()
    ensures DetectFileType("archive.tar.gz") == "unknown"
  {
    ArchiveExtension();
    assert Lower(".gz") == ".gz";
  }

  lemma ArchiveExtension()
    ensures Extension("archive.tar.gz") == ".gz"
  {
    assert "archive.tar" + "." + "gz" == "archive.tar.gz";
    assert "archive.tar"[0] != '.';
    ExtensionOfName("archive.tar", "gz");
  }

  /** A temporary upload file under an absolute directory is labelled by
      its own extension. */
  lemma TempUploadIsPdf()
    ensures DetectFileType("/tmp/tmpk3x9.pdf") == "pdf"
  {
    assert "/tmp/" + "tmpk3x9" + "." + "pdf" == "/tmp/tmpk3x9.pdf";
    assert "tmpk3x9"[0] != '.';
    ExtensionOfPath("/tmp/", "tmpk3x9", "pdf");
    assert Lower(".pdf") == ".pdf";
  }

  /** A name without a dot is "unknown". */
  lemma NoExtensionIsUnknown()
    ensures DetectFileType("notes") == "unknown"
  {
    NoDotNoExtension("notes");
    assert Lower("") == "";
  }

  /** A hidden file named `.pdf` has no extension, so it is "unknown". */
  lemma HiddenFileIsUnknown()
    ensures DetectFileType(".pdf") == "unknown"
  {
    assert LastIndex(".pdf", '.', 4) == 0;
    assert Extension(".pdf") == [];
    assert Lower("") == "";
  }

  /** A hidden name with a later dot has an extension: only the leading
      dot is skipped. */
  lemma HiddenNameWithExtensionIsPdf()
    ensures DetectFileType("/tmp/.env.pdf") == "pdf"
  {
    assert "/tmp/" + ".env" + "." + "pdf" == "/tmp/.env.pdf";
    assert ".env"[1] != '.';
    ExtensionOfPath("/tmp/", ".env", "pdf");
    assert Lower(".pdf") == ".pdf";
  }

  /** "..pdf" is all leading dots before `pdf`: no extension, "unknown". */
  lemma LeadingDotsAreUnknown()
    ensures DetectFileType("..pdf") == "unknown"
  {
    assert [] + "." + "." + "pdf" == "..pdf";
    LeadingDotsNoExtension([], ".", "pdf");
    assert Lower("") == "";
  }

  /** A dot in a directory name is no extension of the file below it. */
  lemma DirectoryDotIsUnknown()
    ensures DetectFileType("dir.pdf/readme") == "unknown"
  {
    assert LastIndex("dir.pdf/readme", '/', 14) == 7;
    NoDotNoExtension("dir.pdf/readme");
    assert Lower("") == "";
  }
}
