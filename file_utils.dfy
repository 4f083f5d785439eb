/**
 * The two pure helpers of `src/lib/file-utils.ts` the store relies on:
 * classifying a file name by its extension, and the root-to-node path shown
 * as breadcrumbs.
 */
module FileUtils {
  import opened FileTypes
  import opened FileTree
  import Text

  // ---------------------------------------------------------------------
  // Classification by extension

  /** `name.split('.').pop()`: the text after the last `.`, or the whole name when it has none. */
  function AfterLastDot(name: string): string
  {
    if name == [] then []
    else if name[|name| - 1] == '.' then []
    else AfterLastDot(name[..|name| - 1]) + [name[|name| - 1]]
  }

  /** The extension is the longest dot-free ending of the name: a suffix without `.`, preceded by `.` unless it is the whole name. */
  lemma {:induction false} AfterLastDotIsLastPiece(name: string)
    ensures var r := AfterLastDot(name);
      '.' !in r && |r| <= |name| && name[|name| - |r|..] == r &&
      (|r| < |name| ==> name[|name| - |r| - 1] == '.')
    decreases |name|
  {
    if name != [] && name[|name| - 1] != '.' {
      var init := name[..|name| - 1];
      AfterLastDotIsLastPiece(init);
      var t := AfterLastDot(init);
      var last := name[|name| - 1];
      assert AfterLastDot(name) == t + [last];
      assert '.' !in t + [last] by {
        assert forall ch :: ch in t + [last] ==> ch in t || ch == last;
      }
      assert name[|name| - |t| - 1..] == init[|init| - |t|..] + [last];
      if |t| < |init| {
        assert name[|name| - |t| - 2] == init[|init| - |t| - 1];
      }
    }
  }

  /** A name without a `.` is its own extension. */
  lemma {:induction false} AfterLastDotWhole(name: string)
    requires '.' !in name
    ensures AfterLastDot(name) == name
    decreases |name|
  {
    if name != [] {
      var init := name[..|name| - 1];
      assert name[|name| - 1] in name;
      assert '.' !in init by {
        assert forall ch :: ch in init ==> ch in name;
      }
      AfterLastDotWhole(init);
      assert init + [name[|name| - 1]] == name;
    }
  }

  /** Lower-casing does not move the last `.`. */
  lemma {:induction false} AfterLastDotLower(name: string)
    ensures AfterLastDot(Text.Lower(name)) == Text.Lower(AfterLastDot(name))
    decreases |name|
  {
    if name != [] {
      var init := name[..|name| - 1];
      var last := name[|name| - 1];
      var lower := Text.Lower(name);
      assert lower[|lower| - 1] == Text.LowerChar(last);
      if last != '.' {
        AfterLastDotLower(init);
        assert lower[..|lower| - 1] == Text.Lower(init);
        var tail := AfterLastDot(init);
        assert Text.Lower(tail + [last]) == Text.Lower(tail) + [Text.LowerChar(last)];
      }
    }
  }

  /** The lower-cased extension, as `getFileTypeFromName` computes it. */
  function Extension(name: string): string
  {
    Text.Lower(AfterLastDot(name))
  }

  const ImageExtensions: seq<string> := ["jpg", "jpeg", "png", "gif", "bmp", "webp"]
  const VideoExtensions: seq<string> := ["mp4", "webm", "avi", "mov"]
  const AudioExtensions: seq<string> := ["mp3", "wav", "ogg"]
  const ArchiveExtensions: seq<string> := ["zip", "rar", "tar", "gz"]
  const CodeExtensions: seq<string> := ["js", "ts", "html", "css", "jsx", "tsx", "py", "java", "c", "cpp"]
  const DocumentExtensions: seq<string> := ["doc", "docx", "txt", "md"]

  /** The `switch` over the extension. */
  function KindOfExtension(ext: string): (r: FileKind)
    ensures r != Folder
  {
    if ext == "pdf" then Pdf
    else if ext in ImageExtensions then Image
    else if ext in VideoExtensions then Video
    else if ext in AudioExtensions then Audio
    else if ext in ArchiveExtensions then Archive
    else if ext in CodeExtensions then Code
    else if ext in DocumentExtensions then Document
    else Unknown
  }

  /** `getFileTypeFromName`: never a folder, and unknown when the extension is empty. */
  function GetFileTypeFromName(name: string): (r: FileKind)
    ensures r != Folder
    ensures Extension(name) == "" ==> r == Unknown
  {
    var ext := Extension(name);
    if ext == "" then Unknown else KindOfExtension(ext)
  }

  /** The extensions the table lists. */
  predicate Listed(ext: string)
  {
    ext == "pdf" || ext in ImageExtensions || ext in VideoExtensions || ext in AudioExtensions ||
    ext in ArchiveExtensions || ext in CodeExtensions || ext in DocumentExtensions
  }

  /** A name is classified by its lower-cased extension through the table; unlisted extensions are unknown. */
  lemma ClassifiedByTable(name: string)
    ensures GetFileTypeFromName(name) == KindOfExtension(Extension(name))
    ensures GetFileTypeFromName(name) == Unknown <==> !Listed(Extension(name))
  {
    assert !Listed("");
  }

  /** Classification ignores letter case. */
  lemma FileTypeIgnoresCase(name: string)
    ensures GetFileTypeFromName(Text.Lower(name)) == GetFileTypeFromName(name)
  {
    AfterLastDotLower(name);
    Text.LowerIdempotent(AfterLastDot(name));
  }

  /** A name that is empty or ends in `.` is unknown. */
  lemma EmptyExtensionUnknown(name: string)
    requires name == [] || name[|name| - 1] == '.'
    ensures GetFileTypeFromName(name) == Unknown
  {
  }

  /** A name without a `.` is classified as if it were the extension. */
  lemma NameWithoutDot(name: string)
    requires '.' !in name
    ensures GetFileTypeFromName(name) == KindOfExtension(Text.Lower(name))
  {
    AfterLastDotWhole(name);
  }

  /** A character other than `.` extends the extension. */
  lemma AfterLastDotSnoc(s: string, c: char)
    requires c != '.'
    ensures AfterLastDot(s + [c]) == AfterLastDot(s) + [c]
  {
    assert (s + [c])[..|s|] == s;
  }

  /** Only the last extension counts: `x.tar.gz` is an archive. */
  lemma LastExtensionCounts()
    ensures GetFileTypeFromName("x.tar.gz") == Archive
  {
    assert AfterLastDot("x.tar.") == "";
    assert "x.tar.gz" == "x.tar." + ['g'] + ['z'];
    AfterLastDotSnoc("x.tar.", 'g');
    AfterLastDotSnoc("x.tar." + ['g'], 'z');
    assert AfterLastDot("x.tar.gz") == "gz";
    assert Text.Lower("gz") == "gz";
    assert "gz" in ArchiveExtensions;
  }

  /** Upper-case extensions are recognised: `Report.PDF` is a PDF. */
  lemma UpperCaseExtension()
    ensures GetFileTypeFromName("Report.PDF") == Pdf
  {
    assert AfterLastDot("Report.") == "";
    assert "Report.PDF" == "Report." + ['P'] + ['D'] + ['F'];
    AfterLastDotSnoc("Report.", 'P');
    AfterLastDotSnoc("Report." + ['P'], 'D');
    AfterLastDotSnoc("Report." + ['P'] + ['D'], 'F');
    assert Text.Lower("PDF") == "pdf";
  }

  // ---------------------------------------------------------------------
  // Breadcrumbs

  datatype Crumb = Crumb(id: string, name: string)

  const RootCrumb: Crumb := Crumb("root", "Root")

  /** `!fileId || fileId === 'root'`: no id, the empty id or the root id. */
  predicate AtRoot(fileId: Option<string>)
  {
    fileId.None? || fileId.value == "" || fileId.value == "root"
  }

  /**
   * `getBreadcrumbPath(fileId, files)`, climbing parents one record at a
   * time. Each climb spends one unit of `depth`; `None` is the stack overflow
   * of a climb that never reaches the root.
   */
  function Breadcrumb(fileId: Option<string>, files: seq<FileItem>, depth: nat): (r: Option<seq<Crumb>>)
    ensures r.Some? ==> |r.value| <= depth + 1
    ensures r.Some? && r.value != [] && !AtRoot(fileId) ==>
      Find(files, fileId.value).Some? &&
      r.value[|r.value| - 1] == Crumb(fileId.value, Find(files, fileId.value).value.name)
    ensures r.Some? && r.value == [] <==> !AtRoot(fileId) && Find(files, fileId.value).None?
    decreases depth
  {
    if AtRoot(fileId) then Some([RootCrumb])
    else
      match Find(files, fileId.value)
      case None => Some([])
      case Some(f) =>
        if depth == 0 then None
        else
          match Breadcrumb(f.parent, files, depth - 1)
          case None => None
          case Some(path) => Some(path + [Crumb(f.id, f.name)])
  }

  /** The crumbs of a chain of records, in order. */
  function Crumbs(c: seq<FileItem>): (r: seq<Crumb>)
    ensures |r| == |c|
    ensures forall k :: 0 <= k < |c| ==> r[k] == Crumb(c[k].id, c[k].name)
  {
    seq(|c|, k requires 0 <= k < |c| => Crumb(c[k].id, c[k].name))
  }

  /**
   * For a record reached from the root by a chain of `n` records with unique
   * ids, the path is the root crumb followed by one crumb per record:
   * `n + 1` crumbs.
   */
  lemma {:induction false} BreadcrumbOfChain(files: seq<FileItem>, c: seq<FileItem>, depth: nat)
    requires UniqueIds(files)
    requires IsChain(files, "root", c) && |c| > 0 && depth >= |c|
    requires forall k :: 0 <= k < |c| ==> c[k].id != "root" && c[k].id != ""
    ensures Breadcrumb(Some(c[|c| - 1].id), files, depth) == Some([RootCrumb] + Crumbs(c))
    decreases |c|
  {
    var f := c[|c| - 1];
    var init := c[..|c| - 1];
    ChainMembers(files, "root", c, |c| - 1);
    ChainLink(files, "root", c, |c| - 1);
    assert c == init + [f];
    assert f.id != "root" && f.id != "";
    if init == [] {
      assert f.parent == Some("root") && [RootCrumb] + Crumbs(init) == [RootCrumb];
    } else {
      ChainPrefix(files, "root", c, |c| - 1);
      assert forall k :: 0 <= k < |init| ==> init[k] == c[k];
      BreadcrumbOfChain(files, init, depth - 1);
      assert f.parent == Some(init[|init| - 1].id);
    }
    BreadcrumbSnoc(files, init, f, depth);
  }

  /** Extending a chain by one stored record extends its path by that record's crumb. */
  lemma BreadcrumbSnoc(files: seq<FileItem>, init: seq<FileItem>, f: FileItem, depth: nat)
    requires UniqueIds(files) && f in files && f.id != "root" && f.id != "" && depth > 0
    requires Breadcrumb(f.parent, files, depth - 1) == Some([RootCrumb] + Crumbs(init))
    ensures Breadcrumb(Some(f.id), files, depth) == Some([RootCrumb] + Crumbs(init + [f]))
  {
    var crumb := Crumb(f.id, f.name);
    CrumbsSnoc(init, f);
    assert [RootCrumb] + Crumbs(init) + [crumb] == [RootCrumb] + (Crumbs(init) + [crumb]);
    BreadcrumbStep(files, f, depth, [RootCrumb] + Crumbs(init));
  }

  /** Appending a record appends its crumb. */
  lemma CrumbsSnoc(c: seq<FileItem>, f: FileItem)
    ensures Crumbs(c + [f]) == Crumbs(c) + [Crumb(f.id, f.name)]
  {
  }

  /** One climb: a stored record's path is its parent's path followed by its own crumb. */
  lemma BreadcrumbStep(files: seq<FileItem>, f: FileItem, depth: nat, path: seq<Crumb>)
    requires UniqueIds(files) && f in files && f.id != "root" && f.id != "" && depth > 0
    requires Breadcrumb(f.parent, files, depth - 1) == Some(path)
    ensures Breadcrumb(Some(f.id), files, depth) == Some(path + [Crumb(f.id, f.name)])
  {
    FindStored(files, f);
  }

  /**
   * When every chain of records ending at the starting record is shorter
   * than the budget, the climb reaches the root or a missing record in time.
   */
  lemma {:induction false} BreadcrumbFinishes(files: seq<FileItem>, fileId: Option<string>, depth: nat)
    requires depth > 0
    requires !AtRoot(fileId) ==> forall q: string, c: seq<FileItem> ::
      IsChain(files, q, c) && |c| > 0 && c[|c| - 1].id == fileId.value ==> |c| < depth
    ensures Breadcrumb(fileId, files, depth).Some?
    decreases depth
  {
    if !AtRoot(fileId) && Find(files, fileId.value).Some? {
      var f := Find(files, fileId.value).value;
      if !AtRoot(f.parent) {
        var y := f.parent.value;
        assert IsChain(files, y, [f]);
        forall q: string, c: seq<FileItem> | IsChain(files, q, c) && |c| > 0 && c[|c| - 1].id == y
          ensures |c| < depth - 1
        {
          ChainAppend(files, q, c, f);
          assert (c + [f])[|c|] == f;
        }
        BreadcrumbFinishes(files, f.parent, depth - 1);
      }
    }
  }

  /** When every parent reference names a stored record, a non-empty path starts at the root. */
  lemma {:induction false} BreadcrumbStartsAtRoot(files: seq<FileItem>, fileId: Option<string>, depth: nat)
    requires ParentsAreFolders(files)
    requires Breadcrumb(fileId, files, depth).Some? && Breadcrumb(fileId, files, depth).value != []
    ensures Breadcrumb(fileId, files, depth).value[0] == RootCrumb
    decreases depth
  {
    if !AtRoot(fileId) {
      var f := Find(files, fileId.value).value;
      var path := Breadcrumb(f.parent, files, depth - 1).value;
      if !AtRoot(f.parent) {
        var g :| g in files && g.id == f.parent.value && g.kind == Folder;
        assert Find(files, f.parent.value).Some?;
        BreadcrumbStartsAtRoot(files, f.parent, depth - 1);
      }
    }
  }

  /** On an acyclic store the breadcrumb of any id is computed within the store's budget. */
  lemma BreadcrumbTerminates(files: seq<FileItem>, fileId: Option<string>)
    requires Acyclic(files)
    ensures Breadcrumb(fileId, files, Budget(files)).Some?
  {
    forall q: string, c: seq<FileItem> | IsChain(files, q, c) && |c| > 0 && !AtRoot(fileId) && c[|c| - 1].id == fileId.value
      ensures |c| < Budget(files)
    {
      AcyclicChainShort(files, q, c);
    }
    BreadcrumbFinishes(files, fileId, Budget(files));
  }
}
