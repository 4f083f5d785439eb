/**
 * The operations of `src/hooks/useFileContentOperations.ts`: compress and
 * decompress (which only relabel a copy of the record; no bytes are
 * compressed), sorting the lines of a file and searching them.
 */
module ContentOperations {
  import opened FileTypes
  import opened FileTree
  import opened FileOperations
  import opened Text
  import LineSort

  // ---------------------------------------------------------------------
  // Sizes

  /** `Math.ceil(size * tenths / 10)` in exact arithmetic. */
  function CeilTenths(size: nat, tenths: nat): (r: nat)
    ensures 10 * r >= size * tenths
    ensures 10 * r < size * tenths + 10
  {
    (size * tenths + 9) / 10
  }

  /** `Math.ceil(size * 0.7)`: never larger than the size, zero only for zero. */
  function CompressedSize(size: nat): (r: nat)
    ensures 10 * r >= 7 * size && 10 * r < 7 * size + 10
    ensures r <= size
    ensures r == 0 <==> size == 0
  {
    CeilTenths(size, 7)
  }

  /** `Math.ceil(size * 1.3)`: never smaller than the size. */
  function DecompressedSize(size: nat): (r: nat)
    ensures 10 * r >= 13 * size && 10 * r < 13 * size + 10
    ensures r >= size
  {
    CeilTenths(size, 13)
  }

  // ---------------------------------------------------------------------
  // Compress

  const CompressedTag: string := "-compressed-"

  /** The archive record a compression adds next to the file. */
  function CompressedOf(f: FileItem, now: nat): (g: FileItem)
    ensures g.id == f.id + CompressedTag + ClockId(now) && g.name == f.name + ".gz"
    ensures g.kind == Archive && g.size == CompressedSize(f.size) && g.modified == now
    ensures g.parent == f.parent && g.isEncrypted == f.isEncrypted && g.permissions == f.permissions
    ensures g.content == Some("[Compressed content of " + f.name + "]")
  {
    f.(id := f.id + CompressedTag + ClockId(now), name := f.name + ".gz", kind := Archive,
       size := CompressedSize(f.size), modified := now, content := Some("[Compressed content of " + f.name + "]"))
  }

  /**
   * `compressFile(id)`: a missing file and a refused write are a denial;
   * a folder or a file without content is refused; otherwise the archive
   * record is appended and the file itself stays.
   */
  function CompressFileStep(roles: seq<UserRole>, files: seq<FileItem>, id: string, now: nat): (r: Step)
    ensures r.outcome == Ok || r.outcome == PermissionDenied || r.outcome == InvalidState
    ensures r.outcome == PermissionDenied <==> Find(files, id).None? || !CheckFileAccess(roles, id, Write)
    ensures r.outcome == InvalidState <==>
      r.outcome != PermissionDenied && (!HasContent(Find(files, id).value) || Find(files, id).value.kind == Folder)
    ensures r.outcome != Ok ==> r.files == files
    ensures r.outcome == Ok ==>
      |r.files| == |files| + 1 && r.files[..|files|] == files &&
      r.files[|files|] == CompressedOf(Find(files, id).value, now)
  {
    match Find(files, id)
    case None => Step(PermissionDenied, files)
    case Some(f) =>
      if !CheckFileAccess(roles, id, Write) then Step(PermissionDenied, files)
      else if !HasContent(f) || f.kind == Folder then Step(InvalidState, files)
      else Step(Ok, files + [CompressedOf(f, now)])
  }

  /** One record appended beside `f`, under `f`'s own parent, with a fresh id, keeps the three store invariants. */
  lemma AppendSibling(files: seq<FileItem>, f: FileItem, g: FileItem)
    requires f in files && g.parent == f.parent
    requires forall h :: h in files ==> h.id != g.id && h.parent != Some(g.id)
    requires g.parent != Some(g.id)
    ensures UniqueIds(files) ==> UniqueIds(files + [g])
    ensures Acyclic(files) ==> Acyclic(files + [g])
    ensures ParentsAreFolders(files) ==> ParentsAreFolders(files + [g])
  {
    assert forall h :: h in files + [g] ==> h in files || h == g;
    AppendLeaves(files, [g]);
  }

  /** With a fresh archive id a compression keeps the three store invariants. */
  lemma CompressKeepsInvariants(roles: seq<UserRole>, files: seq<FileItem>, id: string, now: nat)
    requires FreshTag(files, CompressedTag, now)
    ensures var r := CompressFileStep(roles, files, id, now).files;
      (UniqueIds(files) ==> UniqueIds(r)) && (Acyclic(files) ==> Acyclic(r)) &&
      (ParentsAreFolders(files) ==> ParentsAreFolders(r))
  {
    if CompressFileStep(roles, files, id, now).outcome == Ok {
      var f := Find(files, id).value;
      var g := CompressedOf(f, now);
      if f.parent.Some? {
        assert f.parent != Some(g.id);
      }
      AppendSibling(files, f, g);
    }
  }

  // ---------------------------------------------------------------------
  // Decompress

  /** `name.endsWith('.gz') ? name.slice(0, -3) : `decompressed_${name}``. */
  function OriginalName(name: string): (r: string)
    ensures EndsWith(name, ".gz") ==> r + ".gz" == name
    ensures !EndsWith(name, ".gz") ==> r == "decompressed_" + name
  {
    if EndsWith(name, ".gz") then name[..|name| - 3] else "decompressed_" + name
  }

  /** Decompressing gives back the name the compression started from. */
  lemma OriginalNameOfCompressed(name: string)
    ensures OriginalName(name + ".gz") == name
  {
    assert EndsWith(name + ".gz", ".gz");
  }

  /** The kind of the record the lookup finds, or `document` when there is none. */
  function RecoveredKind(files: seq<FileItem>, lookup: string): (k: FileKind)
    ensures Find(files, lookup).Some? ==> k == Find(files, lookup).value.kind
    ensures Find(files, lookup).None? ==> k == Document
  {
    match Find(files, lookup)
    case None => Document
    case Some(o) => o.kind
  }

  /** The record a decompression adds next to the archive. */
  function DecompressedOf(f: FileItem, kind: FileKind, now: nat): (g: FileItem)
    ensures g.id == f.id + "-decompressed-" + ClockId(now) && g.name == OriginalName(f.name)
    ensures g.kind == kind && g.size == DecompressedSize(f.size) && g.modified == now && g.parent == f.parent
    ensures g.content == Some("[Decompressed content of " + f.name + "]")
  {
    f.(id := f.id + "-decompressed-" + ClockId(now), name := OriginalName(f.name), kind := kind,
       size := DecompressedSize(f.size), modified := now, content := Some("[Decompressed content of " + f.name + "]"))
  }

  /**
   * `decompressFile(id)` with the id of the original file computed by
   * `lookupOf`: a missing file and a refused write are a denial, anything
   * but an archive is refused.
   */
  function DecompressWith(roles: seq<UserRole>, files: seq<FileItem>, id: string, now: nat, lookup: string): (r: Step)
    ensures r.outcome == Ok || r.outcome == PermissionDenied || r.outcome == InvalidState
    ensures r.outcome == PermissionDenied <==> Find(files, id).None? || !CheckFileAccess(roles, id, Write)
    ensures r.outcome == InvalidState <==> r.outcome != PermissionDenied && Find(files, id).value.kind != Archive
    ensures r.outcome != Ok ==> r.files == files
    ensures r.outcome == Ok ==>
      |r.files| == |files| + 1 && r.files[..|files|] == files &&
      r.files[|files|] == DecompressedOf(Find(files, id).value, RecoveredKind(files, lookup), now)
  {
    match Find(files, id)
    case None => Step(PermissionDenied, files)
    case Some(f) =>
      if !CheckFileAccess(roles, id, Write) then Step(PermissionDenied, files)
      else if f.kind != Archive then Step(InvalidState, files)
      else Step(Ok, files + [DecompressedOf(f, RecoveredKind(files, lookup), now)])
  }

  /** The lookup as written: `id.replace('-compressed-', '')`. */
  function LookupAsWritten(id: string): string
  {
    ReplaceFirst(id, CompressedTag, "")
  }

  /** `decompressFile` as written. */
  function DecompressFileStepAsWritten(roles: seq<UserRole>, files: seq<FileItem>, id: string, now: nat): (r: Step)
    ensures r.outcome != Ok ==> r.files == files
  {
    DecompressWith(roles, files, id, now, LookupAsWritten(id))
  }

  predicate IsDecimal(c: char)
  {
    '0' <= c <= '9'
  }

  /** The string without its trailing decimal digits. */
  function TrimDigits(s: string): (r: string)
    ensures |r| <= |s| && r == s[..|r|]
    ensures r == [] || !IsDecimal(r[|r| - 1])
    decreases |s|
  {
    if s != [] && IsDecimal(s[|s| - 1]) then TrimDigits(s[..|s| - 1]) else s
  }

  lemma {:induction false} TrimDigitsAppend(s: string, d: string)
    requires forall k :: 0 <= k < |d| ==> IsDecimal(d[k])
    ensures TrimDigits(s + d) == TrimDigits(s)
    decreases |d|
  {
    if d != [] {
      var t := s + d;
      assert t[|t| - 1] == d[|d| - 1];
      assert TrimDigits(t) == TrimDigits(t[..|t| - 1]);
      assert t[..|t| - 1] == s + d[..|d| - 1];
      TrimDigitsAppend(s, d[..|d| - 1]);
    } else {
      assert s + d == s;
    }
  }

  /** The clock as text is all decimal digits. */
  lemma ClockIdDigits(now: nat)
    ensures forall k :: 0 <= k < |ClockId(now)| ==> IsDecimal(ClockId(now)[k])
  {
    var s := ClockId(now);
    forall k | 0 <= k < |s|
      ensures IsDecimal(s[k])
    {
      assert DigitValue(s[k]).Some? && DigitValue(s[k]).value < 10;
    }
  }

  /** The id of the original file: the archive id without `-compressed-` and the clock digits after it. */
  function OriginalId(id: string): string
  {
    var t := TrimDigits(id);
    if EndsWith(t, CompressedTag) then t[..|t| - |CompressedTag|] else id
  }

  /** The corrected lookup recovers the original id from any archive id. */
  lemma OriginalIdOfCompressed(x: string, now: nat)
    ensures OriginalId(x + CompressedTag + ClockId(now)) == x
  {
    ClockIdDigits(now);
    TrimDigitsAppend(x + CompressedTag, ClockId(now));
    assert TrimDigits(x + CompressedTag) == x + CompressedTag;
    assert EndsWith(x + CompressedTag, CompressedTag);
  }

  /** `decompressFile`, looking up the original by the corrected id. */
  function DecompressFileStep(roles: seq<UserRole>, files: seq<FileItem>, id: string, now: nat): (r: Step)
    ensures r.outcome != Ok ==> r.files == files
  {
    DecompressWith(roles, files, id, now, OriginalId(id))
  }

  /**
   * With a fresh `-decompressed-` id a decompression keeps the three store
   * invariants, whatever id the original is looked up by.
   */
  lemma DecompressKeepsInvariants(roles: seq<UserRole>, files: seq<FileItem>, id: string, now: nat, lookup: string)
    requires FreshTag(files, "-decompressed-", now)
    ensures var r := DecompressWith(roles, files, id, now, lookup).files;
      (UniqueIds(files) ==> UniqueIds(r)) && (Acyclic(files) ==> Acyclic(r)) &&
      (ParentsAreFolders(files) ==> ParentsAreFolders(r))
  {
    if DecompressWith(roles, files, id, now, lookup).outcome == Ok {
      var f := Find(files, id).value;
      var g := DecompressedOf(f, RecoveredKind(files, lookup), now);
      if f.parent.Some? {
        assert f.parent != Some(g.id);
      }
      AppendSibling(files, f, g);
    }
  }

  /**
   * As written, the lookup keeps the clock digits: for an id without a
   * dash the archive id `x-compressed-N` is looked up as `xN`, not `x`.
   */
  lemma LookupAsWrittenMisses(x: string, now: nat)
    requires '-' !in x
    ensures LookupAsWritten(x + CompressedTag + ClockId(now)) == x + ClockId(now)
    ensures LookupAsWritten(x + CompressedTag + ClockId(now)) != x
  {
    var s := x + CompressedTag + ClockId(now);
    assert At(s, CompressedTag, |x|) by {
      assert s[|x|..|x| + |CompressedTag|] == CompressedTag;
    }
    forall j | 0 <= j < |x|
      ensures !At(s, CompressedTag, j)
    {
      assert s[j] == x[j] && x[j] != '-';
      assert CompressedTag[0] == '-';
    }
    assert IndexOf(s, CompressedTag) == Some(|x|);
    assert s[..|x|] == x;
    assert s[|x| + |CompressedTag|..] == ClockId(now);
  }

  /**
   * Compressing a file whose id has no dash and decompressing the archive
   * as written: unless some record happens to carry the id `xN`, the
   * restored record is a `document`, whatever the file's kind was.
   */
  lemma DecompressAsWrittenForgetsKind(roles: seq<UserRole>, files: seq<FileItem>, id: string, t1: nat, t2: nat)
    requires '-' !in id
    requires CompressFileStep(roles, files, id, t1).outcome == Ok
    requires FreshTag(files, CompressedTag, t1)
    requires var mid := CompressFileStep(roles, files, id, t1).files; Find(mid, id + ClockId(t1)).None?
    ensures var mid := CompressFileStep(roles, files, id, t1).files;
      var r := DecompressFileStepAsWritten(roles, mid, id + CompressedTag + ClockId(t1), t2);
      r.outcome == Ok && r.files[|mid|].kind == Document
  {
    var f := Find(files, id).value;
    var mid := CompressFileStep(roles, files, id, t1).files;
    var cid := id + CompressedTag + ClockId(t1);
    ArchiveFound(files, f, t1);
    LookupAsWrittenMisses(id, t1);
  }

  /** After a compression with a fresh id, the archive id finds the archive. */
  lemma ArchiveFound(files: seq<FileItem>, f: FileItem, now: nat)
    requires f in files && FreshTag(files, CompressedTag, now)
    ensures Find(files + [CompressedOf(f, now)], f.id + CompressedTag + ClockId(now)) == Some(CompressedOf(f, now))
  {
    var g := CompressedOf(f, now);
    var all := files + [g];
    assert all[|files|] == g;
    assert forall j :: 0 <= j < |files| ==> all[j].id != g.id;
    assert FindFrom(all, g.id, 0) == Some(|files|) by {
      var k := FindFrom(all, g.id, 0);
      assert k.Some?;
    }
  }

  /**
   * Compressing a file and decompressing the archive with the corrected
   * lookup restores the file's name, kind and parent.
   */
  lemma DecompressRestores(roles: seq<UserRole>, files: seq<FileItem>, id: string, t1: nat, t2: nat)
    requires UniqueIds(files)
    requires CompressFileStep(roles, files, id, t1).outcome == Ok
    requires FreshTag(files, CompressedTag, t1)
    ensures var mid := CompressFileStep(roles, files, id, t1).files;
      var r := DecompressFileStep(roles, mid, id + CompressedTag + ClockId(t1), t2);
      var f := Find(files, id).value;
      r.outcome == Ok && r.files[|mid|].kind == f.kind && r.files[|mid|].name == f.name &&
      r.files[|mid|].parent == f.parent
  {
    var f := Find(files, id).value;
    var g := CompressedOf(f, t1);
    var mid := CompressFileStep(roles, files, id, t1).files;
    assert mid == files + [g] by {
      assert mid[..|files|] == files;
    }
    var aid := id + CompressedTag + ClockId(t1);
    assert Find(mid, aid) == Some(g) by {
      ArchiveFound(files, f, t1);
    }
    assert Find(mid, id) == Some(f) by {
      FindAfterAppend(files, [g], id);
    }
    assert OriginalId(aid) == id by {
      OriginalIdOfCompressed(id, t1);
    }
    assert CheckFileAccess(roles, aid, Write) == CheckFileAccess(roles, id, Write);
    var r := DecompressWith(roles, mid, aid, t2, id);
    assert r.outcome == Ok;
    assert r.files[|mid|] == DecompressedOf(g, f.kind, t2);
    OriginalNameOfCompressed(f.name);
  }

  // ---------------------------------------------------------------------
  // Sort

  /** `content.split('\n')`, sorted, joined with `'\n'`. */
  function SortedText(content: string): string
  {
    Join(LineSort.Sorted(Split(content)))
  }

  /** The sorted text holds the same lines as the original, now in order. */
  lemma SortedTextLines(content: string)
    ensures LineSort.Ordered(Split(SortedText(content)))
    ensures multiset(Split(SortedText(content))) == multiset(Split(content))
  {
    var lines := Split(content);
    var sorted := LineSort.Sorted(lines);
    assert |sorted| == |multiset(sorted)| == |multiset(lines)| == |lines|;
    forall k | 0 <= k < |sorted|
      ensures '\n' !in sorted[k]
    {
      assert sorted[k] in multiset(lines);
    }
    SplitJoin(sorted);
  }

  /** Sorting a file twice gives what sorting it once gave. */
  lemma SortedTextIdempotent(content: string)
    ensures SortedText(SortedText(content)) == SortedText(content)
  {
    SortedTextLines(content);
    var once := LineSort.Sorted(Split(content));
    LineSort.SortedIgnoresOrder(Split(SortedText(content)), Split(content));
    LineSort.SortedIdempotent(Split(content));
  }

  /** `sortFileContent(id)`: the same checks as compressing; the sorted text replaces the content. */
  function SortFileContentStep(roles: seq<UserRole>, files: seq<FileItem>, id: string, now: Timestamp): (r: Step)
    ensures r.outcome == Ok || r.outcome == PermissionDenied || r.outcome == InvalidState
    ensures r.outcome == PermissionDenied <==> Find(files, id).None? || !CheckFileAccess(roles, id, Write)
    ensures r.outcome == InvalidState <==>
      r.outcome != PermissionDenied && (!HasContent(Find(files, id).value) || Find(files, id).value.kind == Folder)
    ensures r.outcome != Ok ==> r.files == files
    ensures r.outcome == Ok ==> SameShape(r.files, files)
  {
    match Find(files, id)
    case None => Step(PermissionDenied, files)
    case Some(f) =>
      if !CheckFileAccess(roles, id, Write) then Step(PermissionDenied, files)
      else if !HasContent(f) || f.kind == Folder then Step(InvalidState, files)
      else Step(Ok, UpdateWhere(files, id, SetContent(SortedText(f.content.value), now)))
  }

  /** Sorting a non-empty text never empties it. */
  lemma SortedTextNonEmpty(content: string)
    requires content != ""
    ensures SortedText(content) != ""
  {
    var lines := Split(content);
    SortedTextLines(content);
    JoinSplit(content);
  }

  /** After a sort the file holds its own lines, in order. */
  lemma SortEffect(roles: seq<UserRole>, files: seq<FileItem>, id: string, now: Timestamp)
    requires SortFileContentStep(roles, files, id, now).outcome == Ok
    ensures var r := SortFileContentStep(roles, files, id, now).files;
      var before := Find(files, id).value.content.value;
      Find(r, id).Some? && Find(r, id).value.content == Some(SortedText(before)) &&
      LineSort.Ordered(Split(SortedText(before))) &&
      multiset(Split(SortedText(before))) == multiset(Split(before))
  {
    var f := Find(files, id).value;
    UpdateThenFind(files, id, SetContent(SortedText(f.content.value), now));
    SortedTextLines(f.content.value);
  }

  /** Sorting a sorted file again succeeds and leaves its content as it is. */
  lemma SortTwice(roles: seq<UserRole>, files: seq<FileItem>, id: string, t1: Timestamp, t2: Timestamp)
    requires SortFileContentStep(roles, files, id, t1).outcome == Ok
    ensures var r := SortFileContentStep(roles, files, id, t1).files;
      var r2 := SortFileContentStep(roles, r, id, t2);
      r2.outcome == Ok && Find(r2.files, id).value.content == Find(r, id).value.content
  {
    var f := Find(files, id).value;
    var s := SortedText(f.content.value);
    var r := SortFileContentStep(roles, files, id, t1).files;
    UpdateThenFind(files, id, SetContent(s, t1));
    SortedTextNonEmpty(f.content.value);
    SortedTextIdempotent(f.content.value);
    UpdateThenFind(r, id, SetContent(s, t2));
  }

  // ---------------------------------------------------------------------
  // Search

  /** A line matches when it holds the term, ignoring case. */
  predicate Hit(line: string, term: string)
  {
    Contains(Lower(line), Lower(term))
  }

  /** `Line ${index + 1}: ${line}`. */
  function LineLabel(index: nat, line: string): string
  {
    "Line " + NatToString(index + 1) + ": " + line
  }

  /** The labels of the matching lines, in line order. */
  function Found(lines: seq<string>, term: string): (r: seq<string>)
    ensures |r| <= |lines|
    decreases |lines|
  {
    if lines == [] then []
    else
      var k := |lines| - 1;
      Found(lines[..k], term) + (if Hit(lines[k], term) then [LineLabel(k, lines[k])] else [])
  }

  /** Every result labels a matching line with its position. */
  lemma {:induction false} FoundSound(lines: seq<string>, term: string)
    ensures forall x :: x in Found(lines, term) ==>
      exists k :: 0 <= k < |lines| && Hit(lines[k], term) && x == LineLabel(k, lines[k])
    decreases |lines|
  {
    if lines != [] {
      var n := |lines| - 1;
      FoundSound(lines[..n], term);
      forall x | x in Found(lines, term)
        ensures exists k :: 0 <= k < |lines| && Hit(lines[k], term) && x == LineLabel(k, lines[k])
      {
        if x in Found(lines[..n], term) {
          var k :| 0 <= k < n && Hit(lines[..n][k], term) && x == LineLabel(k, lines[..n][k]);
          assert lines[..n][k] == lines[k];
        }
      }
    }
  }

  /** The positions of the matching lines, in increasing order. */
  function HitPositions(lines: seq<string>, term: string): (r: seq<nat>)
    ensures forall m :: 0 <= m < |r| ==> r[m] < |lines| && Hit(lines[r[m]], term)
    ensures forall m, j :: 0 <= m < j < |r| ==> r[m] < r[j]
    decreases |lines|
  {
    if lines == [] then []
    else
      var n := |lines| - 1;
      var pre := HitPositions(lines[..n], term);
      assert forall m :: 0 <= m < |pre| ==> lines[..n][pre[m]] == lines[pre[m]];
      pre + (if Hit(lines[n], term) then [n] else [])
  }

  /** Every matching line's position is listed. */
  lemma {:induction false} HitPositionsComplete(lines: seq<string>, term: string)
    ensures forall k :: 0 <= k < |lines| && Hit(lines[k], term) ==> k in HitPositions(lines, term)
    decreases |lines|
  {
    if lines != [] {
      var n := |lines| - 1;
      HitPositionsComplete(lines[..n], term);
      var pre := HitPositions(lines[..n], term);
      var all := HitPositions(lines, term);
      assert all == pre + (if Hit(lines[n], term) then [n] else []);
      forall k | 0 <= k < |lines| && Hit(lines[k], term)
        ensures k in all
      {
        if k < n {
          assert lines[..n][k] == lines[k];
          assert k in pre;
        } else {
          assert all[|all| - 1] == n;
        }
      }
    }
  }

  /**
   * The results are the labels of the matching lines, one per line, in
   * increasing line order.
   */
  lemma {:induction false} FoundInOrder(lines: seq<string>, term: string)
    ensures var h := HitPositions(lines, term);
      |Found(lines, term)| == |h| &&
      forall m :: 0 <= m < |h| ==> Found(lines, term)[m] == LineLabel(h[m], lines[h[m]])
    decreases |lines|
  {
    if lines != [] {
      var n := |lines| - 1;
      var init := lines[..n];
      FoundInOrder(init, term);
      var h := HitPositions(init, term);
      var pre := Found(init, term);
      var tail := if Hit(lines[n], term) then [LineLabel(n, lines[n])] else [];
      assert Found(lines, term) == pre + tail;
      assert HitPositions(lines, term) == h + (if Hit(lines[n], term) then [n] else []);
      forall m | 0 <= m < |h|
        ensures (pre + tail)[m] == LineLabel(h[m], lines[h[m]])
      {
        assert init[h[m]] == lines[h[m]];
      }
    }
  }

  /** A matching line is reported. */
  lemma FoundHas(lines: seq<string>, term: string, k: nat)
    requires k < |lines| && Hit(lines[k], term)
    ensures LineLabel(k, lines[k]) in Found(lines, term)
  {
    var h := HitPositions(lines, term);
    HitPositionsComplete(lines, term);
    FoundInOrder(lines, term);
    var m :| 0 <= m < |h| && h[m] == k;
    assert Found(lines, term)[m] == LineLabel(k, lines[k]);
  }

  /** Every matching line is reported. */
  lemma FoundComplete(lines: seq<string>, term: string)
    ensures forall k :: 0 <= k < |lines| && Hit(lines[k], term) ==> LineLabel(k, lines[k]) in Found(lines, term)
  {
    forall k | 0 <= k < |lines| && Hit(lines[k], term)
      ensures LineLabel(k, lines[k]) in Found(lines, term)
    {
      FoundHas(lines, term, k);
    }
  }

  /** An empty term matches every line. */
  lemma {:induction false} FoundEmptyTerm(lines: seq<string>)
    ensures |Found(lines, "")| == |lines|
    decreases |lines|
  {
    if lines != [] {
      FoundEmptyTerm(lines[..|lines| - 1]);
      assert Lower("") == "";
    }
  }

  /** The search does not see the case of the term. */
  lemma {:induction false} FoundIgnoresCase(lines: seq<string>, term: string)
    ensures Found(lines, Lower(term)) == Found(lines, term)
    decreases |lines|
  {
    LowerIdempotent(term);
    if lines != [] {
      FoundIgnoresCase(lines[..|lines| - 1], term);
    }
  }

  /** The `forEach` loop of `searchFileContent`. */
  method SearchLines(lines: seq<string>, term: string) returns (results: seq<string>)
    ensures results == Found(lines, term)
  {
    results := [];
    var needle := Lower(term);
    for k := 0 to |lines|
      invariant results == Found(lines[..k], term)
    {
      assert lines[..k + 1][..k] == lines[..k];
      if Contains(Lower(lines[k]), needle) {
        results := results + [LineLabel(k, lines[k])];
      }
    }
    assert lines[..|lines|] == lines;
  }

  /**
   * `searchFileContent(id, term)`: nothing for a missing file, a refused
   * read or a file without content; otherwise the labels of the matching
   * lines. The store does not change.
   */
  function SearchFileContent(roles: seq<UserRole>, files: seq<FileItem>, id: string, term: string): (r: seq<string>)
    ensures Find(files, id).None? || !CheckFileAccess(roles, id, Read) || !HasContent(Find(files, id).value) ==> r == []
    ensures r != [] ==> HasContent(Find(files, id).value) && |r| <= |Split(Find(files, id).value.content.value)|
    ensures Find(files, id).Some? && CheckFileAccess(roles, id, Read) && HasContent(Find(files, id).value) ==>
      r == Found(Split(Find(files, id).value.content.value), term)
  {
    match Find(files, id)
    case None => []
    case Some(f) =>
      if !CheckFileAccess(roles, id, Read) || !HasContent(f) then []
      else Found(Split(f.content.value), term)
  }
}
