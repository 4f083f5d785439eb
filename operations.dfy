/**
 * The operations of `src/hooks/useFileOperations.ts` as pure transitions:
 * the permission gate, create, cascading delete, rename, edit and clear.
 * Each transition reports an `Outcome` and the store afterwards; any outcome
 * but `Ok` leaves the store as it was (the source shows a toast and returns).
 * The in-place updates shared with the other hooks (`prev.map(f => f.id ===
 * id ? {...f, ...} : f)`) are `UpdateWhere` with a `Patch`.
 */
module FileOperations {
  import opened FileTypes
  import opened FileTree
  import Text

  /** What an operation reports, and the store it leaves. */
  datatype Step = Step(outcome: Outcome, files: seq<FileItem>)

  // ---------------------------------------------------------------------
  // The permission gate

  /** The position of the first role with the id. */
  function FirstRole(roles: seq<UserRole>, id: string, from: nat): (r: Option<nat>)
    ensures r.Some? ==> from <= r.value < |roles| && roles[r.value].id == id
    ensures r.Some? ==> forall j :: from <= j < r.value ==> roles[j].id != id
    ensures r.None? ==> forall j :: from <= j < |roles| ==> roles[j].id != id
  {
    FirstIndex(RoleIds(roles), id, from)
  }

  /** The ids of the role table, in order. */
  function RoleIds(roles: seq<UserRole>): (r: seq<string>)
    ensures |r| == |roles|
    ensures forall k :: 0 <= k < |roles| ==> r[k] == roles[k].id
  {
    seq(|roles|, k requires 0 <= k < |roles| => roles[k].id)
  }

  /**
   * `checkFileAccess(fileId, action)`: the flag of the first role whose id is
   * `admin`, false when there is none. The file id plays no part.
   */
  function CheckFileAccess(roles: seq<UserRole>, fileId: string, action: Action): (r: bool)
    ensures r <==> (exists k :: 0 <= k < |roles| && roles[k].id == "admin" &&
                      (forall j :: 0 <= j < k ==> roles[j].id != "admin") && Grants(roles[k].permissions, action))
  {
    match FirstRole(roles, "admin", 0)
    case None => false
    case Some(k) => Grants(roles[k].permissions, action)
  }

  /** The gate loop of a batch operation: every id must pass. */
  predicate AllAllowed(roles: seq<UserRole>, ids: seq<string>, action: Action)
  {
    forall k :: 0 <= k < |ids| ==> CheckFileAccess(roles, ids[k], action)
  }

  /** A batch passes exactly when it is empty or the gate grants the action at all. */
  lemma BatchGate(roles: seq<UserRole>, ids: seq<string>, action: Action)
    ensures AllAllowed(roles, ids, action) <==> ids == [] || CheckFileAccess(roles, "root", action)
  {
    if ids != [] && !CheckFileAccess(roles, "root", action) {
      assert !CheckFileAccess(roles, ids[0], action);
    }
  }

  // ---------------------------------------------------------------------
  // Updating the records with one id

  /** The field updates the operations apply to a record. */
  datatype Patch =
    | Rename(newName: string)
    | SetContent(text: string, at: Timestamp)
    | SetCipher(cipherText: string, encrypted: bool, at: Timestamp)
    | SetPermissions(permissions: string, at: Timestamp)

  /** `{ ...f, <fields> }`: the id, the parent, the kind and the size never change. */
  function Apply(f: FileItem, patch: Patch): (r: FileItem)
    ensures r.id == f.id && r.parent == f.parent && r.kind == f.kind && r.size == f.size
    ensures r.owner == f.owner && r.lastAccessedBy == f.lastAccessedBy && r.version == f.version
    ensures patch.Rename? ==> r.modified == f.modified && r.content == f.content && r.isEncrypted == f.isEncrypted
    ensures !patch.Rename? ==> r.name == f.name
    ensures !patch.SetCipher? ==> r.isEncrypted == f.isEncrypted
    ensures !patch.SetPermissions? ==> r.permissions == f.permissions
  {
    match patch
    case Rename(n) => f.(name := n)
    case SetContent(t, at) => f.(content := Some(t), modified := at)
    case SetCipher(t, e, at) => f.(content := Some(t), isEncrypted := e, modified := at)
    case SetPermissions(p, at) => f.(permissions := Some(p), modified := at)
  }

  /** `files.map(f => f.id === id ? apply(f) : f)`. */
  function UpdateWhere(files: seq<FileItem>, id: string, patch: Patch): (r: seq<FileItem>)
    ensures SameShape(r, files)
    ensures forall k :: 0 <= k < |files| && files[k].id != id ==> r[k] == files[k]
    ensures forall k :: 0 <= k < |files| && files[k].id == id ==> r[k] == Apply(files[k], patch)
  {
    seq(|files|, k requires 0 <= k < |files| => if files[k].id == id then Apply(files[k], patch) else files[k])
  }

  /** Looking the id up after the update finds the first match, patched. */
  lemma UpdateThenFind(files: seq<FileItem>, id: string, patch: Patch)
    requires Find(files, id).Some?
    ensures Find(UpdateWhere(files, id, patch), id) == Some(Apply(Find(files, id).value, patch))
  {
    var r := UpdateWhere(files, id, patch);
    var k := FindFrom(files, id, 0).value;
    var k' := FindFrom(r, id, 0).value;
    assert r[k].id == id;
    assert k' == k by {
      assert forall j :: 0 <= j < |r| ==> r[j].id == files[j].id;
    }
  }

  /** An update keeps unique ids, acyclicity and parents that are folders. */
  lemma UpdateKeepsInvariants(files: seq<FileItem>, id: string, patch: Patch)
    ensures UniqueIds(files) ==> UniqueIds(UpdateWhere(files, id, patch))
    ensures Acyclic(files) ==> Acyclic(UpdateWhere(files, id, patch))
    ensures ParentsAreFolders(files) ==> ParentsAreFolders(UpdateWhere(files, id, patch))
  {
    ShapeKeepsInvariants(UpdateWhere(files, id, patch), files);
  }

  /** A lookup the update cannot influence: other ids find what they found before. */
  lemma UpdateKeepsOthers(files: seq<FileItem>, id: string, patch: Patch, other: string)
    requires other != id
    ensures Find(UpdateWhere(files, id, patch), other) == Find(files, other)
  {
    var r := UpdateWhere(files, id, patch);
    assert forall j :: 0 <= j < |r| ==> r[j].id == files[j].id;
    match FindFrom(files, other, 0)
    case None =>
      assert forall f :: f in r ==> f.id != other;
    case Some(k) =>
      assert r[k] == files[k];
      assert FindFrom(r, other, 0) == Some(k) by {
        var k' := FindFrom(r, other, 0);
        assert k'.Some?;
      }
  }

  // ---------------------------------------------------------------------
  // Create

  /** The clock reading as the id `Date.now().toString()`. */
  function ClockId(now: nat): string
  {
    Text.NatToString(now)
  }

  /**
   * The ids a clock-suffixed copy of the store would use
   * (`${f.id}${tag}${now}`) are taken by no record, neither as an id nor
   * as a parent.
   */
  predicate FreshTag(files: seq<FileItem>, tag: string, now: nat)
  {
    forall f, g :: f in files && g in files ==>
      g.id != f.id + tag + ClockId(now) && g.parent != Some(f.id + tag + ClockId(now))
  }

  /** The bare clock reading `now` is taken by no record, neither as an id nor as a parent. */
  predicate FreshClock(files: seq<FileItem>, now: nat)
  {
    forall f :: f in files ==> f.id != ClockId(now) && f.parent != Some(ClockId(now))
  }

  /** The id the create gate is asked about: `file.parent || 'root'`. */
  function CreateTarget(parent: Option<string>): (r: string)
    ensures r != ""
    ensures parent.Some? && parent.value != "" ==> r == parent.value
  {
    if parent.None? || parent.value == "" then "root" else parent.value
  }

  /** `addFile(file)`: on a granted write, the record with a new id goes at the end. */
  function AddFileStep(roles: seq<UserRole>, files: seq<FileItem>, file: FileItem, now: nat): (r: Step)
    ensures r.outcome == Ok || r.outcome == PermissionDenied
    ensures r.outcome == Ok <==> CheckFileAccess(roles, CreateTarget(file.parent), Write)
    ensures r.outcome == PermissionDenied ==> r.files == files
    ensures r.outcome == Ok ==>
      |r.files| == |files| + 1 && r.files[..|files|] == files &&
      r.files[|files|].id == ClockId(now) && r.files[|files|].(id := file.id) == file
  {
    if !CheckFileAccess(roles, CreateTarget(file.parent), Write) then Step(PermissionDenied, files)
    else Step(Ok, files + [file.(id := ClockId(now))])
  }

  /**
   * With a fresh id, a parent other than the new id and a parent that is a
   * stored folder (or none), creating keeps the three store invariants.
   */
  lemma AddKeepsInvariants(roles: seq<UserRole>, files: seq<FileItem>, file: FileItem, now: nat)
    requires FreshClock(files, now)
    requires file.parent != Some(ClockId(now))
    ensures var r := AddFileStep(roles, files, file, now).files;
      (UniqueIds(files) ==> UniqueIds(r)) && (Acyclic(files) ==> Acyclic(r)) &&
      (ParentsAreFolders(files) && ParentsAmong([file.(id := ClockId(now))], files) ==> ParentsAreFolders(r))
  {
    var g := file.(id := ClockId(now));
    AppendLeaves(files, [g]);
  }

  // ---------------------------------------------------------------------
  // Cascading delete

  /** `[...ids, ...ids.flatMap(getAllChildIds)]`, or `None` when the recursion overflows. */
  function DeletionIds(files: seq<FileItem>, ids: seq<string>): (r: Option<seq<string>>)
    ensures r.Some? ==> |r.value| >= |ids| && r.value[..|ids|] == ids
  {
    match AllChildIdsOf(files, ids, Budget(files))
    case None => None
    case Some(below) => Some(ids + below)
  }

  /** An id the delete removes: one of `ids`, or the id of a record below one of them. */
  ghost predicate Doomed(files: seq<FileItem>, ids: seq<string>, x: string)
  {
    x in ids || exists k, g :: 0 <= k < |ids| && Descends(files, ids[k], g) && g.id == x
  }

  /** The collected ids are exactly the doomed ones. */
  lemma DeletionIdsExact(files: seq<FileItem>, ids: seq<string>)
    requires DeletionIds(files, ids).Some?
    ensures forall x :: x in DeletionIds(files, ids).value <==> Doomed(files, ids, x)
  {
    var all := DeletionIds(files, ids).value;
    var below := AllChildIdsOf(files, ids, Budget(files)).value;
    AllChildIdsOfParts(files, ids, Budget(files));
    forall x | x in all
      ensures Doomed(files, ids, x)
    {
      if x !in ids {
        assert x in below;
        var k :| 0 <= k < |ids| && x in AllChildIds(files, ids[k], Budget(files)).value;
        ClosureSound(files, ids[k], Budget(files));
      }
    }
    forall x | Doomed(files, ids, x)
      ensures x in all
    {
      if x !in ids {
        var k, g :| 0 <= k < |ids| && Descends(files, ids[k], g) && g.id == x;
        var c :| IsChain(files, ids[k], c) && |c| > 0 && c[|c| - 1] == g;
        ClosureComplete(files, ids[k], Budget(files), c);
      }
    }
  }

  /**
   * `deleteFiles(ids)`: every id must pass the delete gate; then every
   * record whose id is doomed goes, the rest keep their order. A recursion
   * that overflows leaves the store as it was.
   */
  function DeleteFilesStep(roles: seq<UserRole>, files: seq<FileItem>, ids: seq<string>): (r: Step)
    ensures r.outcome == Ok || r.outcome == PermissionDenied || r.outcome == TransformFailure
    ensures r.outcome == PermissionDenied <==> !AllAllowed(roles, ids, Delete)
    ensures r.outcome != Ok ==> r.files == files
    ensures r.outcome == Ok ==> SubsequenceOf(r.files, files)
  {
    if !AllAllowed(roles, ids, Delete) then Step(PermissionDenied, files)
    else
      match DeletionIds(files, ids)
      case None => Step(TransformFailure, files)
      case Some(all) => Step(Ok, WithoutIds(files, all))
  }

  /** After a delete exactly the records with an id that is not doomed remain. */
  lemma DeleteRemovesExactlyDoomed(roles: seq<UserRole>, files: seq<FileItem>, ids: seq<string>)
    requires DeleteFilesStep(roles, files, ids).outcome == Ok
    ensures forall f :: f in DeleteFilesStep(roles, files, ids).files <==> f in files && !Doomed(files, ids, f.id)
  {
    DeletionIdsExact(files, ids);
  }

  /** On an acyclic store a permitted delete always completes. */
  lemma DeleteCompletesWhenAcyclic(roles: seq<UserRole>, files: seq<FileItem>, ids: seq<string>)
    requires Acyclic(files) && AllAllowed(roles, ids, Delete)
    ensures DeleteFilesStep(roles, files, ids).outcome == Ok
  {
    ClosureTerminates(files, ids);
  }

  /** A cycle below one of the ids makes the permitted delete fail, leaving the store as it was. */
  lemma DeleteFailsOnCycle(roles: seq<UserRole>, files: seq<FileItem>, ids: seq<string>, k: nat, c: seq<FileItem>)
    requires AllAllowed(roles, ids, Delete)
    requires k < |ids| && IsChain(files, ids[k], c) && |c| > 0 && c[|c| - 1].id == ids[k]
    ensures DeleteFilesStep(roles, files, ids) == Step(TransformFailure, files)
  {
    if DeletionIds(files, ids).Some? {
      AllChildIdsOfParts(files, ids, Budget(files));
      CycleExhausts(files, ids[k], c, Budget(files));
    }
  }

  /** A record hanging below a doomed id is doomed too. */
  lemma ChildOfDoomed(files: seq<FileItem>, ids: seq<string>, f: FileItem)
    requires f in files && f.parent.Some? && Doomed(files, ids, f.parent.value)
    ensures Doomed(files, ids, f.id)
  {
    var q := f.parent.value;
    if q in ids {
      var k :| 0 <= k < |ids| && ids[k] == q;
      assert IsChain(files, q, [f]);
      assert Descends(files, ids[k], f);
    } else {
      var k, g :| 0 <= k < |ids| && Descends(files, ids[k], g) && g.id == q;
      var c :| IsChain(files, ids[k], c) && |c| > 0 && c[|c| - 1] == g;
      ChainAppend(files, ids[k], c, f);
      assert (c + [f])[|c|] == f;
      assert Descends(files, ids[k], f);
    }
  }

  /** A completed delete keeps the three store invariants: nothing is left hanging below a removed record. */
  lemma DeleteKeepsInvariants(roles: seq<UserRole>, files: seq<FileItem>, ids: seq<string>)
    requires DeleteFilesStep(roles, files, ids).outcome == Ok
    ensures var r := DeleteFilesStep(roles, files, ids).files;
      (UniqueIds(files) ==> UniqueIds(r)) && (Acyclic(files) ==> Acyclic(r)) &&
      (ParentsAreFolders(files) ==> ParentsAreFolders(r))
  {
    var r := DeleteFilesStep(roles, files, ids).files;
    DeleteRemovesExactlyDoomed(roles, files, ids);
    if UniqueIds(files) {
      UniqueSubsequence(r, files);
    }
    if Acyclic(files) {
      AcyclicSubset(files, r);
    }
    if ParentsAreFolders(files) {
      forall f | f in r && f.parent.Some?
        ensures exists g :: g in r && g.id == f.parent.value && g.kind == Folder
      {
        var g :| g in files && g.id == f.parent.value && g.kind == Folder;
        if Doomed(files, ids, f.parent.value) {
          ChildOfDoomed(files, ids, f);
        }
        assert g in r;
      }
    }
  }

  // ---------------------------------------------------------------------
  // Rename, edit, clear

  /** `renameFile(id, newName)`: a missing file or a refused write is reported as a denial. */
  function RenameFileStep(roles: seq<UserRole>, files: seq<FileItem>, id: string, newName: string): (r: Step)
    ensures r.outcome == Ok || r.outcome == PermissionDenied
    ensures r.outcome == Ok <==> Find(files, id).Some? && CheckFileAccess(roles, id, Write)
    ensures r.outcome != Ok ==> r.files == files
    ensures r.outcome == Ok ==> SameShape(r.files, files)
  {
    if Find(files, id).None? || !CheckFileAccess(roles, id, Write) then Step(PermissionDenied, files)
    else Step(Ok, UpdateWhere(files, id, Rename(newName)))
  }

  /** After a rename the file carries the new name and the old timestamp; nothing else changes. */
  lemma RenameEffect(roles: seq<UserRole>, files: seq<FileItem>, id: string, newName: string)
    requires RenameFileStep(roles, files, id, newName).outcome == Ok
    ensures var r := RenameFileStep(roles, files, id, newName).files;
      Find(r, id).Some? && Find(r, id).value == Find(files, id).value.(name := newName) &&
      forall k :: 0 <= k < |files| ==> r[k].(name := files[k].name) == files[k]
    ensures var r := RenameFileStep(roles, files, id, newName).files;
      |r| == |files| && forall k :: 0 <= k < |files| && files[k].id != id ==> r[k] == files[k]
  {
    UpdateThenFind(files, id, Rename(newName));
  }

  /** `editFileContent(id, content)`. */
  function EditFileContentStep(roles: seq<UserRole>, files: seq<FileItem>, id: string, content: string, now: Timestamp): (r: Step)
    ensures r.outcome == Ok || r.outcome == PermissionDenied
    ensures r.outcome == Ok <==> Find(files, id).Some? && CheckFileAccess(roles, id, Write)
    ensures r.outcome != Ok ==> r.files == files
    ensures r.outcome == Ok ==> SameShape(r.files, files)
  {
    if Find(files, id).None? || !CheckFileAccess(roles, id, Write) then Step(PermissionDenied, files)
    else Step(Ok, UpdateWhere(files, id, SetContent(content, now)))
  }

  /** After an edit the file holds the new text, stamped with the clock; other ids are untouched. */
  lemma EditEffect(roles: seq<UserRole>, files: seq<FileItem>, id: string, content: string, now: Timestamp)
    requires EditFileContentStep(roles, files, id, content, now).outcome == Ok
    ensures var r := EditFileContentStep(roles, files, id, content, now).files;
      Find(r, id).Some? && Find(r, id).value.content == Some(content) && Find(r, id).value.modified == now &&
      forall k :: 0 <= k < |files| && files[k].id != id ==> r[k] == files[k]
  {
    UpdateThenFind(files, id, SetContent(content, now));
  }

  /** `clearFileContent(id)`: folders are refused with no change. */
  function ClearFileContentStep(roles: seq<UserRole>, files: seq<FileItem>, id: string, now: Timestamp): (r: Step)
    ensures r.outcome == Ok || r.outcome == PermissionDenied || r.outcome == InvalidState
    ensures r.outcome == PermissionDenied <==> Find(files, id).None? || !CheckFileAccess(roles, id, Write)
    ensures r.outcome == InvalidState <==> r.outcome != PermissionDenied && Find(files, id).value.kind == Folder
    ensures r.outcome != Ok ==> r.files == files
    ensures r.outcome == Ok ==> SameShape(r.files, files)
  {
    if Find(files, id).None? || !CheckFileAccess(roles, id, Write) then Step(PermissionDenied, files)
    else if Find(files, id).value.kind == Folder then Step(InvalidState, files)
    else Step(Ok, UpdateWhere(files, id, SetContent("", now)))
  }

  /**
   * After a clear the file has empty content, which reads as no content at
   * all, stamped with the clock; other ids are untouched.
   */
  lemma ClearEffect(roles: seq<UserRole>, files: seq<FileItem>, id: string, now: Timestamp)
    requires ClearFileContentStep(roles, files, id, now).outcome == Ok
    ensures var r := ClearFileContentStep(roles, files, id, now).files;
      Find(r, id).Some? && Find(r, id).value.content == Some("") && !HasContent(Find(r, id).value) &&
      Find(r, id).value.kind != Folder && Find(r, id).value.modified == now &&
      Find(r, id).value == Find(files, id).value.(content := Some(""), modified := now) &&
      |r| == |files| && forall k :: 0 <= k < |files| && files[k].id != id ==> r[k] == files[k]
  {
    UpdateThenFind(files, id, SetContent("", now));
  }
}
