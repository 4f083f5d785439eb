/**
 * The operations of `src/hooks/useAdvancedFileOperations.ts` as pure
 * transitions: move, copy, encrypt, decrypt, change permissions and backup.
 * `Date.now()` and `new Date()` are the clock reading `now`; ids built from
 * it are assumed fresh where a lemma needs them to be.
 */
module AdvancedOperations {
  import opened FileTypes
  import opened FileTree
  import opened FileOperations
  import Base64
  import Encryption
  import Defaults

  // ---------------------------------------------------------------------
  // Move

  /** `files.map(f => ids.includes(f.id) ? { ...f, parent: target } : f)`. */
  function Moved(files: seq<FileItem>, ids: seq<string>, target: Option<string>): (r: seq<FileItem>)
    ensures |r| == |files|
    ensures forall k :: 0 <= k < |files| ==> r[k].id == files[k].id && r[k].kind == files[k].kind
    ensures forall k :: 0 <= k < |files| && files[k].id in ids ==> r[k] == files[k].(parent := target)
    ensures forall k :: 0 <= k < |files| && files[k].id !in ids ==> r[k] == files[k]
  {
    seq(|files|, k requires 0 <= k < |files| => if files[k].id in ids then files[k].(parent := target) else files[k])
  }

  /** `moveFiles(ids, target)`: every id must pass the write gate; the clock is not touched. */
  function MoveFilesStep(roles: seq<UserRole>, files: seq<FileItem>, ids: seq<string>, target: Option<string>): (r: Step)
    ensures r.outcome == Ok || r.outcome == PermissionDenied
    ensures r.outcome == PermissionDenied <==> !AllAllowed(roles, ids, Write)
    ensures r.outcome == PermissionDenied ==> r.files == files
    ensures r.outcome == Ok ==> |r.files| == |files| && Ids(r.files) == Ids(files)
    ensures r.outcome == Ok ==> r.files == Moved(files, ids, target)
  {
    if !AllAllowed(roles, ids, Write) then Step(PermissionDenied, files)
    else Step(Ok, Moved(files, ids, target))
  }

  /** A move keeps the ids unique and, into a stored folder or the top, keeps every parent a folder. */
  lemma MoveKeepsIdsAndFolders(files: seq<FileItem>, ids: seq<string>, target: Option<string>)
    ensures UniqueIds(files) ==> UniqueIds(Moved(files, ids, target))
    ensures ParentsAreFolders(files) && (target.None? || exists g :: g in files && g.id == target.value && g.kind == Folder)
      ==> ParentsAreFolders(Moved(files, ids, target))
  {
    var r := Moved(files, ids, target);
    if ParentsAreFolders(files) && (target.None? || exists g :: g in files && g.id == target.value && g.kind == Folder) {
      forall f | f in r && f.parent.Some?
        ensures exists h :: h in r && h.id == f.parent.value && h.kind == Folder
      {
        var k :| 0 <= k < |r| && r[k] == f;
        var g :| g in files && g.id == f.parent.value && g.kind == Folder;
        var j :| 0 <= j < |files| && files[j] == g;
        assert r[j] in r;
      }
    }
  }

  /**
   * Moving a set of records under a folder that is none of them and lies
   * below none of them keeps the store acyclic.
   */
  lemma MoveKeepsAcyclic(files: seq<FileItem>, ids: seq<string>, target: Option<string>)
    requires Acyclic(files)
    requires target.Some? ==> !Doomed(files, ids, target.value)
    ensures Acyclic(Moved(files, ids, target))
  {
    var r := Moved(files, ids, target);
    forall p: string, c: seq<FileItem> | IsChain(r, p, c) && |c| > 0
      ensures c[|c| - 1].id != p
    {
      if c[|c| - 1].id == p {
        if forall k :: 0 <= k < |c| ==> c[k].id !in ids {
          UnmovedChain(files, ids, target, p, c);
        } else {
          var k :| 0 <= k < |c| && c[k].id in ids;
          var i := FirstIn(c, ids, k);
          var j := LastIn(c, ids, k);
          MovedCycleReachesTarget(files, ids, target, p, c, i, j);
        }
      }
    }
  }

  /** The record of `r` at a position: either unchanged or the moved copy of the record there. */
  lemma MovedRecord(files: seq<FileItem>, ids: seq<string>, target: Option<string>, f: FileItem)
    requires f in Moved(files, ids, target)
    ensures f.id !in ids ==> f in files
    ensures f.id in ids ==> f.parent == target
  {
  }

  /**
   * A cycle after a move through moved records `c[i]` (the first) and `c[j]`
   * (the last): walking down from `c[j]` round the cycle to the record above
   * `c[i]` uses only unmoved records, so the target lies at or below a moved
   * record of the original store.
   */
  lemma MovedCycleReachesTarget(files: seq<FileItem>, ids: seq<string>, target: Option<string>, p: string, c: seq<FileItem>, i: nat, j: nat)
    requires IsChain(Moved(files, ids, target), p, c) && |c| > 0 && c[|c| - 1].id == p
    requires i <= j < |c| && c[i].id in ids && c[j].id in ids
    requires forall m :: 0 <= m < i ==> c[m].id !in ids
    requires forall m :: j < m < |c| ==> c[m].id !in ids
    ensures target.Some? && Doomed(files, ids, target.value)
  {
    var e := MovedCycleChain(files, ids, target, p, c, i, j);
    TargetDoomed(files, ids, c[j].id, e, target.value);
  }

  /** The cycle, read from the last moved record round to the first, is a chain of the original store ending at the target. */
  lemma MovedCycleChain(files: seq<FileItem>, ids: seq<string>, target: Option<string>, p: string, c: seq<FileItem>, i: nat, j: nat)
    returns (e: seq<FileItem>)
    requires IsChain(Moved(files, ids, target), p, c) && |c| > 0 && c[|c| - 1].id == p
    requires i <= j < |c| && c[i].id in ids && c[j].id in ids
    requires forall m :: 0 <= m < i ==> c[m].id !in ids
    requires forall m :: j < m < |c| ==> c[m].id !in ids
    ensures target.Some? && IsChain(files, c[j].id, e) && Above(c[j].id, e, |e|) == target.value
  {
    var r := Moved(files, ids, target);
    ChainMembers(r, p, c, i);
    MovedRecord(files, ids, target, c[i]);
    ChainLink(r, p, c, i);
    var below := c[j + 1..];
    var above := c[..i];
    ChainSuffix(r, p, c, j + 1);
    UnmovedChain(files, ids, target, c[j].id, below);
    ChainPrefix(r, p, c, i);
    UnmovedChain(files, ids, target, p, above);
    assert Above(c[j].id, below, |below|) == p;
    ChainConcat(files, c[j].id, below, above);
    e := below + above;
    if |above| > 0 {
      assert e[|e| - 1] == c[i - 1];
    }
  }

  /** The end of a chain that starts at a listed id is doomed. */
  lemma TargetDoomed(files: seq<FileItem>, ids: seq<string>, x: string, e: seq<FileItem>, t: string)
    requires x in ids && IsChain(files, x, e) && Above(x, e, |e|) == t
    ensures Doomed(files, ids, t)
  {
    if |e| > 0 {
      assert Descends(files, x, e[|e| - 1]);
      DoomedBelow(files, ids, x, e[|e| - 1]);
    }
  }

  /** A doomed record's descendants: a chain from an id in the list reaches a doomed id. */
  lemma DoomedBelow(files: seq<FileItem>, ids: seq<string>, x: string, g: FileItem)
    requires x in ids && Descends(files, x, g)
    ensures Doomed(files, ids, g.id)
  {
    var k :| 0 <= k < |ids| && ids[k] == x;
    assert Descends(files, ids[k], g);
  }

  /** A chain through records no move touched is a chain of the original store. */
  lemma UnmovedChain(files: seq<FileItem>, ids: seq<string>, target: Option<string>, p: string, c: seq<FileItem>)
    requires IsChain(Moved(files, ids, target), p, c)
    requires forall k :: 0 <= k < |c| ==> c[k].id !in ids
    ensures IsChain(files, p, c)
  {
    var r := Moved(files, ids, target);
    forall k | 0 <= k < |c|
      ensures c[k] in files
    {
      ChainMembers(r, p, c, k);
      MovedRecord(files, ids, target, c[k]);
    }
    ChainElsewhere(r, files, p, c);
  }

  /** The first position of a chain holding a moved id, found by stepping back from any such position. */
  lemma {:induction false} FirstIn(c: seq<FileItem>, ids: seq<string>, k: nat) returns (i: nat)
    requires k < |c| && c[k].id in ids
    ensures i <= k && c[i].id in ids && forall m :: 0 <= m < i ==> c[m].id !in ids
    decreases k
  {
    if forall m :: 0 <= m < k ==> c[m].id !in ids {
      i := k;
    } else {
      var j :| 0 <= j < k && c[j].id in ids;
      i := FirstIn(c, ids, j);
    }
  }

  /** The last position of a chain holding a moved id, found by stepping on from any such position. */
  lemma {:induction false} LastIn(c: seq<FileItem>, ids: seq<string>, k: nat) returns (j: nat)
    requires k < |c| && c[k].id in ids
    ensures k <= j < |c| && c[j].id in ids && forall m :: j < m < |c| ==> c[m].id !in ids
    decreases |c| - k
  {
    if forall m :: k < m < |c| ==> c[m].id !in ids {
      j := k;
    } else {
      var n :| k < n < |c| && c[n].id in ids;
      j := LastIn(c, ids, n);
    }
  }

  /**
   * Moving the root folder into its own child `documents` (which the write
   * gate allows) leaves a cycle, and deleting the root afterwards fails.
   */
  lemma MoveIntoChildMakesCycle(now: Timestamp)
    ensures !Acyclic(Moved(Defaults.DefaultFiles(now), ["root"], Some("documents")))
    ensures MoveFilesStep(Defaults.DefaultRoles, Defaults.DefaultFiles(now), ["root"], Some("documents")).outcome == Ok
    ensures var r := Moved(Defaults.DefaultFiles(now), ["root"], Some("documents"));
      DeleteFilesStep(Defaults.DefaultRoles, r, ["root"]) == Step(TransformFailure, r)
  {
    var files := Defaults.DefaultFiles(now);
    var r := Moved(files, ["root"], Some("documents"));
    Defaults.DefaultGateGrantsAll("root", Write);
    Defaults.DefaultGateGrantsAll("root", Delete);
    var c := [r[1], r[0]];
    assert r[1].parent == Some("root") && r[0].parent == Some("documents");
    assert IsChain(r, "root", c) by {
      assert IsChain(r, "documents", [r[0]]);
    }
    assert c[|c| - 1].id == "root";
    DeleteFailsOnCycle(Defaults.DefaultRoles, r, ["root"], 0, c);
  }

  // ---------------------------------------------------------------------
  // Copy

  /** `files.filter(f => ids.includes(f.id))`. */
  function Selected(files: seq<FileItem>, ids: seq<string>): (r: seq<FileItem>)
    ensures forall f :: f in r <==> f in files && f.id in ids
    ensures SubsequenceOf(r, files)
  {
    WithoutIds(files, Ids(WithoutIds(files, ids)))
  }

  /** One copy: a suffixed id and name, the target parent and the clock; content and kind are kept. */
  function CopyOf(f: FileItem, target: Option<string>, now: nat): (c: FileItem)
    ensures c.id == f.id + "-copy-" + ClockId(now) && c.name == f.name + " (copy)"
    ensures c.parent == target && c.modified == now
    ensures c.(id := f.id, name := f.name, parent := f.parent, modified := f.modified) == f
  {
    f.(id := f.id + "-copy-" + ClockId(now), name := f.name + " (copy)", parent := target, modified := now)
  }

  function Copies(sel: seq<FileItem>, target: Option<string>, now: nat): (r: seq<FileItem>)
    ensures |r| == |sel|
    ensures forall k :: 0 <= k < |sel| ==> r[k] == CopyOf(sel[k], target, now)
  {
    seq(|sel|, k requires 0 <= k < |sel| => CopyOf(sel[k], target, now))
  }

  /** `copyFiles(ids, target)`: every id must pass the read gate; copies of the selected records go at the end. */
  function CopyFilesStep(roles: seq<UserRole>, files: seq<FileItem>, ids: seq<string>, target: Option<string>, now: nat): (r: Step)
    ensures r.outcome == Ok || r.outcome == PermissionDenied
    ensures r.outcome == PermissionDenied <==> !AllAllowed(roles, ids, Read)
    ensures r.outcome == PermissionDenied ==> r.files == files
    ensures r.outcome == Ok ==> |r.files| >= |files| && r.files[..|files|] == files
    ensures r.outcome == Ok ==> r.files[|files|..] == Copies(Selected(files, ids), target, now)
  {
    if !AllAllowed(roles, ids, Read) then Step(PermissionDenied, files)
    else Step(Ok, files + Copies(Selected(files, ids), target, now))
  }

  /**
   * The records a copy adds are exactly one copy of each selected record;
   * a folder is copied without its contents.
   */
  lemma CopyAddsOneCopyEach(roles: seq<UserRole>, files: seq<FileItem>, ids: seq<string>, target: Option<string>, now: nat)
    requires CopyFilesStep(roles, files, ids, target, now).outcome == Ok
    ensures var r := CopyFilesStep(roles, files, ids, target, now).files;
      forall g :: g in r[|files|..] <==> exists f :: f in files && f.id in ids && g == CopyOf(f, target, now)
    ensures var r := CopyFilesStep(roles, files, ids, target, now).files;
      var sel := Selected(files, ids);
      |r| == |files| + |sel| &&
      forall k :: 0 <= k < |sel| ==> r[|files| + k] == CopyOf(sel[k], target, now)
  {
    var sel := Selected(files, ids);
    var r := CopyFilesStep(roles, files, ids, target, now).files;
    assert r[|files|..] == Copies(sel, target, now);
    forall g | exists f :: f in files && f.id in ids && g == CopyOf(f, target, now)
      ensures g in r[|files|..]
    {
      var f :| f in files && f.id in ids && g == CopyOf(f, target, now);
      var k :| 0 <= k < |sel| && sel[k] == f;
      assert Copies(sel, target, now)[k] == g;
    }
  }

  /** Appending one fixed suffix to two ids keeps them apart. */
  lemma SuffixInjective(a: string, b: string, tag: string)
    requires a + tag == b + tag
    ensures a == b
  {
    assert a == (a + tag)[..|a|];
    assert |a| == |b|;
    assert b == (b + tag)[..|b|];
  }

  /** Copies of records of the store carry ids no record has, and nothing hangs below them. */
  lemma CopiesAreLeaves(files: seq<FileItem>, sel: seq<FileItem>, target: Option<string>, now: nat)
    requires FreshTag(files, "-copy-", now)
    requires forall f :: f in sel ==> f in files
    requires target.Some? ==> exists g :: g in files && g.id == target.value
    ensures var extra := Copies(sel, target, now);
      (forall g, f :: g in extra && f in files ==> g.id != f.id) &&
      (forall g, h :: g in extra && h in files + extra ==> h.parent != Some(g.id))
  {
    var extra := Copies(sel, target, now);
    forall g | g in extra
      ensures (forall f :: f in files ==> g.id != f.id && f.parent != Some(g.id)) && target != Some(g.id)
    {
      var k :| 0 <= k < |extra| && extra[k] == g;
      CopyIsLeaf(files, sel, target, now, k);
    }
    forall h | h in extra
      ensures h.parent == target
    {
      var m :| 0 <= m < |extra| && extra[m] == h;
    }
    forall h | h in files + extra
      ensures h in files || h in extra
    {
    }
  }

  /** One copy: its id is taken by no record, no record hangs below it, and the target is not it. */
  lemma CopyIsLeaf(files: seq<FileItem>, sel: seq<FileItem>, target: Option<string>, now: nat, k: nat)
    requires FreshTag(files, "-copy-", now)
    requires forall f :: f in sel ==> f in files
    requires target.Some? ==> exists g :: g in files && g.id == target.value
    requires k < |sel|
    ensures var c := CopyOf(sel[k], target, now);
      (forall f :: f in files ==> c.id != f.id && f.parent != Some(c.id)) && target != Some(c.id)
  {
    assert sel[k] in files;
    if target.Some? {
      var t :| t in files && t.id == target.value;
    }
  }

  /** Copies of records with distinct ids have distinct ids. */
  lemma CopiesUnique(sel: seq<FileItem>, target: Option<string>, now: nat)
    requires UniqueIds(sel)
    ensures UniqueIds(Copies(sel, target, now))
  {
    var extra := Copies(sel, target, now);
    forall i, j | 0 <= i < j < |extra|
      ensures extra[i].id != extra[j].id
    {
      if extra[i].id == extra[j].id {
        SuffixInjective(sel[i].id + "-copy-", sel[j].id + "-copy-", ClockId(now));
        SuffixInjective(sel[i].id, sel[j].id, "-copy-");
      }
    }
  }

  /**
   * With fresh copy ids and a target that is a stored folder (or the top),
   * a copy keeps the three store invariants.
   */
  lemma CopyKeepsInvariants(roles: seq<UserRole>, files: seq<FileItem>, ids: seq<string>, target: Option<string>, now: nat)
    requires FreshTag(files, "-copy-", now)
    requires target.Some? ==> exists g :: g in files && g.id == target.value && g.kind == Folder
    ensures var r := CopyFilesStep(roles, files, ids, target, now).files;
      (UniqueIds(files) ==> UniqueIds(r)) && (Acyclic(files) ==> Acyclic(r)) &&
      (ParentsAreFolders(files) ==> ParentsAreFolders(r))
  {
    if AllAllowed(roles, ids, Read) {
      var sel := Selected(files, ids);
      var extra := Copies(sel, target, now);
      SubsequenceMembers(sel, files);
      CopiesAreLeaves(files, sel, target, now);
      if UniqueIds(files) {
        UniqueSubsequence(sel, files);
        CopiesUnique(sel, target, now);
      }
      assert ParentsAmong(extra, files);
      AppendLeaves(files, extra);
    }
  }

  // ---------------------------------------------------------------------
  // Encrypt and decrypt

  /**
   * `encryptFile(id, password)`. A missing file and a refused gate are both
   * reported as a denial; a file without content is refused; an `encrypt`
   * that throws leaves the store as it was. The password is non-empty: an
   * empty one never gets past the dialog, and `createKey` would not stop.
   */
  function EncryptFileStep(roles: seq<UserRole>, files: seq<FileItem>, id: string, password: string, now: Timestamp): (r: Step)
    requires password != ""
    ensures r.outcome == PermissionDenied <==> Find(files, id).None? || !CheckFileAccess(roles, id, Encrypt)
    ensures r.outcome == InvalidState <==> r.outcome != PermissionDenied && !HasContent(Find(files, id).value)
    ensures r.outcome != Ok ==> r.files == files
    ensures r.outcome == Ok ==> SameShape(r.files, files)
    ensures r.outcome != NotFound
  {
    match Find(files, id)
    case None => Step(PermissionDenied, files)
    case Some(f) =>
      if !CheckFileAccess(roles, id, Encrypt) then Step(PermissionDenied, files)
      else if !HasContent(f) then Step(InvalidState, files)
      else
        match Encryption.Encrypted(f.content.value, password)
        case Failure(_) => Step(TransformFailure, files)
        case Success(e) => Step(Ok, UpdateWhere(files, id, SetCipher(e, true, now)))
  }

  /** `decryptFile(id, password)`: a file without content or not marked encrypted is refused. */
  function DecryptFileStep(roles: seq<UserRole>, files: seq<FileItem>, id: string, password: string, now: Timestamp): (r: Step)
    requires password != ""
    ensures r.outcome == PermissionDenied <==> Find(files, id).None? || !CheckFileAccess(roles, id, Encrypt)
    ensures r.outcome == InvalidState <==>
      r.outcome != PermissionDenied && !(HasContent(Find(files, id).value) && Find(files, id).value.isEncrypted)
    ensures r.outcome != Ok ==> r.files == files
    ensures r.outcome == Ok ==> SameShape(r.files, files)
    ensures r.outcome != NotFound
  {
    match Find(files, id)
    case None => Step(PermissionDenied, files)
    case Some(f) =>
      if !CheckFileAccess(roles, id, Encrypt) then Step(PermissionDenied, files)
      else if !HasContent(f) || !f.isEncrypted then Step(InvalidState, files)
      else
        match Encryption.Decrypted(f.content.value, password)
        case Failure(_) => Step(TransformFailure, files)
        case Success(d) => Step(Ok, UpdateWhere(files, id, SetCipher(d, false, now)))
  }

  /** An encrypted file is marked as such and holds Base64 text. */
  lemma EncryptMarksFile(roles: seq<UserRole>, files: seq<FileItem>, id: string, password: string, now: Timestamp)
    requires password != ""
    requires EncryptFileStep(roles, files, id, password, now).outcome == Ok
    ensures var r := EncryptFileStep(roles, files, id, password, now).files;
      Find(r, id).Some? && Find(r, id).value.isEncrypted && HasContent(Find(r, id).value) &&
      Find(r, id).value.modified == now &&
      Base64.Decode(Find(r, id).value.content.value).Some?
  {
    var f := Find(files, id).value;
    var e := Encryption.Encrypted(f.content.value, password).value;
    Encryption.EncryptIsBase64(f.content.value, password);
    Encryption.DecryptEncrypt(f.content.value, password);
    UpdateThenFind(files, id, SetCipher(e, true, now));
  }

  /**
   * Encrypting a file and then decrypting it with the same password gives
   * back its content, marked as not encrypted.
   */
  lemma DecryptAfterEncrypt(roles: seq<UserRole>, files: seq<FileItem>, id: string, password: string, t1: Timestamp, t2: Timestamp)
    requires password != ""
    requires EncryptFileStep(roles, files, id, password, t1).outcome == Ok
    ensures var mid := EncryptFileStep(roles, files, id, password, t1).files;
      var r := DecryptFileStep(roles, mid, id, password, t2);
      r.outcome == Ok && Find(r.files, id).Some? &&
      Find(r.files, id).value.content == Find(files, id).value.content &&
      !Find(r.files, id).value.isEncrypted
  {
    var f := Find(files, id).value;
    var e := Encryption.Encrypted(f.content.value, password).value;
    var mid := UpdateWhere(files, id, SetCipher(e, true, t1));
    assert EncryptFileStep(roles, files, id, password, t1).files == mid;
    EncryptMarksFile(roles, files, id, password, t1);
    UpdateThenFind(files, id, SetCipher(e, true, t1));
    var g := Find(mid, id).value;
    assert g.content == Some(e);
    Encryption.DecryptEncrypt(f.content.value, password);
    DecryptStepOk(roles, mid, id, password, t2);
    UpdateThenFind(mid, id, SetCipher(f.content.value, false, t2));
  }

  /** A successful decryption writes the decrypted text into the record. */
  lemma DecryptStepOk(roles: seq<UserRole>, files: seq<FileItem>, id: string, password: string, now: Timestamp)
    requires password != ""
    requires Find(files, id).Some? && CheckFileAccess(roles, id, Encrypt)
    requires HasContent(Find(files, id).value) && Find(files, id).value.isEncrypted
    requires Encryption.Decrypted(Find(files, id).value.content.value, password).Success?
    ensures DecryptFileStep(roles, files, id, password, now) ==
      Step(Ok, UpdateWhere(files, id, SetCipher(Encryption.Decrypted(Find(files, id).value.content.value, password).value, false, now)))
  {
  }

  // ---------------------------------------------------------------------
  // Permissions and backup

  /** `changeFilePermissions(id, permissions)`: no gate at all; only a missing file is refused. */
  function ChangeFilePermissionsStep(files: seq<FileItem>, id: string, permissions: string, now: Timestamp): (r: Step)
    ensures r.outcome == Ok || r.outcome == NotFound
    ensures r.outcome == NotFound <==> Find(files, id).None?
    ensures r.outcome == NotFound ==> r.files == files
    ensures r.outcome == Ok ==> SameShape(r.files, files)
  {
    if Find(files, id).None? then Step(NotFound, files)
    else Step(Ok, UpdateWhere(files, id, SetPermissions(permissions, now)))
  }

  /** After a permission change the file carries the new string; content and flags are untouched. */
  lemma PermissionsEffect(files: seq<FileItem>, id: string, permissions: string, now: Timestamp)
    requires ChangeFilePermissionsStep(files, id, permissions, now).outcome == Ok
    ensures var r := ChangeFilePermissionsStep(files, id, permissions, now).files;
      var old_ := Find(files, id).value;
      Find(r, id) == Some(old_.(permissions := Some(permissions), modified := now))
  {
    UpdateThenFind(files, id, SetPermissions(permissions, now));
  }

  /** The backup record: a suffixed id, `.bak` appended to the name, the same parent and the clock. */
  function BackupOf(f: FileItem, now: nat): (b: FileItem)
    ensures b.id == f.id + "-backup-" + ClockId(now) && b.name == f.name + ".bak"
    ensures b.parent == f.parent && b.modified == now
    ensures b.(id := f.id, name := f.name, modified := f.modified) == f
  {
    f.(id := f.id + "-backup-" + ClockId(now), name := f.name + ".bak", modified := now)
  }

  /** `backupFile(id)`: a missing file and a refused read are both reported as a denial. */
  function BackupFileStep(roles: seq<UserRole>, files: seq<FileItem>, id: string, now: nat): (r: Step)
    ensures r.outcome == Ok || r.outcome == PermissionDenied
    ensures r.outcome == Ok <==> Find(files, id).Some? && CheckFileAccess(roles, id, Read)
    ensures r.outcome == PermissionDenied ==> r.files == files
    ensures r.outcome == Ok ==>
      |r.files| == |files| + 1 && r.files[..|files|] == files &&
      r.files[|files|] == BackupOf(Find(files, id).value, now)
  {
    match Find(files, id)
    case None => Step(PermissionDenied, files)
    case Some(f) =>
      if !CheckFileAccess(roles, id, Read) then Step(PermissionDenied, files)
      else Step(Ok, files + [BackupOf(f, now)])
  }

  /** With a fresh backup id a backup keeps the three store invariants. */
  lemma BackupKeepsInvariants(roles: seq<UserRole>, files: seq<FileItem>, id: string, now: nat)
    requires FreshTag(files, "-backup-", now)
    ensures var r := BackupFileStep(roles, files, id, now).files;
      (UniqueIds(files) ==> UniqueIds(r)) && (Acyclic(files) ==> Acyclic(r)) &&
      (ParentsAreFolders(files) ==> ParentsAreFolders(r))
  {
    if BackupFileStep(roles, files, id, now).outcome == Ok {
      var f := Find(files, id).value;
      BackupIsLeaf(files, f, now);
      AppendLeaves(files, [BackupOf(f, now)]);
    }
  }

  /** A backup of a stored record takes a fresh id, nothing hangs below it, and it hangs where the record does. */
  lemma BackupIsLeaf(files: seq<FileItem>, f: FileItem, now: nat)
    requires FreshTag(files, "-backup-", now) && f in files
    ensures var b := BackupOf(f, now);
      (forall g, h :: g in [b] && h in files ==> g.id != h.id) &&
      (forall g, h :: g in [b] && h in files + [b] ==> h.parent != Some(g.id)) &&
      (ParentsAreFolders(files) ==> ParentsAmong([b], files))
  {
    var b := BackupOf(f, now);
    assert forall h :: h in files + [b] ==> h in files || h == b;
    if f.parent.Some? {
      assert f.parent != Some(b.id);
    }
  }
}
