/**
 * The store behind `src/contexts/FileContext.tsx`: the list of records that
 * every hook updates with `setFiles`, and the static role table. Each
 * operation of the three operation hooks is a method that checks, changes
 * `files` (or not) and reports an `Outcome`; its contract ties the new
 * state to the transition function of the operation.
 */
module Store {
  import opened FileTypes
  import opened FileTree
  import opened FileOperations
  import opened AdvancedOperations
  import opened ContentOperations
  import Defaults
  import Encryption
  import LineSort
  import Text

  class FileStore {
    var files: seq<FileItem>
    const roles: seq<UserRole>

    /** The three invariants the operations keep. */
    ghost predicate Valid()
      reads this
    {
      UniqueIds(files) && Acyclic(files) && ParentsAreFolders(files)
    }

    /** A store holding the given records (the seed data or a saved list) under a role table. */
    constructor(roles: seq<UserRole>, files: seq<FileItem>)
      ensures this.roles == roles && this.files == files
    {
      this.roles := roles;
      this.files := files;
    }

    /** The store as the app first opens it: the seed records and the seed roles, which keep the invariants. */
    constructor Seeded(now: Timestamp)
      ensures roles == Defaults.DefaultRoles && files == Defaults.DefaultFiles(now)
      ensures Valid()
    {
      roles := Defaults.DefaultRoles;
      files := Defaults.DefaultFiles(now);
      Defaults.DefaultFilesWellFormed(now);
      Defaults.DefaultFilesAcyclic(now);
    }

    /** The gate loop of the batch operations: stops at the first refused id. */
    method CheckAll(ids: seq<string>, action: Action) returns (allowed: bool)
      ensures allowed == AllAllowed(roles, ids, action)
    {
      for k := 0 to |ids|
        invariant forall j :: 0 <= j < k ==> CheckFileAccess(roles, ids[j], action)
      {
        if !CheckFileAccess(roles, ids[k], action) {
          return false;
        }
      }
      return true;
    }

    /** `addFile(file)`. */
    method AddFile(file: FileItem, now: nat) returns (outcome: Outcome)
      modifies this
      ensures Step(outcome, files) == AddFileStep(roles, old(files), file, now)
      ensures (old(Valid()) && FreshClock(old(files), now) && file.parent != Some(ClockId(now)) &&
               ParentsAmong([file.(id := ClockId(now))], old(files))) ==> Valid()
    {
      if !CheckFileAccess(roles, CreateTarget(file.parent), Write) {
        return PermissionDenied;
      }
      if FreshClock(files, now) && file.parent != Some(ClockId(now)) {
        AddKeepsInvariants(roles, files, file, now);
      }
      files := files + [file.(id := ClockId(now))];
      return Ok;
    }

    /** `deleteFiles(ids)`. */
    method DeleteFiles(ids: seq<string>) returns (outcome: Outcome)
      modifies this
      ensures Step(outcome, files) == DeleteFilesStep(roles, old(files), ids)
      ensures old(Valid()) ==> Valid()
    {
      var allowed := CheckAll(ids, Delete);
      if !allowed {
        return PermissionDenied;
      }
      var all := DeletionIds(files, ids);
      if all.None? {
        return TransformFailure;
      }
      DeleteKeepsInvariants(roles, files, ids);
      files := WithoutIds(files, all.value);
      return Ok;
    }

    /** `renameFile(id, newName)`. */
    method RenameFile(id: string, newName: string) returns (outcome: Outcome)
      modifies this
      ensures Step(outcome, files) == RenameFileStep(roles, old(files), id, newName)
      ensures old(Valid()) ==> Valid()
    {
      if Find(files, id).None? || !CheckFileAccess(roles, id, Write) {
        return PermissionDenied;
      }
      UpdateKeepsInvariants(files, id, Rename(newName));
      files := UpdateWhere(files, id, Rename(newName));
      return Ok;
    }

    /** `editFileContent(id, content)`. */
    method EditFileContent(id: string, content: string, now: Timestamp) returns (outcome: Outcome)
      modifies this
      ensures Step(outcome, files) == EditFileContentStep(roles, old(files), id, content, now)
      ensures old(Valid()) ==> Valid()
    {
      if Find(files, id).None? || !CheckFileAccess(roles, id, Write) {
        return PermissionDenied;
      }
      UpdateKeepsInvariants(files, id, SetContent(content, now));
      files := UpdateWhere(files, id, SetContent(content, now));
      return Ok;
    }

    /** `clearFileContent(id)`. */
    method ClearFileContent(id: string, now: Timestamp) returns (outcome: Outcome)
      modifies this
      ensures Step(outcome, files) == ClearFileContentStep(roles, old(files), id, now)
      ensures old(Valid()) ==> Valid()
    {
      var file := Find(files, id);
      if file.None? || !CheckFileAccess(roles, id, Write) {
        return PermissionDenied;
      }
      if file.value.kind == Folder {
        return InvalidState;
      }
      UpdateKeepsInvariants(files, id, SetContent("", now));
      files := UpdateWhere(files, id, SetContent("", now));
      return Ok;
    }

    /** `moveFiles(ids, target)`. */
    method MoveFiles(ids: seq<string>, target: Option<string>) returns (outcome: Outcome)
      modifies this
      ensures Step(outcome, files) == MoveFilesStep(roles, old(files), ids, target)
    {
      var allowed := CheckAll(ids, Write);
      if !allowed {
        return PermissionDenied;
      }
      files := Moved(files, ids, target);
      return Ok;
    }

    /** `copyFiles(ids, target)`. */
    method CopyFiles(ids: seq<string>, target: Option<string>, now: nat) returns (outcome: Outcome)
      modifies this
      ensures Step(outcome, files) == CopyFilesStep(roles, old(files), ids, target, now)
      ensures (old(Valid()) && FreshTag(old(files), "-copy-", now) &&
               (target.Some? ==> exists g :: g in old(files) && g.id == target.value && g.kind == Folder)) ==> Valid()
    {
      var allowed := CheckAll(ids, Read);
      if !allowed {
        return PermissionDenied;
      }
      if FreshTag(files, "-copy-", now) && (target.Some? ==> exists g :: g in files && g.id == target.value && g.kind == Folder) {
        CopyKeepsInvariants(roles, files, ids, target, now);
      }
      files := files + Copies(Selected(files, ids), target, now);
      return Ok;
    }

    /** `encryptFile(id, password)`. */
    method EncryptFile(id: string, password: string, now: Timestamp) returns (outcome: Outcome)
      requires password != ""
      modifies this
      ensures Step(outcome, files) == EncryptFileStep(roles, old(files), id, password, now)
      ensures old(Valid()) ==> Valid()
    {
      var file := Find(files, id);
      if file.None? || !CheckFileAccess(roles, id, Encrypt) {
        return PermissionDenied;
      }
      if !HasContent(file.value) {
        return InvalidState;
      }
      var encrypted := Encryption.Encrypt(file.value.content.value, password);
      if encrypted.Failure? {
        return TransformFailure;
      }
      UpdateKeepsInvariants(files, id, SetCipher(encrypted.value, true, now));
      files := UpdateWhere(files, id, SetCipher(encrypted.value, true, now));
      return Ok;
    }

    /** `decryptFile(id, password)`. */
    method DecryptFile(id: string, password: string, now: Timestamp) returns (outcome: Outcome)
      requires password != ""
      modifies this
      ensures Step(outcome, files) == DecryptFileStep(roles, old(files), id, password, now)
      ensures old(Valid()) ==> Valid()
    {
      var file := Find(files, id);
      if file.None? || !CheckFileAccess(roles, id, Encrypt) {
        return PermissionDenied;
      }
      if !HasContent(file.value) || !file.value.isEncrypted {
        return InvalidState;
      }
      var decrypted := Encryption.Decrypt(file.value.content.value, password);
      if decrypted.Failure? {
        return TransformFailure;
      }
      UpdateKeepsInvariants(files, id, SetCipher(decrypted.value, false, now));
      files := UpdateWhere(files, id, SetCipher(decrypted.value, false, now));
      return Ok;
    }

    /** `changeFilePermissions(id, permissions)`. */
    method ChangeFilePermissions(id: string, permissions: string, now: Timestamp) returns (outcome: Outcome)
      modifies this
      ensures Step(outcome, files) == ChangeFilePermissionsStep(old(files), id, permissions, now)
      ensures old(Valid()) ==> Valid()
    {
      if Find(files, id).None? {
        return NotFound;
      }
      UpdateKeepsInvariants(files, id, SetPermissions(permissions, now));
      files := UpdateWhere(files, id, SetPermissions(permissions, now));
      return Ok;
    }

    /** `backupFile(id)`. */
    method BackupFile(id: string, now: nat) returns (outcome: Outcome)
      modifies this
      ensures Step(outcome, files) == BackupFileStep(roles, old(files), id, now)
      ensures old(Valid()) && FreshTag(old(files), "-backup-", now) ==> Valid()
    {
      var file := Find(files, id);
      if file.None? || !CheckFileAccess(roles, id, Read) {
        return PermissionDenied;
      }
      if FreshTag(files, "-backup-", now) {
        BackupKeepsInvariants(roles, files, id, now);
      }
      files := files + [BackupOf(file.value, now)];
      return Ok;
    }

    /** `compressFile(id)`. */
    method CompressFile(id: string, now: nat) returns (outcome: Outcome)
      modifies this
      ensures Step(outcome, files) == CompressFileStep(roles, old(files), id, now)
      ensures old(Valid()) && FreshTag(old(files), CompressedTag, now) ==> Valid()
    {
      var file := Find(files, id);
      if file.None? || !CheckFileAccess(roles, id, Write) {
        return PermissionDenied;
      }
      if !HasContent(file.value) || file.value.kind == Folder {
        return InvalidState;
      }
      if FreshTag(files, CompressedTag, now) {
        CompressKeepsInvariants(roles, files, id, now);
      }
      files := files + [CompressedOf(file.value, now)];
      return Ok;
    }

    /** `decompressFile(id)`, with the original looked up by the id as the program computes it. */
    method DecompressFile(id: string, now: nat) returns (outcome: Outcome)
      modifies this
      ensures Step(outcome, files) == DecompressFileStepAsWritten(roles, old(files), id, now)
      ensures old(Valid()) && FreshTag(old(files), "-decompressed-", now) ==> Valid()
    {
      var file := Find(files, id);
      if file.None? || !CheckFileAccess(roles, id, Write) {
        return PermissionDenied;
      }
      if file.value.kind != Archive {
        return InvalidState;
      }
      if FreshTag(files, "-decompressed-", now) {
        DecompressKeepsInvariants(roles, files, id, now, LookupAsWritten(id));
      }
      files := files + [DecompressedOf(file.value, RecoveredKind(files, LookupAsWritten(id)), now)];
      return Ok;
    }

    /** `sortFileContent(id)`: the lines go through an array sorted in place. */
    method SortFileContent(id: string, now: Timestamp) returns (outcome: Outcome)
      modifies this
      ensures Step(outcome, files) == SortFileContentStep(roles, old(files), id, now)
      ensures old(Valid()) ==> Valid()
    {
      var file := Find(files, id);
      if file.None? || !CheckFileAccess(roles, id, Write) {
        return PermissionDenied;
      }
      if !HasContent(file.value) || file.value.kind == Folder {
        return InvalidState;
      }
      var lines := Text.Split(file.value.content.value);
      var buffer := new string[|lines|](k requires 0 <= k < |lines| => lines[k]);
      assert buffer[..] == lines;
      LineSort.SortLines(buffer);
      var sorted := Text.Join(buffer[..]);
      UpdateKeepsInvariants(files, id, SetContent(sorted, now));
      files := UpdateWhere(files, id, SetContent(sorted, now));
      return Ok;
    }

    /** `searchFileContent(id, term)`: reads the store and changes nothing. */
    method SearchFileContent(id: string, term: string) returns (results: seq<string>)
      ensures results == ContentOperations.SearchFileContent(roles, files, id, term)
    {
      var file := Find(files, id);
      if file.None? || !CheckFileAccess(roles, id, Read) || !HasContent(file.value) {
        return [];
      }
      results := SearchLines(Text.Split(file.value.content.value), term);
    }
  }
}
