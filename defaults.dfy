/**
 * The seed data of `src/constants/file-constants.ts`: the six records the
 * store starts with and the three roles of the static role table. Every
 * seed record is stamped with the same clock reading `now`.
 */
module Defaults {
  import opened FileTypes
  import opened FileTree
  import FileOperations

  /** A seed record: only id, name, kind, size, content and parent are set. */
  function Seed(id: string, name: string, kind: FileKind, size: nat, content: Option<string>, parent: Option<string>, now: Timestamp): (f: FileItem)
    ensures f.id == id && f.name == name && f.kind == kind && f.size == size && f.content == content && f.parent == parent
    ensures f.modified == now && !f.isEncrypted && f.permissions.None? && f.owner.None? && f.version.None?
  {
    FileItem(id, name, kind, size, now, content, parent, false, None, None, None, None)
  }

  const ReadmeText: string := "# File Forge Guardian\n\nA secure file management system"

  /** `DEFAULT_FILES`. */
  function DefaultFiles(now: Timestamp): (r: seq<FileItem>)
    ensures |r| == 6
  {
    [ Seed("root", "Root", Folder, 0, None, None, now),
      Seed("documents", "Documents", Folder, 0, None, Some("root"), now),
      Seed("images", "Images", Folder, 0, None, Some("root"), now),
      Seed("readme", "README.md", Document, 1024, Some(ReadmeText), Some("root"), now),
      Seed("profile", "profile.jpg", Image, 5242880, None, Some("images"), now),
      Seed("report", "Annual Report.pdf", Pdf, 3145728, None, Some("documents"), now) ]
  }

  /** `DEFAULT_ROLES`. */
  const DefaultRoles: seq<UserRole> := [
    UserRole("admin", "Administrator", Permissions(true, true, true, true)),
    UserRole("editor", "Editor", Permissions(true, true, false, false)),
    UserRole("viewer", "Viewer", Permissions(true, false, false, false))
  ]

  /** The seed store has unique ids and every parent is a stored folder. */
  lemma DefaultFilesWellFormed(now: Timestamp)
    ensures UniqueIds(DefaultFiles(now))
    ensures ParentsAreFolders(DefaultFiles(now))
  {
    DefaultIdsDistinct(now);
    DefaultParentsAreFolders(now);
  }

  lemma DefaultIdsDistinct(now: Timestamp)
    ensures UniqueIds(DefaultFiles(now))
  {
    var r := DefaultFiles(now);
    assert Ids(r) == ["root", "documents", "images", "readme", "profile", "report"];
  }

  lemma DefaultParentsAreFolders(now: Timestamp)
    ensures ParentsAreFolders(DefaultFiles(now))
  {
    var r := DefaultFiles(now);
    forall f | f in r && f.parent.Some?
      ensures exists g :: g in r && g.id == f.parent.value && g.kind == Folder
    {
      var k :| 0 <= k < |r| && r[k] == f;
      if k == 4 {
        assert r[2] in r;
      } else if k == 5 {
        assert r[1] in r;
      } else {
        assert r[0] in r;
      }
    }
  }

  /** The seed store has no cycle: root, then the top-level entries, then the files below the two folders. */
  lemma DefaultFilesAcyclic(now: Timestamp)
    ensures Acyclic(DefaultFiles(now))
  {
    var r := DefaultFiles(now);
    var rank := map["root" := 0, "documents" := 1, "images" := 1, "readme" := 1, "profile" := 2, "report" := 2];
    forall f | f in r
      ensures f.id in rank
      ensures f.parent.Some? && f.parent.value in rank ==> rank[f.parent.value] < rank[f.id]
    {
      var k :| 0 <= k < |r| && r[k] == f;
      if k == 0 {
      } else if k <= 3 {
        assert f.parent == Some("root");
      } else if k == 4 {
        assert f.parent == Some("images") && f.id == "profile";
      } else {
        assert f.parent == Some("documents") && f.id == "report";
      }
    }
    RankedAcyclic(r, rank);
  }

  /** The only record without a parent is the root folder, and it is a folder. */
  lemma DefaultRootIsTheTop(now: Timestamp)
    ensures forall f :: f in DefaultFiles(now) ==> (f.parent.None? <==> f.id == "root")
    ensures Find(DefaultFiles(now), "root") == Some(DefaultFiles(now)[0]) && DefaultFiles(now)[0].kind == Folder
  {
    var r := DefaultFiles(now);
    assert r[0].id == "root";
  }

  /** Folders are empty and sized zero; the README is the only record with content. */
  lemma DefaultContents(now: Timestamp)
    ensures forall f :: f in DefaultFiles(now) && f.kind == Folder ==> f.size == 0 && f.content.None?
    ensures forall f :: f in DefaultFiles(now) ==> (HasContent(f) <==> f.id == "readme")
    ensures forall f :: f in DefaultFiles(now) ==> !f.isEncrypted
  {
    var r := DefaultFiles(now);
    forall f | f in r
      ensures f.kind == Folder ==> f.size == 0 && f.content.None?
      ensures HasContent(f) <==> f.id == "readme"
    {
      var k :| 0 <= k < |r| && r[k] == f;
      if k == 3 {
        assert ReadmeText != "";
      }
    }
  }

  /** The gate reads the administrator's row, which grants every action on every file. */
  lemma DefaultGateGrantsAll(fileId: string, action: Action)
    ensures FileOperations.CheckFileAccess(DefaultRoles, fileId, action)
  {
    assert DefaultRoles[0].id == "admin";
  }

  /** The editor may read and write only; the viewer may only read. */
  lemma DefaultRoleFlags(action: Action)
    ensures Grants(DefaultRoles[1].permissions, action) <==> action == Read || action == Write
    ensures Grants(DefaultRoles[2].permissions, action) <==> action == Read
  {
  }
}
