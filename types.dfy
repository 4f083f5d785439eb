/**
 * The records of the virtual file store: a file or folder entry (`FileItem`),
 * the four gated actions and the static role table entries (`UserRole`),
 * plus the outcome every store operation reports instead of a toast.
 */
module FileTypes {

  datatype Option<+T> = None | Some(value: T)

  datatype Result<+T, +E> = Success(value: T) | Failure(error: E)

  /** The kind of a record (`type` in the source, a reserved word here). */
  datatype FileKind = Folder | Document | Image | Video | Audio | Archive | Code | Pdf | Unknown

  /** An opaque clock reading (the source's `Date`). */
  type Timestamp = int

  /**
   * One entry of the store. Optional fields of the source are `Option`s;
   * `isEncrypted` is a plain flag because an absent flag reads as false
   * everywhere in the core. `parent == None` is the source's `null`.
   */
  datatype FileItem = FileItem(
    id: string,
    name: string,
    kind: FileKind,
    size: nat,
    modified: Timestamp,
    content: Option<string>,
    parent: Option<string>,
    isEncrypted: bool,
    permissions: Option<string>,
    owner: Option<string>,
    lastAccessedBy: Option<string>,
    version: Option<int>)

  datatype Action = Read | Write | Delete | Encrypt

  datatype Permissions = Permissions(read: bool, write: bool, delete: bool, encrypt: bool)

  datatype UserRole = UserRole(id: string, name: string, permissions: Permissions)

  /** What an operation reports; every outcome but `Ok` leaves the store unchanged. */
  datatype Outcome = Ok | PermissionDenied | NotFound | InvalidState | TransformFailure

  /** The permission flag of a role for one action. */
  function Grants(p: Permissions, action: Action): bool
  {
    match action
    case Read => p.read
    case Write => p.write
    case Delete => p.delete
    case Encrypt => p.encrypt
  }

  /** The content of a record as JavaScript's truthiness sees it: present and non-empty. */
  predicate HasContent(f: FileItem)
  {
    f.content.Some? && f.content.value != ""
  }

  /** `find` over a list of keys: the first position at or after `from` holding the key. */
  function FirstIndex(keys: seq<string>, key: string, from: nat): (r: Option<nat>)
    ensures r.Some? ==> from <= r.value < |keys| && keys[r.value] == key
    ensures r.Some? ==> forall j :: from <= j < r.value ==> keys[j] != key
    ensures r.None? ==> forall j :: from <= j < |keys| ==> keys[j] != key
    decreases |keys| - from
  {
    if from >= |keys| then None
    else if keys[from] == key then Some(from)
    else FirstIndex(keys, key, from + 1)
  }
}
