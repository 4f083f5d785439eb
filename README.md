# file-forge-guardian in Dafny

A model of the in-memory virtual file store of *file-forge-guardian*, a React
file manager. The store is a flat list of `FileItem` records linked by
`parent` ids. Every operation first asks the permission gate
(`checkFileAccess`), then either leaves the list alone or replaces it with a
new list built by `map`, `filter` or append:

- create, cascading delete, rename, edit and clear (`useFileOperations`);
- move, copy, encrypt, decrypt, change-permissions and backup (`useAdvancedFileOperations`);
- compress, decompress, sort-lines and search-lines (`useFileContentOperations`).

The project also models:

- the browser state of `useFileNavigation`;
- the XOR/Base64 cipher and the 32-bit hash of `lib/encryption.ts`;
- the extension classifier and the breadcrumb path of `lib/file-utils.ts`;
- the seed data and the role table of `constants/file-constants.ts`.

Layout, one module per source file:

| file | module | models |
|---|---|---|
| `types.dfy` | `FileTypes` | records, roles, actions, outcomes |
| `tree.dfy` | `FileTree` | lookup, parent chains, store invariants, descendant closure |
| `operations.dfy` | `FileOperations` | the gate and the operations of `useFileOperations.ts` as transition functions |
| `advanced_operations.dfy` | `AdvancedOperations` | the operations of `useAdvancedFileOperations.ts` |
| `content_operations.dfy` | `ContentOperations` | the operations of `useFileContentOperations.ts` |
| `line_sort.dfy` | `LineSort` | `lines.sort()`: an in-place array sort proved against a sorting function |
| `store.dfy` | `Store` | the `FileStore` class: the `files` state and one method per operation |
| `navigation.dfy` | `Navigation` | the `Navigator` class: directory, selection and search term |
| `text.dfy`, `base64.dfy`, `encryption.dfy` | `Text`, `Base64`, `Encryption` | string helpers, RFC 4648 Base64, the cipher and the hash |
| `file_utils.dfy`, `defaults.dfy`, `arith.dfy` | `FileUtils`, `Defaults`, `Arith` | the classifier and breadcrumb, the seed data, arithmetic facts |

Each operation is modelled in two layers:

- **Transition function.** A pure function `XxxStep(roles, files, …)`
  returns a `Step(outcome, files)`. The outcome is `Ok`, `PermissionDenied`,
  `NotFound`, `InvalidState` or `TransformFailure`. On every non-`Ok` path
  the list is unchanged. Most of these outcomes stand for a toast. Two do
  not: the `TransformFailure` of encrypt is an exception thrown inside the
  `setTimeout` callback, which no toast reports and which leaves `isLoading`
  set; the `TransformFailure` of delete is the uncaught `RangeError` of a
  parent cycle. Lemmas state
  what the step does to the records and which store invariants it keeps:
  unique ids, no parent cycle, and parents that are folders.
- **Store method.** A method of `Store.FileStore` changes `files` in place,
  running the gate loop of the batch operations and the cipher loops. Its
  contract says its outcome and new state are those of the step function.

## Model

| member | source | states |
|---|---|---|
| FileTypes.FirstIndex | src/hooks/useFileNavigation.ts:34-36 | `Array.prototype.find` by key: the position found is at or after the start, holds the key, and no position between holds it; no result means no position from the start holds it |
| FileTree.FindFrom | src/hooks/useFileNavigation.ts:34-36 | `getFile`/`files.find`: the position found holds the id and no earlier position does; no result means no record has the id; it is `FirstIndex` over the ids |
| FileTree.Find | src/hooks/useFileNavigation.ts:34-36 | the record found is in the store and has the id; nothing is found exactly when no record has the id |
| FileTree.FindStored | src/hooks/useFileNavigation.ts:34-36 | with unique ids, looking up a stored record's id returns that record |
| FileTree.ChildIds | src/hooks/useFileOperations.ts:64 | the ids collected are exactly those of the records whose parent is the given folder |
| FileTree.AllChildIdsOfParts | src/hooks/useFileOperations.ts:62-74 | the closure of a batch is the union of the closures of its ids |
| FileTree.ClosureSound | src/hooks/useFileOperations.ts:62-69 | every id `getAllChildIds` collects belongs to a descendant of the folder |
| FileTree.ClosureComplete | src/hooks/useFileOperations.ts:62-69 | every descendant of the folder is collected |
| FileTree.ChildInClosure | src/hooks/useFileOperations.ts:62-69 | a child's id and everything collected below it are in its parent's collection |
| FileTree.ClosureTerminates | src/hooks/useFileOperations.ts:62-69 | on an acyclic store the recursion finishes within depth `|files| + 1` |
| FileTree.CycleExhausts | src/hooks/useFileOperations.ts:62-69 | on a parent cycle the recursion never finishes, whatever the depth |
| FileTree.WithoutIds | src/hooks/useFileOperations.ts:76 | the filter keeps exactly the records whose id is not dropped, in store order |
| FileTree.UniqueSubsequence | src/hooks/useFileOperations.ts:76 | filtering keeps ids unique |
| FileTree.AcyclicSubset | src/hooks/useFileOperations.ts:76 | removing records keeps the store acyclic |
| FileTree.ShapeKeepsInvariants | src/hooks/useFileOperations.ts:104-110 | a `map` that keeps every id, parent and kind keeps all three store invariants |
| FileTree.AppendLeaves | src/hooks/useAdvancedFileOperations.ts:78 | appending records with fresh ids that nothing points to keeps the invariants |
| FileTree.RankedAcyclic | src/constants/file-constants.ts:4-54 | a store whose parents always have a smaller rank is acyclic |
| FileOperations.FirstRole | src/hooks/useFileOperations.ts:18 | `roles.find`: the first role with the id, or none; it is `FirstIndex` over the role ids |
| FileOperations.RoleIds | src/hooks/useFileOperations.ts:18 | the ids of the role table, position by position |
| FileOperations.CheckFileAccess | src/hooks/useFileOperations.ts:17-20 | access is granted exactly when there is an `admin` role and the first one grants the action; the file id plays no part |
| FileOperations.BatchGate | src/hooks/useFileOperations.ts:47-56 | the batch gate passes exactly when the batch is empty or the gate grants the action at all |
| FileOperations.Apply | src/hooks/useFileOperations.ts:104-110 | a record update keeps the id, parent, kind, size and owner, and changes only the fields its kind of update names |
| FileOperations.UpdateWhere | src/hooks/useFileOperations.ts:104-110 | `prev.map(f => f.id === id ? … : f)`: matching records are updated, all others unchanged, ids/parents/kinds unchanged |
| FileOperations.UpdateThenFind | src/hooks/useFileOperations.ts:104-110 | after the update the record looked up by the id is the updated original |
| FileOperations.UpdateKeepsInvariants | src/hooks/useFileOperations.ts:104-110 | an update keeps the three store invariants |
| FileOperations.UpdateKeepsOthers | src/hooks/useFileOperations.ts:104-110 | an update does not change the lookup of any other id |
| FileOperations.CreateTarget | src/hooks/useFileOperations.ts:23 | the gate is asked about the parent, or `root` when there is none |
| FileOperations.AddFileStep | src/hooks/useFileOperations.ts:22-44 | denied when the gate refuses write on the parent; otherwise exactly one record is appended, the input with the new clock id, and the prior records are unchanged and in order |
| FileOperations.AddKeepsInvariants | src/hooks/useFileOperations.ts:34-36 | with a fresh id, adding keeps unique ids and acyclicity, and keeps parents-are-folders when the parent is a stored folder |
| FileOperations.DeletionIds | src/hooks/useFileOperations.ts:71-74 | `[...ids, ...childIds]`: the batch comes first |
| FileOperations.DeletionIdsExact | src/hooks/useFileOperations.ts:62-74 | the ids collected are exactly the batch ids and their descendants |
| FileOperations.DeleteFilesStep | src/hooks/useFileOperations.ts:46-89 | denied with no change when any id fails the delete gate; no partial delete; the result keeps records in store order |
| FileOperations.DeleteRemovesExactlyDoomed | src/hooks/useFileOperations.ts:62-76 | after a delete, a record remains exactly when it was stored and is neither a batch id nor a descendant of one |
| FileOperations.DeleteCompletesWhenAcyclic | src/hooks/useFileOperations.ts:62-76 | on an acyclic store a permitted delete always succeeds |
| FileOperations.DeleteFailsOnCycle | src/hooks/useFileOperations.ts:62-69 | when a batch id lies on a parent cycle the delete overflows and the store is unchanged |
| FileOperations.ChildOfDoomed | src/hooks/useFileOperations.ts:62-69 | a child of a deleted record is deleted too |
| FileOperations.DeleteKeepsInvariants | src/hooks/useFileOperations.ts:76 | delete keeps the three store invariants |
| FileOperations.RenameFileStep | src/hooks/useFileOperations.ts:91-119 | denied with no change for a missing id or a refused write; otherwise ids, parents and kinds are kept |
| FileOperations.RenameEffect | src/hooks/useFileOperations.ts:104-110 | rename changes only the name of the record (not even `modified`); the list keeps its length and every record with another id is unchanged in place |
| FileOperations.EditFileContentStep | src/hooks/useFileOperations.ts:121-149 | denied with no change for a missing id or a refused write |
| FileOperations.EditEffect | src/hooks/useFileOperations.ts:134-140 | the record holds the new content and the new time; every other record is unchanged |
| FileOperations.ClearFileContentStep | src/hooks/useFileOperations.ts:151-189 | denied for a missing id or refused write; a folder is rejected; failure paths change nothing |
| FileOperations.ClearEffect | src/hooks/useFileOperations.ts:174-180 | the cleared record is the old one with the empty text, which counts as no content, and `modified` set to the clock; the list keeps its length and every record with another id is unchanged in place |
| Defaults.Seed | src/constants/file-constants.ts:4-54 | a seed record has the given fields, is not encrypted, and has no permissions, owner or version |
| Defaults.DefaultFiles | src/constants/file-constants.ts:4-54 | six seed records |
| Defaults.DefaultFilesWellFormed | src/constants/file-constants.ts:4-54 | the seed ids are distinct and every parent is a stored folder |
| Defaults.DefaultIdsDistinct | src/constants/file-constants.ts:4-54 | the six seed ids are pairwise distinct |
| Defaults.DefaultParentsAreFolders | src/constants/file-constants.ts:4-54 | each seed parent names a seed folder |
| Defaults.DefaultFilesAcyclic | src/constants/file-constants.ts:19 | the seed parent graph is acyclic |
| Defaults.DefaultRootIsTheTop | src/constants/file-constants.ts:5-12 | exactly the folder `root` has no parent |
| Defaults.DefaultContents | src/constants/file-constants.ts:5-37 | seed folders have size 0 and no content, only `readme` has content, nothing is encrypted |
| Defaults.DefaultGateGrantsAll | src/constants/file-constants.ts:57-66 | with the seed roles the gate grants every action on every id |
| Defaults.DefaultRoleFlags | src/constants/file-constants.ts:67-86 | `editor` grants read and write only, `viewer` read only |
| AdvancedOperations.Moved | src/hooks/useAdvancedFileOperations.ts:38-44 | moved records get the target parent, every other record is unchanged, and length and order are kept |
| AdvancedOperations.MoveFilesStep | src/hooks/useAdvancedFileOperations.ts:24-53 | denied with no change when any id fails write; otherwise the result is `Moved`: the named records re-parented to the target, the others unchanged, ids and order kept |
| AdvancedOperations.MoveKeepsIdsAndFolders | src/hooks/useAdvancedFileOperations.ts:38-44 | a move keeps unique ids, and keeps parents-are-folders when the target is a stored folder or none |
| AdvancedOperations.MoveKeepsAcyclic | src/hooks/useAdvancedFileOperations.ts:38-44 | a move keeps the store acyclic when the target is not one of the moved records or their descendants |
| AdvancedOperations.MovedCycleReachesTarget | src/hooks/useAdvancedFileOperations.ts:38-44 | any cycle after a move passes through the target, which then lies below a moved record |
| AdvancedOperations.MovedCycleChain | src/hooks/useAdvancedFileOperations.ts:38-44 | a cycle after a move yields an original chain from a moved record up to the target |
| AdvancedOperations.TargetDoomed | src/hooks/useAdvancedFileOperations.ts:38-44 | the end of a chain below a moved record is a moved record or a descendant of one |
| AdvancedOperations.MoveIntoChildMakesCycle | src/hooks/useAdvancedFileOperations.ts:38-44 | on the seed store, moving `root` into `documents` is allowed and creates a cycle, after which deleting `root` overflows |
| AdvancedOperations.Selected | src/hooks/useAdvancedFileOperations.ts:69 | `files.filter(f => ids.includes(f.id))`: exactly the stored records named in the batch, in store order |
| AdvancedOperations.CopyOf | src/hooks/useAdvancedFileOperations.ts:70-76 | a copy has id `<id>-copy-<clock>`, name `<name> (copy)`, the target parent and the new time, and equals the original in every other field |
| AdvancedOperations.Copies | src/hooks/useAdvancedFileOperations.ts:70-76 | one copy per selected record, in the same order |
| AdvancedOperations.CopyFilesStep | src/hooks/useAdvancedFileOperations.ts:55-91 | denied with no change when any id fails read; otherwise the old records stay, unchanged and in order, as a prefix, followed by exactly `Copies` of the selected records |
| AdvancedOperations.CopyAddsOneCopyEach | src/hooks/useAdvancedFileOperations.ts:69-78 | the appended records are one `CopyOf` per stored record named in the batch, in store order, position by position; missing ids are ignored |
| AdvancedOperations.SuffixInjective | src/hooks/useAdvancedFileOperations.ts:72 | ids built with the same suffix are equal only when their stems are |
| AdvancedOperations.CopiesAreLeaves | src/hooks/useAdvancedFileOperations.ts:70-78 | with a fresh clock the copies' ids are new and no record points to a copy |
| AdvancedOperations.CopyIsLeaf | src/hooks/useAdvancedFileOperations.ts:70-78 | one copy: its id is new, no stored record points to it, and the target is not it |
| AdvancedOperations.CopiesUnique | src/hooks/useAdvancedFileOperations.ts:72 | copies of records with distinct ids have distinct ids |
| AdvancedOperations.CopyKeepsInvariants | src/hooks/useAdvancedFileOperations.ts:69-78 | with a fresh clock and a folder target, copying keeps the three store invariants |
| AdvancedOperations.EncryptFileStep | src/hooks/useAdvancedFileOperations.ts:93-138 | denied for a missing file or refused encrypt; no content is rejected; failures change nothing; success keeps ids, parents and kinds |
| AdvancedOperations.EncryptMarksFile | src/hooks/useAdvancedFileOperations.ts:116-125 | the encrypted record is marked encrypted, carries the new time, and holds valid Base64 |
| AdvancedOperations.DecryptFileStep | src/hooks/useAdvancedFileOperations.ts:140-193 | denied for a missing file or refused encrypt; unencrypted or empty content is rejected; a failed decrypt changes nothing |
| AdvancedOperations.DecryptAfterEncrypt | src/hooks/useAdvancedFileOperations.ts:93-193 | encrypting a file then decrypting it with the same password succeeds and restores its content, unmarked |
| AdvancedOperations.DecryptStepOk | src/hooks/useAdvancedFileOperations.ts:163-177 | a permitted decryption of encrypted content that decodes writes the decrypted text, unmarked |
| AdvancedOperations.ChangeFilePermissionsStep | src/hooks/useAdvancedFileOperations.ts:195-224 | no gate: only a missing id fails, with no change |
| AdvancedOperations.PermissionsEffect | src/hooks/useAdvancedFileOperations.ts:209-215 | the record stores the permission text verbatim and the new time, and is otherwise unchanged |
| AdvancedOperations.BackupOf | src/hooks/useAdvancedFileOperations.ts:240-248 | a backup has id `<id>-backup-<clock>`, name `<name>.bak`, the same parent, and otherwise equals the original |
| AdvancedOperations.BackupFileStep | src/hooks/useAdvancedFileOperations.ts:226-259 | denied with no change for a missing id or refused read; otherwise exactly the backup is appended |
| AdvancedOperations.BackupKeepsInvariants | src/hooks/useAdvancedFileOperations.ts:240-248 | with a fresh clock, a backup keeps the three store invariants |
| AdvancedOperations.BackupIsLeaf | src/hooks/useAdvancedFileOperations.ts:240-248 | a backup takes a fresh id, no record points to it, and its parent is a stored folder when the original's is |
| ContentOperations.CeilTenths | src/hooks/useFileContentOperations.ts:51 | the least whole number at least `size * tenths / 10` |
| ContentOperations.CompressedSize | src/hooks/useFileContentOperations.ts:51 | `ceil(size * 0.7)`: never larger than the size, and zero only for zero |
| ContentOperations.DecompressedSize | src/hooks/useFileContentOperations.ts:105 | `ceil(size * 1.3)`: never smaller than the size |
| ContentOperations.CompressedOf | src/hooks/useFileContentOperations.ts:46-57 | the archive has name `<name>.gz`, kind archive, the compressed size, the same parent and the placeholder content |
| ContentOperations.CompressFileStep | src/hooks/useFileContentOperations.ts:23-68 | denied for a missing file or refused write; no content or a folder is rejected; success appends exactly the archive |
| ContentOperations.AppendSibling | src/hooks/useFileContentOperations.ts:57 | appending a fresh record beside a stored one keeps the three invariants |
| ContentOperations.CompressKeepsInvariants | src/hooks/useFileContentOperations.ts:46-57 | with a fresh clock, compressing keeps the three store invariants |
| ContentOperations.OriginalName | src/hooks/useFileContentOperations.ts:93-95 | a name ending in `.gz` loses that suffix; any other name gets `decompressed_` in front |
| ContentOperations.OriginalNameOfCompressed | src/hooks/useFileContentOperations.ts:93-95 | decompressing restores the name compressing gave |
| ContentOperations.RecoveredKind | src/hooks/useFileContentOperations.ts:97-98 | the kind of the record the lookup finds, else document |
| ContentOperations.DecompressedOf | src/hooks/useFileContentOperations.ts:100-111 | the restored record has the original name, the recovered kind, the grown size and the same parent |
| ContentOperations.DecompressWith | src/hooks/useFileContentOperations.ts:70-122 | denied for a missing file or refused write; a non-archive is rejected; success appends exactly the restored record |
| ContentOperations.DecompressFileStepAsWritten | src/hooks/useFileContentOperations.ts:97-98 | the lookup as written; failures change nothing |
| ContentOperations.LookupAsWrittenMisses | src/hooks/useFileContentOperations.ts:97 | the id as written keeps the clock digits, so it is never the original id |
| ContentOperations.DecompressAsWrittenForgetsKind | src/hooks/useFileContentOperations.ts:97-104 | compress then decompress as written restores a document, whatever the original kind |
| ContentOperations.TrimDigits | src/hooks/useFileContentOperations.ts:97 | strips the trailing digits, leaving a prefix that does not end in a digit |
| ContentOperations.TrimDigitsAppend | src/hooks/useFileContentOperations.ts:97 | trailing digits added to a text are trimmed again |
| ContentOperations.OriginalIdOfCompressed | src/hooks/useFileContentOperations.ts:97 | the corrected lookup maps an archive id back to the original id |
| ContentOperations.DecompressFileStep | src/hooks/useFileContentOperations.ts:70-122 | the decompress step with the corrected lookup; failures change nothing |
| ContentOperations.ArchiveFound | src/hooks/useFileContentOperations.ts:73 | with a fresh clock, the appended archive is found by its id |
| ContentOperations.DecompressRestores | src/hooks/useFileContentOperations.ts:23-122 | compress then decompress restores the original's kind, name and parent |
| ContentOperations.DecompressKeepsInvariants | src/hooks/useFileContentOperations.ts:100-111 | whatever id the original is looked up by, decompressing under a fresh `-decompressed-` id keeps each of the three store invariants |
| ContentOperations.SortedTextLines | src/hooks/useFileContentOperations.ts:147-149 | the sorted text's lines are in scalar-value order, which equals code-unit order on strings with no character above U+FFFF, and are a permutation of the original lines |
| ContentOperations.SortedTextIdempotent | src/hooks/useFileContentOperations.ts:147-149 | sorting sorted text changes nothing |
| ContentOperations.SortedTextNonEmpty | src/hooks/useFileContentOperations.ts:147-149 | sorting non-empty text gives non-empty text |
| ContentOperations.SortFileContentStep | src/hooks/useFileContentOperations.ts:124-166 | denied for a missing file or refused write; no content or a folder is rejected; failures change nothing |
| ContentOperations.SortEffect | src/hooks/useFileContentOperations.ts:147-157 | the file's new content is its lines sorted, a permutation of the old lines in order |
| ContentOperations.SortTwice | src/hooks/useFileContentOperations.ts:124-166 | sorting the same file twice leaves the content of the first sort |
| ContentOperations.Found | src/hooks/useFileContentOperations.ts:184-193 | never more results than lines |
| ContentOperations.FoundSound | src/hooks/useFileContentOperations.ts:186-190 | every result is `Line <i+1>: <line>` for a line that holds the term, ignoring case |
| ContentOperations.FoundHas | src/hooks/useFileContentOperations.ts:186-190 | each line holding the term has its result |
| ContentOperations.FoundComplete | src/hooks/useFileContentOperations.ts:186-190 | every line holding the term is reported |
| ContentOperations.FoundEmptyTerm | src/hooks/useFileContentOperations.ts:186-190 | an empty term matches every line |
| ContentOperations.FoundIgnoresCase | src/hooks/useFileContentOperations.ts:187 | the term's case does not matter |
| ContentOperations.SearchLines | src/hooks/useFileContentOperations.ts:184-193 | the `forEach`/`push` loop computes exactly `Found` |
| ContentOperations.SearchFileContent | src/hooks/useFileContentOperations.ts:168-194 | nothing for a missing file, a refused read or no content; otherwise exactly `Found` of the content's lines; never more results than lines |
| ContentOperations.HitPositions | src/hooks/useFileContentOperations.ts:187-191 | the line indices whose lower-cased text contains the lower-cased term, each in range, strictly increasing |
| ContentOperations.HitPositionsComplete | src/hooks/useFileContentOperations.ts:187-191 | every matching line index is among the hit positions |
| ContentOperations.FoundInOrder | src/hooks/useFileContentOperations.ts:184-193 | the results are one `Line n: text` label per matching line, in increasing line order |
| LineSort.OrderedPairs | src/hooks/useFileContentOperations.ts:148 | in ordered lines every line is at most every later one |
| LineSort.Insert | src/hooks/useFileContentOperations.ts:148 | inserting into ordered lines keeps them ordered and adds exactly the one line |
| LineSort.Sorted | src/hooks/useFileContentOperations.ts:148 | the lines in scalar-value order, which equals code-unit order on strings with no character above U+FFFF, a permutation of the input |
| LineSort.OrderedUnique | src/hooks/useFileContentOperations.ts:148 | two ordered permutations of the same lines are equal |
| LineSort.SortedIdempotent | src/hooks/useFileContentOperations.ts:148 | sorting twice is sorting once |
| LineSort.SortedIgnoresOrder | src/hooks/useFileContentOperations.ts:148 | permutations of the same lines sort alike |
| LineSort.SortLines | src/hooks/useFileContentOperations.ts:148 | `lines.sort()` in place: the array ends holding `Sorted` of its old contents |
| LineSort.InsertLast | src/hooks/useFileContentOperations.ts:148 | one insertion step: the prefix grows ordered by one and the contents are permuted |
| LineSort.SwapStep | src/hooks/useFileContentOperations.ts:148 | swapping an out-of-order pair moves the gap one place left and permutes the lines |
| Store.FileStore.constructor | src/contexts/FileContext.tsx:16-28 | the store starts with the given records (seed data or saved list) and role table |
| Store.FileStore.Seeded | src/contexts/FileContext.tsx:16-28 | the store seeded with `DEFAULT_FILES` and `DEFAULT_ROLES` holds exactly them and satisfies the store invariants |
| Store.FileStore.CheckAll | src/hooks/useFileOperations.ts:47-56 | the gate loop with early return answers exactly whether every id passes |
| Store.FileStore.AddFile | src/hooks/useFileOperations.ts:22-44 | outcome and new records are those of `AddFileStep`; a valid store stays valid when the clock id is fresh and the parent is a stored folder |
| Store.FileStore.DeleteFiles | src/hooks/useFileOperations.ts:46-89 | outcome and new records are those of `DeleteFilesStep`; the invariants are kept |
| Store.FileStore.RenameFile | src/hooks/useFileOperations.ts:91-119 | as `RenameFileStep`; the invariants are kept |
| Store.FileStore.EditFileContent | src/hooks/useFileOperations.ts:121-149 | as `EditFileContentStep`; the invariants are kept |
| Store.FileStore.ClearFileContent | src/hooks/useFileOperations.ts:151-189 | as `ClearFileContentStep`; the invariants are kept |
| Store.FileStore.MoveFiles | src/hooks/useAdvancedFileOperations.ts:24-53 | as `MoveFilesStep` |
| Store.FileStore.CopyFiles | src/hooks/useAdvancedFileOperations.ts:55-91 | as `CopyFilesStep`; a valid store stays valid when the `-copy-` ids are fresh and the target is a stored folder or the root |
| Store.FileStore.EncryptFile | src/hooks/useAdvancedFileOperations.ts:93-138 | as `EncryptFileStep`, running the cipher loop; the invariants are kept |
| Store.FileStore.DecryptFile | src/hooks/useAdvancedFileOperations.ts:140-193 | as `DecryptFileStep`, running the cipher loop; the invariants are kept |
| Store.FileStore.ChangeFilePermissions | src/hooks/useAdvancedFileOperations.ts:195-224 | as `ChangeFilePermissionsStep`; the invariants are kept |
| Store.FileStore.BackupFile | src/hooks/useAdvancedFileOperations.ts:226-259 | as `BackupFileStep`; the invariants are kept when the clock is fresh |
| Store.FileStore.CompressFile | src/hooks/useFileContentOperations.ts:23-68 | as `CompressFileStep`; the invariants are kept when the clock is fresh |
| Store.FileStore.DecompressFile | src/hooks/useFileContentOperations.ts:70-122 | as `DecompressFileStepAsWritten`, the lookup as the program computes it; a valid store stays valid when the `-decompressed-` id is fresh |
| Store.FileStore.SortFileContent | src/hooks/useFileContentOperations.ts:124-166 | as `SortFileContentStep`, sorting the lines in an array in place; the invariants are kept |
| Store.FileStore.SearchFileContent | src/hooks/useFileContentOperations.ts:168-194 | reads the store and returns `SearchFileContent` of it, built by the search loop |
| Navigation.Toggled | src/hooks/useFileNavigation.ts:15-23 | an absent id is appended at the end; a present id has all its occurrences removed, the rest kept in order with their counts; so the id is selected afterwards exactly when it was not before |
| Navigation.Without | src/hooks/useFileNavigation.ts:18 | removes every occurrence of the id and nothing else; the rest keep their order (a subsequence) |
| Navigation.WithoutCounts | src/hooks/useFileNavigation.ts:18 | the multiset of the result is that of the selection with the id's count set to zero |
| Navigation.ToggleTwice | src/hooks/useFileNavigation.ts:15-23 | toggling an unselected id twice restores the selection exactly |
| Navigation.WithoutLast | src/hooks/useFileNavigation.ts:18-20 | removing an id just appended restores the selection |
| Navigation.ChildrenOf | src/hooks/useFileNavigation.ts:38-40 | exactly the records whose parent is the directory, in store order |
| Navigation.Matching | src/hooks/useFileNavigation.ts:45-48 | exactly the records whose name or content holds the term, ignoring case, in store order |
| Navigation.MatchingIgnoresCase | src/hooks/useFileNavigation.ts:46-47 | the case of the search term does not matter |
| Navigation.Navigator.constructor | src/hooks/useFileNavigation.ts:6-8 | the browser starts at `root` with no selection and no search |
| Navigation.Navigator.SetSearchTerm | src/hooks/useFileNavigation.ts:8 | sets the term, nothing else |
| Navigation.Navigator.NavigateToDirectory | src/hooks/useFileNavigation.ts:10-13 | sets the directory, unchecked, and empties the selection |
| Navigation.Navigator.ToggleSelectFile | src/hooks/useFileNavigation.ts:15-23 | flips the id's membership and leaves every other id as it was |
| Navigation.Navigator.ClearSelectedFiles | src/hooks/useFileNavigation.ts:25-27 | the selection becomes empty |
| Navigation.Navigator.SelectAllFiles | src/hooks/useFileNavigation.ts:29-32 | the selection becomes the ids of the current directory's records, in store order |
| Navigation.Navigator.CurrentDirectoryFiles | src/hooks/useFileNavigation.ts:38-40 | exactly the records in the current directory, in store order |
| Navigation.Navigator.SearchFiles | src/hooks/useFileNavigation.ts:42-49 | nothing for an empty term; otherwise exactly the matching records in store order |
| Encryption.XorTwice | src/lib/encryption.ts:24 | XOR with the same key code twice returns the code |
| Encryption.XorByteBlock | src/lib/encryption.ts:50 | a byte XOR a character code stays in the character's block of 256 |
| Encryption.XorChar | src/lib/encryption.ts:50 | `String.fromCharCode(byte ^ code)` is a character |
| Encryption.CreateKey | src/lib/encryption.ts:66-72 | the key loop yields the password repeated and cut to the length: position `i` holds `password[i % |password|]` |
| Encryption.Encrypt | src/lib/encryption.ts:15-29 | the XOR loop then `btoa` computes `Encrypted`: empty content gives empty text, a code of 256 or more fails |
| Encryption.Decrypt | src/lib/encryption.ts:37-58 | `atob` then the XOR loop computes `Decrypted`: empty input gives empty text, bad Base64 fails with "Decryption failed" |
| Encryption.XorBytes | src/lib/encryption.ts:48-51 | the decrypt loop computes the XOR of each byte with the key |
| Encryption.XorInvolution | src/lib/encryption.ts:22-25 | the XOR step with one key applied twice is the identity |
| Encryption.DecryptEncrypt | src/lib/encryption.ts:15-58 | whenever encryption succeeds, decrypting with the same password gives the content back |
| Encryption.EncryptLatin1 | src/lib/encryption.ts:28 | content and password below code 256 always encrypt |
| Encryption.EncryptIsBase64 | src/lib/encryption.ts:28 | the cipher text has length `4 * ceil(n / 3)` over the Base64 alphabet with `=` padding only at the end |
| Encryption.DecryptFailsOnlyOnBadBase64 | src/lib/encryption.ts:40-57 | decryption fails exactly when the text is non-empty and not Base64; a wrong password never fails |
| Encryption.ToInt32 | src/lib/encryption.ts:85 | `hash & hash`: the signed 32-bit value congruent to the input |
| Encryption.HashValue | src/lib/encryption.ts:79-86 | the hash stays a signed 32-bit value |
| Encryption.SimpleHash | src/lib/encryption.ts:79-89 | the loop computes the hex text of the absolute hash |
| Encryption.SimpleHashShape | src/lib/encryption.ts:88 | the hash text is 1 to 8 hex digits reading back as the absolute hash, and `"0"` for the empty input |
| Base64.Encode | src/lib/encryption.ts:28 | `btoa` on bytes: length `4 * ceil(n / 3)`, alphabet characters with `=` padding at the end |
| Base64.GroupAlphabet | src/lib/encryption.ts:28 | a group of output is four alphabet characters, with `=` only in the last two places of a short group |
| Base64.Decode | src/lib/encryption.ts:42 | `atob` as a strict RFC 4648 decoder: fails unless the length is a multiple of four, every character is in the alphabet and `=` appears only as final padding |
| Base64.DecodeEncode | src/lib/encryption.ts:28-42 | decoding the encoding of bytes gives them back |
| Base64.DecodeRejectsForeign | src/lib/encryption.ts:42 | a character outside the alphabet makes decoding fail |
| Text.Contains | src/hooks/useFileNavigation.ts:46-47 | `includes`: true exactly when the term occurs at some position; the empty term always occurs |
| Text.ReplaceFirst | src/hooks/useFileContentOperations.ts:97 | `replace` with a string: the first occurrence is replaced, or the text is unchanged |
| Text.Split | src/hooks/useFileContentOperations.ts:147 | `split('\n')`: at least one line, none holding a line break |
| Text.JoinSplit | src/hooks/useFileContentOperations.ts:147-149 | joining the split lines gives the text back |
| Text.SplitJoin | src/hooks/useFileContentOperations.ts:147-149 | splitting joined lines gives the lines back |
| Text.LowerIdempotent | src/hooks/useFileNavigation.ts:46-47 | lower-casing twice is lower-casing once |
| Text.NatToStringInjective | src/hooks/useFileOperations.ts:34 | distinct clock readings give distinct decimal ids |
| Text.FromToRadix | src/lib/encryption.ts:88 | the digits of a number read back as the number |
| Text.LessEqTotal | src/hooks/useFileContentOperations.ts:148 | scalar-value order, which equals code-unit order on strings with no character above U+FFFF, compares any two lines |
| Text.LessEqAntisymmetric | src/hooks/useFileContentOperations.ts:148 | lines each at most the other are equal |
| Text.LessEqTransitive | src/hooks/useFileContentOperations.ts:148 | scalar-value order, which equals code-unit order on strings with no character above U+FFFF, is transitive |
| FileUtils.GetFileTypeFromName | src/lib/file-utils.ts:5-53 | never `folder`; an empty extension gives `unknown` |
| FileUtils.AfterLastDotIsLastPiece | src/lib/file-utils.ts:6 | the extension is the text after the last dot, and holds no dot |
| FileUtils.ClassifiedByTable | src/lib/file-utils.ts:10-52 | the kind is the table entry of the extension; `unknown` exactly for unlisted extensions |
| FileUtils.FileTypeIgnoresCase | src/lib/file-utils.ts:6 | classification ignores case |
| FileUtils.EmptyExtensionUnknown | src/lib/file-utils.ts:8 | an empty name or a name ending in a dot is `unknown` |
| FileUtils.NameWithoutDot | src/lib/file-utils.ts:6 | a name without a dot is its own extension |
| FileUtils.LastExtensionCounts | src/lib/file-utils.ts:6 | `x.tar.gz` is classified by `gz` |
| FileUtils.UpperCaseExtension | src/lib/file-utils.ts:6-12 | `Report.PDF` is a PDF |
| FileUtils.Breadcrumb | src/lib/file-utils.ts:69-79 | the root crumb alone for no id or `root`; empty for an unknown id; otherwise ends with the file's own crumb |
| FileUtils.Crumbs | src/lib/file-utils.ts:78 | one `{id, name}` crumb per record |
| FileUtils.BreadcrumbOfChain | src/lib/file-utils.ts:69-79 | along a chain below `root` the path is the root crumb followed by one crumb per level |
| FileUtils.BreadcrumbStep | src/lib/file-utils.ts:69-79 | a stored record's path is its parent's path followed by its own crumb |
| FileUtils.BreadcrumbSnoc | src/lib/file-utils.ts:69-79 | extending a chain by one stored record extends the path by its crumb |
| FileUtils.BreadcrumbStartsAtRoot | src/lib/file-utils.ts:69-79 | when parents are folders, a non-empty path starts with the root crumb |
| FileUtils.BreadcrumbTerminates | src/lib/file-utils.ts:69-79 | on an acyclic store the recursion finishes |

## Left out

- The React UI, the dialogs, `toast` notifications, `logOperation`'s console output, the 500 ms `setTimeout` and the `isLoading` flag are not modelled. Each operation is one atomic transition, and each toast or uncaught exception is an `Outcome`; that encrypt's thrown failure leaves `isLoading` set is not captured.
- Persistence is not modelled: `localStorage` load and save in `src/contexts/FileContext.tsx`. The `FileStore` constructor takes the initial records, either the seed data or a restored list.
- The session login of `src/contexts/AuthContext.tsx` is not part of this model.
- Stale closures are not modelled. `deleteFiles` and `copyFiles` read the `files` captured at call time but update `prev`. The model takes both to be the same list, as they are when operations do not overlap.
- Clock values come in as parameters. `Date.now()` is a `now: nat` rendered in decimal, and `new Date()` is a `Timestamp`. The source reads the clock anew for each id and each `modified` field, even once per copied record inside the `map` of `copyFiles`; the model uses one `now` for every read of one operation, a simplification. Under it the copies of one batch share one clock value, and an id and its `modified` field agree. Fresh ids are not guaranteed by the source, so freshness (`FreshTag`, `FreshClock`) is a hypothesis of the lemmas about the invariants, not a precondition of the operations.
- The `getAllChildIds` recursion and the `getBreadcrumbPath` recursion take a depth budget. An exhausted budget stands for the call-stack overflow (`RangeError`) on a parent cycle, after which the store is unchanged. On an acyclic store the budget is never exhausted (`ClosureTerminates`, `BreadcrumbTerminates`).
- `Math.ceil(size * 0.7)` and `Math.ceil(size * 1.3)` are exact rational ceilings here. IEEE rounding could differ at edge values.
- `toLowerCase` maps only the ASCII and Latin-1 capitals. Other Unicode case mappings are left out.
- Base64.Decode: a strict RFC 4648 section 4 decoder, which requires padding and no whitespace. The browser's `atob` is more lenient: it removes ASCII whitespace and accepts input without its `=` padding, so decrypting such text is not captured.
- Store.FileStore.EncryptFile, Store.FileStore.DecryptFile: require a non-empty password. The dialog refuses an empty one (src/components/FileOperations.tsx:156,171), and with an empty password `createKey` never terminates on non-empty content.
- The `isEncrypted?` flag is a `bool`. An absent flag reads as false everywhere in the core.
- `formatFileSize` and `formatModifiedDate` are outside the core.
- Store.FileStore.DecompressFile: follows the lookup as written (`DecompressFileStepAsWritten`), so it restores a document whatever the original kind. The corrected `DecompressFileStep`, with its `DecompressRestores` property, is the intended half of the Findings row and is not what the store runs.
- LineSort.Sorted, ContentOperations.SortedTextLines, Encryption.CreateKey: a Dafny `char` is a Unicode scalar value, while JavaScript strings are UTF-16 code units. On characters above U+FFFF the model differs: JavaScript sorts "😀" (first unit 0xD83D) before "\uFF01", but `Sorted` puts it after; `createKey` counts an astral character of the password as two key units where the model counts one; and the lone surrogates that `String.fromCharCode` can produce in decrypt cannot be represented.

## Findings

| source | as written | input that shows it | evidently intended | confidence | as-written member | corrected member |
|---|---|---|---|---|---|---|
| src/hooks/useFileContentOperations.ts:97-98 | the original is looked up by `id.replace('-compressed-', '')`, which leaves the clock digits of the archive id in place | compress `readme` at clock 42 to `readme-compressed-42`, then decompress it: the lookup asks for `readme42`, finds nothing, and the restored record is a document whatever the original kind | look up the id with the whole `-compressed-<digits>` suffix removed, so that the restored record takes the original's kind | not executed | ContentOperations.DecompressAsWrittenForgetsKind | ContentOperations.DecompressRestores |
