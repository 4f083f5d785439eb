/**
 * `src/hooks/useFileNavigation.ts`: the current directory, the selection
 * and the search term of the file browser, with the filters over the store
 * they drive. The hook's state is a `Navigator` object; the store's records
 * are passed in, as the hook receives them.
 */
module Navigation {
  import opened FileTypes
  import opened FileTree
  import opened Text

  /** `prev.includes(id) ? prev.filter(fid => fid !== id) : [...prev, id]`. */
  function Toggled(sel: seq<string>, id: string): (r: seq<string>)
    ensures id in r <==> id !in sel
    ensures forall x :: x != id ==> (x in r <==> x in sel)
    ensures id !in sel ==> r == sel + [id]
    ensures id in sel ==> multiset(r) == multiset(sel)[id := 0] && SubsequenceOf(r, sel)
  {
    WithoutCounts(sel, id);
    if id in sel then Without(sel, id) else sel + [id]
  }

  /** `sel.filter(fid => fid !== id)`. */
  function Without(sel: seq<string>, id: string): (r: seq<string>)
    ensures forall x :: x in r <==> x in sel && x != id
    ensures |r| <= |sel|
    ensures id !in sel ==> r == sel
    ensures SubsequenceOf(r, sel)
  {
    if sel == [] then []
    else
      var rest := Without(sel[1..], id);
      assert forall x :: x in sel <==> x == sel[0] || x in sel[1..];
      if sel[0] == id then
        assert rest != [] ==> rest[0] != sel[0];
        rest
      else
        assert ([sel[0]] + rest)[1..] == rest;
        [sel[0]] + rest
  }

  /** Dropping an id removes all of its occurrences and keeps every other id as often as it was there. */
  lemma {:induction false} WithoutCounts(sel: seq<string>, id: string)
    ensures multiset(Without(sel, id)) == multiset(sel)[id := 0]
    decreases |sel|
  {
    if sel != [] {
      WithoutCounts(sel[1..], id);
      assert sel == [sel[0]] + sel[1..];
      assert multiset(sel) == multiset{sel[0]} + multiset(sel[1..]);
      if sel[0] != id {
        assert Without(sel, id) == [sel[0]] + Without(sel[1..], id);
      }
    }
  }

  /** Selecting a file that was not selected and toggling it again restores the selection. */
  lemma ToggleTwice(sel: seq<string>, id: string)
    requires id !in sel
    ensures Toggled(Toggled(sel, id), id) == sel
  {
    WithoutLast(sel, id);
  }

  lemma {:induction false} WithoutLast(sel: seq<string>, id: string)
    requires id !in sel
    ensures Without(sel + [id], id) == sel
    decreases |sel|
  {
    if sel == [] {
      assert Without([id], id) == Without([], id);
    } else {
      assert (sel + [id])[1..] == sel[1..] + [id];
      WithoutLast(sel[1..], id);
      assert sel == [sel[0]] + sel[1..];
    }
  }

  /** `files.filter(f => f.parent === dir)`. */
  function ChildrenOf(files: seq<FileItem>, dir: Option<string>): (r: seq<FileItem>)
    ensures forall f :: f in r <==> f in files && f.parent == dir
    ensures SubsequenceOf(r, files)
    decreases |files|
  {
    if files == [] then []
    else
      var rest := ChildrenOf(files[1..], dir);
      assert forall f :: f in files <==> f == files[0] || f in files[1..];
      if files[0].parent == dir then [files[0]] + rest else rest
  }

  /** A record matches a search when its name or its content holds the term, ignoring case. */
  predicate MatchesTerm(f: FileItem, term: string)
  {
    Contains(Lower(f.name), Lower(term)) ||
    (HasContent(f) && Contains(Lower(f.content.value), Lower(term)))
  }

  /** `files.filter(f => matches(f, term))`. */
  function Matching(files: seq<FileItem>, term: string): (r: seq<FileItem>)
    ensures forall f :: f in r <==> f in files && MatchesTerm(f, term)
    ensures SubsequenceOf(r, files)
    decreases |files|
  {
    if files == [] then []
    else
      var rest := Matching(files[1..], term);
      assert forall f :: f in files <==> f == files[0] || f in files[1..];
      if MatchesTerm(files[0], term) then [files[0]] + rest else rest
  }

  /** The state of the file browser. */
  class Navigator {
    var currentDirectory: Option<string>
    var selectedFiles: seq<string>
    var searchTerm: string

    /** The browser opens at the root with nothing selected and no search. */
    constructor()
      ensures currentDirectory == Some("root") && selectedFiles == [] && searchTerm == ""
    {
      currentDirectory := Some("root");
      selectedFiles := [];
      searchTerm := "";
    }

    /** `setSearchTerm(term)`. */
    method SetSearchTerm(term: string)
      modifies this
      ensures searchTerm == term
      ensures currentDirectory == old(currentDirectory) && selectedFiles == old(selectedFiles)
    {
      searchTerm := term;
    }

    /** `navigateToDirectory(dir)`: entering a directory drops the selection. */
    method NavigateToDirectory(dir: Option<string>)
      modifies this
      ensures currentDirectory == dir && selectedFiles == []
      ensures searchTerm == old(searchTerm)
    {
      currentDirectory := dir;
      selectedFiles := [];
    }

    /** `toggleSelectFile(id)`. */
    method ToggleSelectFile(id: string)
      modifies this
      ensures id in selectedFiles <==> id !in old(selectedFiles)
      ensures forall x :: x != id ==> (x in selectedFiles <==> x in old(selectedFiles))
      ensures selectedFiles == Toggled(old(selectedFiles), id)
      ensures currentDirectory == old(currentDirectory) && searchTerm == old(searchTerm)
    {
      selectedFiles := Toggled(selectedFiles, id);
    }

    /** `clearSelectedFiles()`. */
    method ClearSelectedFiles()
      modifies this
      ensures selectedFiles == []
      ensures currentDirectory == old(currentDirectory) && searchTerm == old(searchTerm)
    {
      selectedFiles := [];
    }

    /** `getCurrentDirectoryFiles()`: the records whose parent is the current directory, in store order. */
    function CurrentDirectoryFiles(files: seq<FileItem>): (r: seq<FileItem>)
      reads this
      ensures forall f :: f in r <==> f in files && f.parent == currentDirectory
      ensures SubsequenceOf(r, files)
    {
      ChildrenOf(files, currentDirectory)
    }

    /** `selectAllFiles()`: the selection becomes the ids of the current directory's records. */
    method SelectAllFiles(files: seq<FileItem>)
      modifies this
      ensures forall x :: x in selectedFiles <==> exists f :: f in files && f.parent == currentDirectory && f.id == x
      ensures selectedFiles == Ids(ChildrenOf(files, currentDirectory))
      ensures currentDirectory == old(currentDirectory) && searchTerm == old(searchTerm)
    {
      var here := CurrentDirectoryFiles(files);
      selectedFiles := Ids(here);
      forall x | x in selectedFiles
        ensures exists f :: f in files && f.parent == currentDirectory && f.id == x
      {
        var k :| 0 <= k < |selectedFiles| && selectedFiles[k] == x;
        assert here[k] in here;
      }
      forall x | exists f :: f in files && f.parent == currentDirectory && f.id == x
        ensures x in selectedFiles
      {
        var f :| f in files && f.parent == currentDirectory && f.id == x;
        var k :| 0 <= k < |here| && here[k] == f;
        assert selectedFiles[k] == x;
      }
    }

    /** `searchFiles()`: nothing for an empty term, else the matching records in store order. */
    function SearchFiles(files: seq<FileItem>): (r: seq<FileItem>)
      reads this
      ensures searchTerm == "" ==> r == []
      ensures searchTerm != "" ==> forall f :: f in r <==> f in files && MatchesTerm(f, searchTerm)
      ensures SubsequenceOf(r, files)
    {
      if searchTerm == "" then [] else Matching(files, searchTerm)
    }
  }

  /** Searching ignores the case of the term. */
  lemma {:induction false} MatchingIgnoresCase(files: seq<FileItem>, term: string)
    ensures Matching(files, Lower(term)) == Matching(files, term)
    decreases |files|
  {
    LowerIdempotent(term);
    if files != [] {
      MatchingIgnoresCase(files[1..], term);
    }
  }

}
