/**
 * The store as a flat sequence of records linked by `parent` ids: lookup by
 * id, parent chains, the store invariants (unique ids, no cycles, parents
 * that are folders), and the recursive descendant collection of
 * `deleteFiles` (`getAllChildIds` in `src/hooks/useFileOperations.ts`).
 *
 * The source recurses without a cycle guard, so on a cyclic store it runs
 * until the JavaScript call stack overflows. The model gives the recursion a
 * depth budget: `None` is that overflow. An acyclic store never exhausts the
 * budget `|files| + 1` (`ClosureTerminates`).
 */
module FileTree {
  import opened FileTypes

  // ---------------------------------------------------------------------
  // Lookup

  /** The position of the first record with the id at or after `from`. */
  function FindFrom(files: seq<FileItem>, id: string, from: nat): (r: Option<nat>)
    ensures r.Some? ==> from <= r.value < |files| && files[r.value].id == id
    ensures r.Some? ==> forall j :: from <= j < r.value ==> files[j].id != id
    ensures r.None? ==> forall j :: from <= j < |files| ==> files[j].id != id
  {
    FirstIndex(Ids(files), id, from)
  }

  /** `files.find(f => f.id === id)`: the first record with the id. */
  function Find(files: seq<FileItem>, id: string): (r: Option<FileItem>)
    ensures r.Some? ==> r.value in files && r.value.id == id
    ensures r.None? <==> forall f :: f in files ==> f.id != id
  {
    match FindFrom(files, id, 0)
    case None => None
    case Some(k) => Some(files[k])
  }

  /** No two positions hold the same id. */
  predicate UniqueIds(files: seq<FileItem>)
  {
    forall i, j :: 0 <= i < j < |files| ==> files[i].id != files[j].id
  }

  /** With unique ids, looking up a stored record's id finds that record. */
  lemma FindStored(files: seq<FileItem>, f: FileItem)
    requires UniqueIds(files) && f in files
    ensures Find(files, f.id) == Some(f)
  {
    var k :| 0 <= k < |files| && files[k] == f;
    var r := FindFrom(files, f.id, 0);
    assert r.Some? by {
      assert files[k].id == f.id;
    }
  }

  /** Appending records does not change what a stored id finds. */
  lemma FindAfterAppend(files: seq<FileItem>, extra: seq<FileItem>, id: string)
    requires Find(files, id).Some?
    ensures Find(files + extra, id) == Find(files, id)
  {
    var all := files + extra;
    var k := FindFrom(files, id, 0).value;
    assert all[k] == files[k];
    assert forall j :: 0 <= j < k ==> all[j] == files[j];
    assert FindFrom(all, id, 0) == Some(k);
  }

  /** The ids of the records, in store order. */
  function Ids(files: seq<FileItem>): (r: seq<string>)
    ensures |r| == |files|
    ensures forall k :: 0 <= k < |files| ==> r[k] == files[k].id
  {
    seq(|files|, k requires 0 <= k < |files| => files[k].id)
  }

  // ---------------------------------------------------------------------
  // Children and parent chains

  /** `files.filter(f => f.parent === p).map(f => f.id)`. */
  function ChildIds(files: seq<FileItem>, p: string): (r: seq<string>)
    ensures forall x :: x in r <==> exists f :: f in files && f.parent == Some(p) && f.id == x
    ensures |r| <= |files|
  {
    if files == [] then []
    else
      var rest := ChildIds(files[1..], p);
      assert forall f :: f in files <==> f == files[0] || f in files[1..];
      (if files[0].parent == Some(p) then [files[0].id] else []) + rest
  }

  /**
   * A downward path in the store starting below the id `p`: the first
   * record's parent is `p` and each later record's parent is the id of the
   * record before it.
   */
  predicate IsChain(files: seq<FileItem>, p: string, c: seq<FileItem>)
    decreases |c|
  {
    c == [] || (c[0] in files && c[0].parent == Some(p) && IsChain(files, c[0].id, c[1..]))
  }

  /** `f` lies below the id `p`. */
  ghost predicate Descends(files: seq<FileItem>, p: string, f: FileItem)
  {
    exists c :: IsChain(files, p, c) && |c| > 0 && c[|c| - 1] == f
  }

  /** No downward path leads back to a record carrying its starting id. */
  ghost predicate Acyclic(files: seq<FileItem>)
  {
    forall p: string, c: seq<FileItem> :: IsChain(files, p, c) && |c| > 0 ==> c[|c| - 1].id != p
  }

  /** Every parent reference names a folder of the store. */
  predicate ParentsAreFolders(files: seq<FileItem>)
  {
    forall f :: f in files && f.parent.Some? ==>
      exists g :: g in files && g.id == f.parent.value && g.kind == Folder
  }

  /** The id a record at position `k` of a chain hangs below. */
  function Above(p: string, c: seq<FileItem>, k: nat): string
    requires k <= |c|
  {
    if k == 0 then p else c[k - 1].id
  }

  lemma {:induction false} ChainSuffix(files: seq<FileItem>, p: string, c: seq<FileItem>, k: nat)
    requires IsChain(files, p, c) && k <= |c|
    ensures IsChain(files, Above(p, c, k), c[k..])
    decreases k
  {
    if k > 0 {
      ChainSuffix(files, c[0].id, c[1..], k - 1);
      assert c[1..][k - 1..] == c[k..];
      assert Above(c[0].id, c[1..], k - 1) == Above(p, c, k);
    }
  }

  lemma {:induction false} ChainPrefix(files: seq<FileItem>, p: string, c: seq<FileItem>, k: nat)
    requires IsChain(files, p, c) && k <= |c|
    ensures IsChain(files, p, c[..k])
    decreases k
  {
    if k > 0 {
      ChainPrefix(files, c[0].id, c[1..], k - 1);
      assert c[..k][1..] == c[1..][..k - 1];
    }
  }

  /** Every record of a chain is stored. */
  lemma {:induction false} ChainMembers(files: seq<FileItem>, p: string, c: seq<FileItem>, k: nat)
    requires IsChain(files, p, c) && k < |c|
    ensures c[k] in files
  {
    ChainSuffix(files, p, c, k);
  }

  /** The parent of a chain's record is the id just above it. */
  lemma {:induction false} ChainLink(files: seq<FileItem>, p: string, c: seq<FileItem>, k: nat)
    requires IsChain(files, p, c) && k < |c|
    ensures c[k].parent == Some(Above(p, c, k))
  {
    ChainSuffix(files, p, c, k);
  }

  /** A record hanging below the end of a chain extends it. */
  lemma {:induction false} ChainAppend(files: seq<FileItem>, p: string, c: seq<FileItem>, f: FileItem)
    requires IsChain(files, p, c) && f in files && f.parent == Some(Above(p, c, |c|))
    ensures IsChain(files, p, c + [f])
    decreases |c|
  {
    if c != [] {
      ChainAppend(files, c[0].id, c[1..], f);
      assert (c + [f])[1..] == c[1..] + [f];
    }
  }

  /** A chain stays a chain in any store that holds its records. */
  lemma {:induction false} ChainElsewhere(files: seq<FileItem>, other: seq<FileItem>, p: string, c: seq<FileItem>)
    requires IsChain(files, p, c)
    requires forall k :: 0 <= k < |c| ==> c[k] in other
    ensures IsChain(other, p, c)
    decreases |c|
  {
    if c != [] {
      ChainElsewhere(files, other, c[0].id, c[1..]);
    }
  }

  /** A chain in a store is a chain in any store holding the same records. */
  lemma ChainInSuperset(files: seq<FileItem>, more: seq<FileItem>, p: string, c: seq<FileItem>)
    requires IsChain(files, p, c)
    requires forall f :: f in files ==> f in more
    ensures IsChain(more, p, c)
  {
    forall k | 0 <= k < |c|
      ensures c[k] in more
    {
      ChainSuffix(files, p, c, k);
    }
    ChainElsewhere(files, more, p, c);
  }

  /** Dropping records keeps a store acyclic. */
  lemma AcyclicSubset(files: seq<FileItem>, fewer: seq<FileItem>)
    requires Acyclic(files)
    requires forall f :: f in fewer ==> f in files
    ensures Acyclic(fewer)
  {
    forall p: string, c: seq<FileItem> | IsChain(fewer, p, c) && |c| > 0
      ensures c[|c| - 1].id != p
    {
      ChainInSuperset(fewer, files, p, c);
    }
  }

  // ---------------------------------------------------------------------
  // Long chains repeat a record

  /** `s` with its first occurrence of `x` taken out. */
  function RemoveOne<T(==)>(s: seq<T>, x: T): (r: seq<T>)
    requires x in s
    ensures |r| == |s| - 1
    ensures forall y :: y in s && y != x ==> y in r
  {
    if s[0] == x then s[1..]
    else
      assert x in s[1..];
      [s[0]] + RemoveOne(s[1..], x)
  }

  /** A sequence without repeats, drawn from `s`, is no longer than `s` (the pigeonhole principle). */
  lemma {:induction false} DistinctShort<T>(c: seq<T>, s: seq<T>)
    requires forall k :: 0 <= k < |c| ==> c[k] in s
    requires forall i, j :: 0 <= i < j < |c| ==> c[i] != c[j]
    ensures |c| <= |s|
    decreases |c|
  {
    if c != [] {
      var s' := RemoveOne(s, c[0]);
      forall k | 0 <= k < |c[1..]|
        ensures c[1..][k] in s'
      {
        assert c[1..][k] == c[k + 1] && c[0] != c[k + 1];
      }
      DistinctShort(c[1..], s');
    }
  }

  /** In an acyclic store a chain never visits a record twice. */
  lemma AcyclicChainDistinct(files: seq<FileItem>, p: string, c: seq<FileItem>)
    requires Acyclic(files) && IsChain(files, p, c)
    ensures forall i, j :: 0 <= i < j < |c| ==> c[i] != c[j]
  {
    forall i, j | 0 <= i < j < |c|
      ensures c[i] != c[j]
    {
      ChainPairDistinct(files, p, c, i, j);
    }
  }

  /** The records at two positions of a chain in an acyclic store carry different ids. */
  lemma ChainPairDistinct(files: seq<FileItem>, p: string, c: seq<FileItem>, i: nat, j: nat)
    requires Acyclic(files) && IsChain(files, p, c) && i < j < |c|
    ensures c[i].id != c[j].id
  {
    ChainSlice(files, p, c, i, j + 1);
    var loop := c[i + 1..j + 1];
    assert loop[|loop| - 1] == c[j];
    NoLoop(files, c[i].id, loop);
  }

  /** The acyclicity of the store, for one chain. */
  lemma NoLoop(files: seq<FileItem>, p: string, c: seq<FileItem>)
    requires Acyclic(files) && IsChain(files, p, c) && |c| > 0
    ensures c[|c| - 1].id != p
  {
  }

  /** The records after position `i` of a chain, up to `j`, form a chain below `c[i]`. */
  lemma ChainSlice(files: seq<FileItem>, p: string, c: seq<FileItem>, i: nat, j: nat)
    requires IsChain(files, p, c) && i < j <= |c|
    ensures IsChain(files, c[i].id, c[i + 1..j])
  {
    ChainSuffix(files, p, c, i + 1);
    ChainPrefix(files, c[i].id, c[i + 1..], j - i - 1);
    assert c[i + 1..][..j - i - 1] == c[i + 1..j];
  }

  /** In an acyclic store a chain never visits more records than the store holds. */
  lemma AcyclicChainShort(files: seq<FileItem>, p: string, c: seq<FileItem>)
    requires Acyclic(files) && IsChain(files, p, c)
    ensures |c| <= |files|
  {
    forall k | 0 <= k < |c|
      ensures c[k] in files
    {
      ChainSuffix(files, p, c, k);
    }
    AcyclicChainDistinct(files, p, c);
    DistinctShort(c, files);
  }

  // ---------------------------------------------------------------------
  // The descendant ids of `deleteFiles`

  /**
   * `getAllChildIds(p)`: the children's ids, then the ids collected below
   * each child in turn. Every nested call spends one unit of `depth`;
   * `None` is the stack overflow of an unbounded recursion.
   */
  function AllChildIds(files: seq<FileItem>, p: string, depth: nat): Option<seq<string>>
    decreases depth, 0
  {
    if depth == 0 then None
    else
      var children := ChildIds(files, p);
      match AllChildIdsOf(files, children, depth - 1)
      case None => None
      case Some(below) => Some(children + below)
  }

  /** `ps.flatMap(getAllChildIds)`. */
  function AllChildIdsOf(files: seq<FileItem>, ps: seq<string>, depth: nat): Option<seq<string>>
    decreases depth, 1, |ps|
  {
    if ps == [] then Some([])
    else
      match (AllChildIds(files, ps[0], depth), AllChildIdsOf(files, ps[1..], depth))
      case (Some(first), Some(rest)) => Some(first + rest)
      case _ => None
  }

  /** Each id of the flat map comes from one of the starting ids, and each starting id contributes all of its own. */
  lemma {:induction false} AllChildIdsOfParts(files: seq<FileItem>, ps: seq<string>, depth: nat)
    requires AllChildIdsOf(files, ps, depth).Some?
    ensures forall k :: 0 <= k < |ps| ==> AllChildIds(files, ps[k], depth).Some?
    ensures forall k, x :: 0 <= k < |ps| && x in AllChildIds(files, ps[k], depth).value ==>
      x in AllChildIdsOf(files, ps, depth).value
    ensures forall x :: x in AllChildIdsOf(files, ps, depth).value ==>
      exists k :: 0 <= k < |ps| && x in AllChildIds(files, ps[k], depth).value
    decreases |ps|
  {
    if ps != [] {
      AllChildIdsOfParts(files, ps[1..], depth);
      var all := AllChildIdsOf(files, ps, depth).value;
      var first := AllChildIds(files, ps[0], depth).value;
      var rest := AllChildIdsOf(files, ps[1..], depth).value;
      assert all == first + rest;
      forall k | 0 < k < |ps|
        ensures ps[k] == ps[1..][k - 1]
      {
      }
      forall x | x in all
        ensures exists k :: 0 <= k < |ps| && x in AllChildIds(files, ps[k], depth).value
      {
        if x !in first {
          var k :| 0 <= k < |ps[1..]| && x in AllChildIds(files, ps[1..][k], depth).value;
          assert ps[1..][k] == ps[k + 1];
        }
      }
    }
  }

  /** Soundness: every collected id belongs to a record below `p`. */
  lemma {:induction false} ClosureSound(files: seq<FileItem>, p: string, depth: nat)
    requires AllChildIds(files, p, depth).Some?
    ensures forall x :: x in AllChildIds(files, p, depth).value ==>
      exists f :: Descends(files, p, f) && f.id == x
    decreases depth
  {
    var children := ChildIds(files, p);
    var below := AllChildIdsOf(files, children, depth - 1).value;
    AllChildIdsOfParts(files, children, depth - 1);
    forall x | x in AllChildIds(files, p, depth).value
      ensures exists f :: Descends(files, p, f) && f.id == x
    {
      if x in children {
        var f :| f in files && f.parent == Some(p) && f.id == x;
        assert IsChain(files, p, [f]);
      } else {
        assert x in below;
        var k :| 0 <= k < |children| && x in AllChildIds(files, children[k], depth - 1).value;
        ClosureSound(files, children[k], depth - 1);
        var f :| Descends(files, children[k], f) && f.id == x;
        assert children[k] in children;
        var g :| g in files && g.parent == Some(p) && g.id == children[k];
        DescendsThroughChild(files, p, g, f);
      }
    }
  }

  /** What lies below a child lies below its parent. */
  lemma DescendsThroughChild(files: seq<FileItem>, p: string, g: FileItem, f: FileItem)
    requires g in files && g.parent == Some(p) && Descends(files, g.id, f)
    ensures Descends(files, p, f)
  {
    var c :| IsChain(files, g.id, c) && |c| > 0 && c[|c| - 1] == f;
    assert IsChain(files, p, [g] + c) by {
      assert ([g] + c)[1..] == c;
    }
    assert ([g] + c)[|c|] == f;
  }

  /** Completeness: the id of every record below `p` is collected. */
  lemma {:induction false} ClosureComplete(files: seq<FileItem>, p: string, depth: nat, c: seq<FileItem>)
    requires AllChildIds(files, p, depth).Some?
    requires IsChain(files, p, c) && |c| > 0
    ensures c[|c| - 1].id in AllChildIds(files, p, depth).value
    decreases |c|
  {
    ChildInClosure(files, p, depth, c[0]);
    if |c| > 1 {
      ClosureComplete(files, c[0].id, depth - 1, c[1..]);
      assert c[1..][|c| - 2] == c[|c| - 1];
    }
  }

  /** When every chain below `p` is shorter than the budget, the collection finishes. */
  lemma {:induction false} ClosureFinishes(files: seq<FileItem>, p: string, depth: nat)
    requires forall c :: IsChain(files, p, c) ==> |c| < depth
    ensures AllChildIds(files, p, depth).Some?
    decreases depth, 0
  {
    assert IsChain(files, p, []);
    var children := ChildIds(files, p);
    forall k, c | 0 <= k < |children| && IsChain(files, children[k], c)
      ensures |c| < depth - 1
    {
      assert children[k] in children;
      var g :| g in files && g.parent == Some(p) && g.id == children[k];
      assert IsChain(files, p, [g] + c) by {
        assert ([g] + c)[1..] == c;
      }
    }
    ClosureOfFinishes(files, children, depth - 1);
  }

  lemma {:induction false} ClosureOfFinishes(files: seq<FileItem>, ps: seq<string>, depth: nat)
    requires forall k, c :: 0 <= k < |ps| && IsChain(files, ps[k], c) ==> |c| < depth
    ensures AllChildIdsOf(files, ps, depth).Some?
    decreases depth, 1, |ps|
  {
    if ps != [] {
      ClosureFinishes(files, ps[0], depth);
      forall k, c | 0 <= k < |ps[1..]| && IsChain(files, ps[1..][k], c)
        ensures |c| < depth
      {
        assert ps[1..][k] == ps[k + 1];
      }
      ClosureOfFinishes(files, ps[1..], depth);
    }
  }

  /** The budget used for a whole store: one more level than it has records. */
  function Budget(files: seq<FileItem>): nat
  {
    |files| + 1
  }

  /** On an acyclic store the recursion of `deleteFiles` always finishes. */
  lemma ClosureTerminates(files: seq<FileItem>, ps: seq<string>)
    requires Acyclic(files)
    ensures AllChildIdsOf(files, ps, Budget(files)).Some?
  {
    forall k, c | 0 <= k < |ps| && IsChain(files, ps[k], c)
      ensures |c| < Budget(files)
    {
      AcyclicChainShort(files, ps[k], c);
    }
    ClosureOfFinishes(files, ps, Budget(files));
  }

  /** The recursion collects ids, and on a cyclic store it cannot finish however deep the stack. */
  lemma CycleExhausts(files: seq<FileItem>, p: string, c: seq<FileItem>, depth: nat)
    requires IsChain(files, p, c) && |c| > 0 && c[|c| - 1].id == p
    ensures AllChildIds(files, p, depth).None?
  {
    if AllChildIds(files, p, depth).Some? {
      CycleChain(files, p, c, depth);
      var d :| IsChain(files, p, d) && |d| == depth + 1;
      ClosureTooDeep(files, p, depth, d);
    }
  }

  /** Going round a cycle gives chains of every length. */
  lemma {:induction false} CycleChain(files: seq<FileItem>, p: string, c: seq<FileItem>, n: nat)
    requires IsChain(files, p, c) && |c| > 0 && c[|c| - 1].id == p
    ensures exists d :: IsChain(files, p, d) && |d| == n + 1
    decreases n
  {
    if n + 1 <= |c| {
      ChainPrefix(files, p, c, n + 1);
      assert |c[..n + 1]| == n + 1;
    } else {
      CycleChain(files, p, c, n - |c|);
      var d :| IsChain(files, p, d) && |d| == n - |c| + 1;
      ChainConcat(files, p, c, d);
      assert |c + d| == n + 1;
    }
  }

  /** A chain ending at a record with id `q`, followed by a chain from `q`. */
  lemma {:induction false} ChainConcat(files: seq<FileItem>, p: string, c: seq<FileItem>, d: seq<FileItem>)
    requires IsChain(files, p, c) && IsChain(files, Above(p, c, |c|), d)
    ensures IsChain(files, p, c + d)
    decreases |c|
  {
    if c == [] {
      assert c + d == d;
    } else {
      ChainConcat(files, c[0].id, c[1..], d);
      assert (c + d)[0] == c[0];
      assert (c + d)[1..] == c[1..] + d;
      assert Above(c[0].id, c[1..], |c| - 1) == Above(p, c, |c|);
    }
  }

  /** A finished collection is deeper than every chain below `p`. */
  lemma {:induction false} ClosureTooDeep(files: seq<FileItem>, p: string, depth: nat, d: seq<FileItem>)
    requires AllChildIds(files, p, depth).Some?
    requires IsChain(files, p, d)
    ensures |d| < depth
    decreases |d|
  {
    if |d| > 0 {
      ChildInClosure(files, p, depth, d[0]);
      ClosureTooDeep(files, d[0].id, depth - 1, d[1..]);
    }
  }

  /** When the collection below `p` finishes, so does the one below each child, one level shallower. */
  /** A child's id and its whole collection are part of its parent's collection. */
  lemma ChildInClosure(files: seq<FileItem>, p: string, depth: nat, g: FileItem)
    requires AllChildIds(files, p, depth).Some?
    requires g in files && g.parent == Some(p)
    ensures depth > 0 && g.id in AllChildIds(files, p, depth).value
    ensures AllChildIds(files, g.id, depth - 1).Some?
    ensures forall x :: x in AllChildIds(files, g.id, depth - 1).value ==> x in AllChildIds(files, p, depth).value
  {
    var children := ChildIds(files, p);
    assert g.id in children;
    var k :| 0 <= k < |children| && children[k] == g.id;
    PartOfClosure(files, children, depth - 1, k);
    var below := AllChildIdsOf(files, children, depth - 1).value;
    assert AllChildIds(files, p, depth).value == children + below;
  }

  /** One starting id's collection is part of the flat map. */
  lemma PartOfClosure(files: seq<FileItem>, ps: seq<string>, depth: nat, k: nat)
    requires AllChildIdsOf(files, ps, depth).Some? && k < |ps|
    ensures AllChildIds(files, ps[k], depth).Some?
    ensures forall x :: x in AllChildIds(files, ps[k], depth).value ==> x in AllChildIdsOf(files, ps, depth).value
  {
    AllChildIdsOfParts(files, ps, depth);
  }

  // ---------------------------------------------------------------------
  // Keeping records in order

  /** `a` is `b` with some elements left out, the rest in their order. */
  predicate SubsequenceOf<T(==)>(a: seq<T>, b: seq<T>)
    decreases |b|
  {
    if a == [] then true
    else if b == [] then false
    else if a[0] == b[0] then SubsequenceOf(a[1..], b[1..])
    else SubsequenceOf(a, b[1..])
  }

  /** `files.filter(f => !drop.includes(f.id))`. */
  function WithoutIds(files: seq<FileItem>, drop: seq<string>): (r: seq<FileItem>)
    ensures forall f :: f in r <==> f in files && f.id !in drop
    ensures SubsequenceOf(r, files)
    ensures |r| <= |files|
  {
    if files == [] then []
    else
      var rest := WithoutIds(files[1..], drop);
      assert forall f :: f in files <==> f == files[0] || f in files[1..];
      if files[0].id in drop then rest else [files[0]] + rest
  }

  /** Dropping records keeps ids unique. */
  lemma {:induction false} UniqueSubsequence(a: seq<FileItem>, b: seq<FileItem>)
    requires SubsequenceOf(a, b) && UniqueIds(b)
    ensures UniqueIds(a)
    decreases |b|
  {
    if a != [] && b != [] {
      assert UniqueIds(b[1..]) by {
        forall i, j | 0 <= i < j < |b[1..]|
          ensures b[1..][i].id != b[1..][j].id
        {
          assert b[1..][i] == b[i + 1] && b[1..][j] == b[j + 1];
        }
      }
      if a[0] == b[0] {
        UniqueSubsequence(a[1..], b[1..]);
        SubsequenceMembers(a[1..], b[1..]);
        forall i, j | 0 <= i < j < |a|
          ensures a[i].id != a[j].id
        {
          assert a[j] == a[1..][j - 1];
          if i > 0 {
            assert a[i] == a[1..][i - 1];
          } else {
            assert a[j] in b[1..];
            var m :| 0 <= m < |b[1..]| && b[1..][m] == a[j];
            assert b[m + 1] == a[j];
          }
        }
      } else {
        UniqueSubsequence(a, b[1..]);
      }
    }
  }

  lemma {:induction false} SubsequenceMembers(a: seq<FileItem>, b: seq<FileItem>)
    requires SubsequenceOf(a, b)
    ensures forall f :: f in a ==> f in b
    decreases |b|
  {
    if a != [] && b != [] {
      if a[0] == b[0] {
        SubsequenceMembers(a[1..], b[1..]);
        assert forall f :: f in a ==> f == a[0] || f in a[1..];
      } else {
        SubsequenceMembers(a, b[1..]);
      }
    }
  }

  // ---------------------------------------------------------------------
  // How the invariants carry over

  /** Two stores with the same ids, parents and kinds at every position. */
  predicate SameShape(a: seq<FileItem>, b: seq<FileItem>)
  {
    |a| == |b| &&
    forall k :: 0 <= k < |a| ==> a[k].id == b[k].id && a[k].parent == b[k].parent && a[k].kind == b[k].kind
  }

  lemma {:induction false} ChainAcrossShape(a: seq<FileItem>, b: seq<FileItem>, p: string, c: seq<FileItem>)
    requires SameShape(a, b) && IsChain(a, p, c)
    ensures exists d: seq<FileItem> :: IsChain(b, p, d) && |d| == |c| && (|c| > 0 ==> d[|d| - 1].id == c[|c| - 1].id)
    decreases |c|
  {
    if c == [] {
      assert IsChain(b, p, []);
    } else {
      var k :| 0 <= k < |a| && a[k] == c[0];
      ChainAcrossShape(a, b, c[0].id, c[1..]);
      var d': seq<FileItem> :| IsChain(b, c[0].id, d') && |d'| == |c| - 1 && (|c| > 1 ==> d'[|d'| - 1].id == c[|c| - 1].id);
      var d := [b[k]] + d';
      assert d[1..] == d';
      assert IsChain(b, p, d);
    }
  }

  /** Changing fields other than id, parent and kind keeps all three store invariants. */
  lemma ShapeKeepsInvariants(a: seq<FileItem>, b: seq<FileItem>)
    requires SameShape(a, b)
    ensures UniqueIds(b) ==> UniqueIds(a)
    ensures Acyclic(b) ==> Acyclic(a)
    ensures ParentsAreFolders(b) ==> ParentsAreFolders(a)
  {
    if Acyclic(b) {
      forall p: string, c: seq<FileItem> | IsChain(a, p, c) && |c| > 0
        ensures c[|c| - 1].id != p
      {
        ChainAcrossShape(a, b, p, c);
      }
    }
    if ParentsAreFolders(b) {
      forall f | f in a && f.parent.Some?
        ensures exists g :: g in a && g.id == f.parent.value && g.kind == Folder
      {
        var k :| 0 <= k < |a| && a[k] == f;
        assert b[k] in b;
        var g :| g in b && g.id == f.parent.value && g.kind == Folder;
        var m :| 0 <= m < |b| && b[m] == g;
        assert a[m] in a;
      }
    }
  }

  /** Every parent reference of `extra` names a folder of `files`. */
  predicate ParentsAmong(extra: seq<FileItem>, files: seq<FileItem>)
  {
    forall g :: g in extra && g.parent.Some? ==>
      exists f :: f in files && f.id == g.parent.value && f.kind == Folder
  }

  /**
   * Appending records with fresh ids that nothing hangs below keeps a store
   * acyclic; with ids distinct among themselves it keeps ids unique; and with
   * parents that are stored folders (or none) it keeps parents folders.
   */
  lemma AppendLeaves(files: seq<FileItem>, extra: seq<FileItem>)
    requires forall g, f :: g in extra && f in files ==> g.id != f.id
    requires forall g, h :: g in extra && h in files + extra ==> h.parent != Some(g.id)
    ensures Acyclic(files) ==> Acyclic(files + extra)
    ensures UniqueIds(files) && UniqueIds(extra) ==> UniqueIds(files + extra)
    ensures ParentsAreFolders(files) && ParentsAmong(extra, files) ==> ParentsAreFolders(files + extra)
  {
    var all := files + extra;
    if Acyclic(files) {
      forall p: string, c: seq<FileItem> | IsChain(all, p, c) && |c| > 0
        ensures c[|c| - 1].id != p
      {
        forall k | 0 <= k < |c|
          ensures c[k] in all
          ensures k > 0 ==> c[k].parent == Some(c[k - 1].id)
          ensures k == 0 ==> c[k].parent == Some(p)
        {
          ChainSuffix(all, p, c, k);
        }
        forall k | 0 <= k < |c| - 1
          ensures c[k] in files
        {
          assert c[k + 1] in all && c[k + 1].parent == Some(c[k].id);
        }
        var last := c[|c| - 1];
        if last in files {
          ChainElsewhere(all, files, p, c);
        } else {
          assert last in extra;
          assert c[0] in all && c[0].parent == Some(p);
        }
      }
    }
    if UniqueIds(files) && UniqueIds(extra) {
      forall i, j | 0 <= i < j < |all|
        ensures all[i].id != all[j].id
      {
        if j < |files| {
          assert all[i] == files[i] && all[j] == files[j];
        } else if i < |files| {
          assert all[i] == files[i] && all[j] == extra[j - |files|];
          assert all[j] in extra;
        } else {
          assert all[i] == extra[i - |files|] && all[j] == extra[j - |files|];
        }
      }
    }
  }

  /** A rank that grows from parent to child rules out cycles. */
  lemma RankedAcyclic(files: seq<FileItem>, rank: map<string, nat>)
    requires forall f :: f in files ==> f.id in rank
    requires forall f :: f in files && f.parent.Some? && f.parent.value in rank ==> rank[f.parent.value] < rank[f.id]
    ensures Acyclic(files)
  {
    forall p: string, c: seq<FileItem> | IsChain(files, p, c) && |c| > 0
      ensures c[|c| - 1].id != p
    {
      RankGrows(files, rank, p, c);
    }
  }

  lemma {:induction false} RankGrows(files: seq<FileItem>, rank: map<string, nat>, p: string, c: seq<FileItem>)
    requires forall f :: f in files ==> f.id in rank
    requires forall f :: f in files && f.parent.Some? && f.parent.value in rank ==> rank[f.parent.value] < rank[f.id]
    requires IsChain(files, p, c) && |c| > 0
    ensures c[|c| - 1].id in rank
    ensures p in rank ==> rank[p] < rank[c[|c| - 1].id]
    decreases |c|
  {
    if |c| > 1 {
      RankGrows(files, rank, c[0].id, c[1..]);
    }
  }
}
