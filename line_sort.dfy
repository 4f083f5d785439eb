/**
 * `lines.sort()` on the lines of a file: JavaScript's default sort puts
 * strings in UTF-16 code-unit order; `Text.LessEq` is scalar-value order,
 * the same order when no character is above U+FFFF. The array method sorts in
 * place by insertion; `Sorted` is the same order as a function, and any
 * two ordered arrangements of the same lines are equal, so the two agree.
 */
module LineSort {
  import opened Text

  /** Every line is at most the next one. */
  predicate Ordered(s: seq<string>)
  {
    forall k :: 0 < k < |s| ==> LessEq(s[k - 1], s[k])
  }

  /** In an ordered sequence every line is at most every later one. */
  lemma {:induction false} OrderedPairs(s: seq<string>, i: nat, j: nat)
    requires Ordered(s) && i <= j < |s|
    ensures LessEq(s[i], s[j])
    decreases j - i
  {
    if i == j {
      LessEqTotal(s[i], s[i]);
    } else {
      OrderedPairs(s, i, j - 1);
      LessEqTransitive(s[i], s[j - 1], s[j]);
    }
  }

  /** The line placed into an ordered sequence before the first line above it. */
  function Insert(x: string, s: seq<string>): (r: seq<string>)
    requires Ordered(s)
    ensures Ordered(r)
    ensures multiset(r) == multiset(s) + multiset{x}
    ensures |r| == |s| + 1
    ensures r[0] == x || (|s| > 0 && r[0] == s[0])
  {
    if s == [] then [x]
    else if LessEq(x, s[0]) then [x] + s
    else
      LessEqTotal(x, s[0]);
      var rest := Insert(x, s[1..]);
      assert s == [s[0]] + s[1..];
      [s[0]] + rest
  }

  /** The lines in scalar-value order. */
  function Sorted(lines: seq<string>): (r: seq<string>)
    ensures Ordered(r)
    ensures multiset(r) == multiset(lines)
  {
    if lines == [] then []
    else
      assert lines == [lines[0]] + lines[1..];
      Insert(lines[0], Sorted(lines[1..]))
  }

  /** Two ordered arrangements of the same lines are the same sequence. */
  lemma {:induction false} OrderedUnique(a: seq<string>, b: seq<string>)
    requires Ordered(a) && Ordered(b) && multiset(a) == multiset(b)
    ensures a == b
    decreases |a|
  {
    assert |a| == |multiset(a)| == |b|;
    if a != [] {
      SameLeast(a, b);
      DropHead(a);
      DropHead(b);
      OrderedUnique(a[1..], b[1..]);
      assert a == [a[0]] + a[1..] && b == [b[0]] + b[1..];
    }
  }

  /** Ordered arrangements of the same lines start with the same line. */
  lemma SameLeast(a: seq<string>, b: seq<string>)
    requires Ordered(a) && Ordered(b) && multiset(a) == multiset(b) && a != [] && b != []
    ensures a[0] == b[0]
  {
    assert a[0] in multiset(b) && b[0] in multiset(a);
    var i :| 0 <= i < |b| && b[i] == a[0];
    var j :| 0 <= j < |a| && a[j] == b[0];
    OrderedPairs(b, 0, i);
    OrderedPairs(a, 0, j);
    LessEqAntisymmetric(a[0], b[0]);
  }

  lemma DropHead(s: seq<string>)
    requires s != []
    ensures multiset(s[1..]) == multiset(s) - multiset{s[0]}
  {
    assert s == [s[0]] + s[1..];
  }

  /** Sorting ordered lines leaves them as they are. */
  lemma SortedIdempotent(lines: seq<string>)
    ensures Sorted(Sorted(lines)) == Sorted(lines)
  {
    OrderedUnique(Sorted(Sorted(lines)), Sorted(lines));
  }

  /** Sorting is blind to the order it is given: a permutation sorts alike. */
  lemma SortedIgnoresOrder(a: seq<string>, b: seq<string>)
    requires multiset(a) == multiset(b)
    ensures Sorted(a) == Sorted(b)
  {
    OrderedUnique(Sorted(a), Sorted(b));
  }

  /** The first `n` lines are ordered. */
  predicate OrderedPrefix(s: seq<string>, n: nat)
  {
    forall k :: 0 < k < n && k < |s| ==> LessEq(s[k - 1], s[k])
  }

  /**
   * The state of one insertion: the first `i + 1` lines are ordered except
   * at the gap `j`, where the line being moved sits, and the lines either
   * side of it are in order with each other.
   */
  predicate OrderedExceptAt(s: seq<string>, i: nat, j: nat)
  {
    j <= i < |s| &&
    (forall k :: 0 < k <= i && k != j ==> LessEq(s[k - 1], s[k])) &&
    (0 < j < i ==> LessEq(s[j - 1], s[j + 1]))
  }

  /** Swapping the moved line with a larger left neighbour moves the gap one place left. */
  lemma SwapStep(s: seq<string>, i: nat, j: nat)
    requires OrderedExceptAt(s, i, j) && 0 < j && !LessEq(s[j - 1], s[j])
    ensures OrderedExceptAt(s[j - 1 := s[j]][j := s[j - 1]], i, j - 1)
    ensures multiset(s[j - 1 := s[j]][j := s[j - 1]]) == multiset(s)
  {
    LessEqTotal(s[j - 1], s[j]);
    var t := s[j - 1 := s[j]][j := s[j - 1]];
    forall k | 0 < k <= i && k != j - 1
      ensures LessEq(t[k - 1], t[k])
    {
      if k == j + 1 {
        assert t[k - 1] == s[j - 1] && t[k] == s[j + 1];
      } else if k != j {
        assert t[k - 1] == s[k - 1] && t[k] == s[k];
      }
    }
    if 1 < j {
      assert t[j - 2] == s[j - 2] && t[j] == s[j - 1];
    }
  }

  /** `lines.sort()`: insertion sort by swapping neighbours. */
  method SortLines(a: array<string>)
    modifies a
    ensures a[..] == Sorted(old(a[..]))
  {
    var i := 0;
    while i < a.Length
      invariant 0 <= i <= a.Length
      invariant OrderedPrefix(a[..], i)
      invariant multiset(a[..]) == multiset(old(a[..]))
    {
      InsertLast(a, i);
      i := i + 1;
    }
    OrderedUnique(a[..], Sorted(old(a[..])));
  }

  /** Moves `a[i]` down into the ordered prefix `a[..i]`. */
  method InsertLast(a: array<string>, i: nat)
    requires i < a.Length && OrderedPrefix(a[..], i)
    modifies a
    ensures OrderedPrefix(a[..], i + 1)
    ensures multiset(a[..]) == multiset(old(a[..]))
  {
    var j: nat := i;
    while j > 0 && !LessEq(a[j - 1], a[j])
      invariant OrderedExceptAt(a[..], i, j)
      invariant multiset(a[..]) == multiset(old(a[..]))
    {
      SwapStep(a[..], i, j);
      a[j - 1], a[j] := a[j], a[j - 1];
      j := j - 1;
    }
  }
}
