/**
 * The JavaScript string primitives the core relies on, over `string`
 * (one `char` per Unicode scalar value): `toLowerCase` on the Latin-1
 * range, `includes`, `indexOf`, `replace` of the first occurrence,
 * `endsWith`, `split('\n')` / `join('\n')`,
 * `Number.prototype.toString(radix)` and the order that `<` and the default
 * `Array.prototype.sort` use. That order compares UTF-16 code units; the
 * scalar-value order here equals it on strings with no character above
 * U+FFFF.
 */
module Text {
  import opened FileTypes

  // ---------------------------------------------------------------------
  // Lower case

  /** `toLowerCase` on one character of the Latin-1 range; other characters are kept. */
  function LowerChar(c: char): (r: char)
    ensures (r == '.') <==> (c == '.')
    ensures r == '\n' <==> c == '\n'
  {
    if 'A' <= c <= 'Z' || (0xC0 <= c as int <= 0xDE && c as int != 0xD7) then (c as int + 32) as char
    else c
  }

  function Lower(s: string): string
  {
    seq(|s|, i requires 0 <= i < |s| => LowerChar(s[i]))
  }

  lemma LowerIdempotent(s: string)
    ensures Lower(Lower(s)) == Lower(s)
  {
    forall i | 0 <= i < |s|
      ensures Lower(Lower(s))[i] == Lower(s)[i]
    {
      var c := s[i];
      assert 'A' <= c <= 'Z' ==> 'a' <= LowerChar(c) <= 'z';
    }
  }

  lemma LowerSlice(s: string, i: int, j: int)
    requires 0 <= i <= j <= |s|
    ensures Lower(s[i..j]) == Lower(s)[i..j]
  {
  }

  // ---------------------------------------------------------------------
  // Searching inside a string

  /** `s` holds `t` at position `k`. */
  predicate At(s: string, t: string, k: int)
  {
    0 <= k && k + |t| <= |s| && s[k..k + |t|] == t
  }

  /** The first position at or after `from` where `t` occurs in `s`. */
  function IndexFrom(s: string, t: string, from: nat): (r: Option<nat>)
    ensures r.Some? ==> from <= r.value && At(s, t, r.value)
    ensures r.Some? ==> forall j :: from <= j < r.value ==> !At(s, t, j)
    ensures r.None? ==> forall j :: from <= j ==> !At(s, t, j)
    decreases |s| - from
  {
    if from + |t| > |s| then None
    else if s[from..from + |t|] == t then Some(from)
    else IndexFrom(s, t, from + 1)
  }

  /** `s.indexOf(t)`, with `None` for -1. */
  function IndexOf(s: string, t: string): (r: Option<nat>)
    ensures r.Some? ==> At(s, t, r.value) && forall j :: 0 <= j < r.value ==> !At(s, t, j)
    ensures r.None? ==> forall j :: !At(s, t, j)
  {
    IndexFrom(s, t, 0)
  }

  /** `s.includes(t)`. */
  function Contains(s: string, t: string): (r: bool)
    ensures r <==> exists k :: At(s, t, k)
    ensures t == [] ==> r
  {
    assert At(s, [], 0);
    IndexOf(s, t).Some?
  }

  /** `s.replace(pattern, replacement)` with a string pattern: only the first occurrence is replaced. */
  function ReplaceFirst(s: string, pattern: string, replacement: string): (r: string)
    ensures IndexOf(s, pattern).None? ==> r == s
    ensures IndexOf(s, pattern).Some? ==>
      var k := IndexOf(s, pattern).value; r == s[..k] + replacement + s[k + |pattern|..]
  {
    match IndexOf(s, pattern)
    case None => s
    case Some(k) => s[..k] + replacement + s[k + |pattern|..]
  }

  /** `s.endsWith(suffix)`. */
  predicate EndsWith(s: string, suffix: string)
  {
    |suffix| <= |s| && s[|s| - |suffix|..] == suffix
  }

  // ---------------------------------------------------------------------
  // Lines

  /** `s.split('\n')`: never empty, and no piece holds a line break. */
  function Split(s: string): (r: seq<string>)
    ensures |r| >= 1
    ensures forall k :: 0 <= k < |r| ==> '\n' !in r[k]
    decreases |s|
  {
    if s == [] then [""]
    else if s[0] == '\n' then [""] + Split(s[1..])
    else
      var rest := Split(s[1..]);
      [[s[0]] + rest[0]] + rest[1..]
  }

  /** `lines.join('\n')`. */
  function Join(lines: seq<string>): string
  {
    if |lines| == 0 then ""
    else if |lines| == 1 then lines[0]
    else lines[0] + "\n" + Join(lines[1..])
  }

  /** Joining the pieces of a split gives the text back. */
  lemma {:induction false} JoinSplit(s: string)
    ensures Join(Split(s)) == s
    decreases |s|
  {
    if s == [] {
    } else if s[0] == '\n' {
      JoinSplit(s[1..]);
      var rest := Split(s[1..]);
      assert Split(s) == [""] + rest;
      assert Join([""] + rest) == "" + "\n" + Join(rest);
      assert s == "\n" + s[1..];
    } else {
      var rest := Split(s[1..]);
      JoinSplit(s[1..]);
      var first := [s[0]] + rest[0];
      assert Split(s) == [first] + rest[1..];
      if |rest| == 1 {
        assert Join([first]) == first;
        assert s == [s[0]] + s[1..];
      } else {
        var tail := Join(rest[1..]);
        assert Join([first] + rest[1..]) == first + "\n" + tail by {
          assert ([first] + rest[1..])[1..] == rest[1..];
        }
        assert s[1..] == rest[0] + "\n" + tail;
        assert s == [s[0]] + s[1..];
      }
    }
  }

  /** A line without a break, placed before the rest, extends the first piece of the split. */
  lemma {:induction false} SplitPrefix(line: string, rest: string)
    requires '\n' !in line
    ensures Split(line + rest) == [line + Split(rest)[0]] + Split(rest)[1..]
    decreases |line|
  {
    if line == [] {
      assert line + rest == rest;
      assert line + Split(rest)[0] == Split(rest)[0];
      assert Split(rest) == [Split(rest)[0]] + Split(rest)[1..];
    } else {
      SplitPrefix(line[1..], rest);
      assert (line + rest)[1..] == line[1..] + rest;
      assert [line[0]] + (line[1..] + Split(rest)[0]) == line + Split(rest)[0];
    }
  }

  /** Splitting a join of break-free lines gives the lines back. */
  lemma {:induction false} SplitJoin(lines: seq<string>)
    requires |lines| >= 1
    requires forall k :: 0 <= k < |lines| ==> '\n' !in lines[k]
    ensures Split(Join(lines)) == lines
    decreases |lines|
  {
    if |lines| == 1 {
      SplitPrefix(lines[0], "");
      assert lines[0] + "" == lines[0];
    } else {
      SplitJoin(lines[1..]);
      var tail := "\n" + Join(lines[1..]);
      SplitPrefix(lines[0], tail);
      assert Join(lines) == lines[0] + tail;
      assert tail[0] == '\n' && tail[1..] == Join(lines[1..]);
      assert Split(tail) == [""] + lines[1..];
      assert Split(tail)[0] == "" && Split(tail)[1..] == lines[1..];
      assert lines[0] + "" == lines[0];
      assert lines == [lines[0]] + lines[1..];
    }
  }

  /** The number of pieces is one more than the number of line breaks. */
  lemma {:induction false} SplitCount(s: string)
    ensures |Split(s)| == multiset(s)['\n'] + 1
    decreases |s|
  {
    if s != [] {
      SplitCount(s[1..]);
      assert s == [s[0]] + s[1..];
      assert multiset(s) == multiset{s[0]} + multiset(s[1..]);
    }
  }

  // ---------------------------------------------------------------------
  // Numbers as text

  /** The lower-case digit for a value below 16. */
  function DigitChar(d: nat): (c: char)
    requires d < 16
  {
    if d < 10 then ('0' as int + d) as char else ('a' as int + d - 10) as char
  }

  /** The value of a digit, or `None` for any other character. */
  function DigitValue(c: char): Option<nat>
  {
    if '0' <= c <= '9' then Some(c as int - '0' as int)
    else if 'a' <= c <= 'f' then Some(c as int - 'a' as int + 10)
    else None
  }

  /** `n.toString(radix)` for a radix of 10 or 16. */
  function ToRadix(n: nat, radix: nat): (r: string)
    requires radix == 10 || radix == 16
    ensures |r| >= 1
    ensures forall k :: 0 <= k < |r| ==> DigitValue(r[k]).Some? && DigitValue(r[k]).value < radix
    ensures r[0] == '0' ==> n == 0 && r == "0"
    decreases n
  {
    if n < radix then [DigitChar(n)] else ToRadix(n / radix, radix) + [DigitChar(n % radix)]
  }

  /** The value of a string of digits in the given radix. */
  function FromRadix(s: string, radix: nat): Option<nat>
    requires radix == 10 || radix == 16
  {
    if s == [] then Some(0)
    else
      match (FromRadix(s[..|s| - 1], radix), DigitValue(s[|s| - 1]))
      case (Some(v), Some(d)) => if d < radix then Some(v * radix + d) else None
      case _ => None
  }

  /** Reading back the digits of a number gives the number. */
  lemma {:induction false} FromToRadix(n: nat, radix: nat)
    requires radix == 10 || radix == 16
    ensures FromRadix(ToRadix(n, radix), radix) == Some(n)
    decreases n
  {
    var r := ToRadix(n, radix);
    if n < radix {
      DigitRoundTrip(n);
      assert r[..0] == [];
    } else {
      var q, d := n / radix, n % radix;
      FromToRadix(q, radix);
      FromRadixAppend(ToRadix(q, radix), d, radix);
      assert r == ToRadix(q, radix) + [DigitChar(d)];
    }
  }

  /** Appending a digit multiplies the value read so far by the radix and adds the digit. */
  lemma FromRadixAppend(s: string, d: nat, radix: nat)
    requires radix == 10 || radix == 16
    requires d < radix && FromRadix(s, radix).Some?
    ensures FromRadix(s + [DigitChar(d)], radix) == Some(FromRadix(s, radix).value * radix + d)
  {
    DigitRoundTrip(d);
    assert (s + [DigitChar(d)])[..|s|] == s;
  }

  /** Each digit reads back as its value. */
  lemma DigitRoundTrip(d: nat)
    requires d < 16
    ensures DigitValue(DigitChar(d)) == Some(d)
  {
  }

  /** `n.toString()`: the decimal digits of `n`. */
  function NatToString(n: nat): string
  {
    ToRadix(n, 10)
  }

  /** Different numbers print differently. */
  lemma NatToStringInjective(a: nat, b: nat)
    requires NatToString(a) == NatToString(b)
    ensures a == b
  {
    FromToRadix(a, 10);
    FromToRadix(b, 10);
  }

  // ---------------------------------------------------------------------
  // Code-unit order

  /**
   * `a <= b` on strings: lexicographic by scalar value, a prefix first; the
   * same as JavaScript's code-unit order when no character is above U+FFFF.
   */
  predicate LessEq(a: string, b: string)
    decreases |a|
  {
    if a == [] then true
    else if b == [] then false
    else if a[0] != b[0] then a[0] < b[0]
    else LessEq(a[1..], b[1..])
  }

  lemma {:induction false} LessEqTotal(a: string, b: string)
    ensures LessEq(a, b) || LessEq(b, a)
    decreases |a|
  {
    if a != [] && b != [] && a[0] == b[0] {
      LessEqTotal(a[1..], b[1..]);
    }
  }

  lemma {:induction false} LessEqAntisymmetric(a: string, b: string)
    requires LessEq(a, b) && LessEq(b, a)
    ensures a == b
    decreases |a|
  {
    if a != [] {
      LessEqAntisymmetric(a[1..], b[1..]);
      assert a == [a[0]] + a[1..] && b == [b[0]] + b[1..];
    }
  }

  lemma {:induction false} LessEqTransitive(a: string, b: string, c: string)
    requires LessEq(a, b) && LessEq(b, c)
    ensures LessEq(a, c)
    decreases |a|
  {
    if a != [] && b != [] && c != [] && a[0] == b[0] && b[0] == c[0] {
      LessEqTransitive(a[1..], b[1..], c[1..]);
    }
  }
}
