/** String helpers with Ruby's semantics: `Array#join`, `String#split` with a
    one-character pattern, `String#<=>`, `Array#sort` under that order, and the
    left-justified padding of `format("%-Ns")`. */
module Strings {

  /** `parts.join(sep)`: the parts with `sep` between neighbours. */
  function Join(parts: seq<string>, sep: string): string
    decreases |parts|
  {
    if |parts| == 0 then ""
    else if |parts| == 1 then parts[0]
    else parts[0] + sep + Join(parts[1..], sep)
  }

  /** Two parts join around one separator. */
  lemma JoinPair(parts: seq<string>, sep: string)
    requires |parts| == 2
    ensures Join(parts, sep) == parts[0] + sep + parts[1]
  {
    assert Join(parts[1..], sep) == parts[1];
  }

  /** Joining one more part appends the separator and that part. */
  lemma {:induction false} JoinSnoc(parts: seq<string>, x: string, sep: string)
    requires |parts| > 0
    ensures Join(parts + [x], sep) == Join(parts, sep) + sep + x
    decreases |parts|
  {
    if |parts| == 1 {
      assert parts + [x] == [parts[0], x];
      assert [parts[0], x][1..] == [x];
    } else {
      assert (parts + [x])[0] == parts[0] && (parts + [x])[1..] == parts[1..] + [x];
      JoinSnoc(parts[1..], x, sep);
    }
  }

  /** `parts.join`: the parts with nothing between them. */
  function Concat(parts: seq<string>): string
    decreases |parts|
  {
    if |parts| == 0 then "" else parts[0] + Concat(parts[1..])
  }

  /** Number of occurrences of `c` in `s`. */
  function Count(s: string, c: char): nat
    decreases |s|
  {
    if |s| == 0 then 0 else (if s[0] == c then 1 else 0) + Count(s[1..], c)
  }

  lemma {:induction false} CountAppend(a: string, b: string, c: char)
    ensures Count(a + b, c) == Count(a, c) + Count(b, c)
    decreases |a|
  {
    if |a| == 0 {
      assert a + b == b;
    } else {
      assert (a + b)[1..] == a[1..] + b;
      CountAppend(a[1..], b, c);
    }
  }

  lemma {:induction false} CountAbsent(s: string, c: char)
    requires c !in s
    ensures Count(s, c) == 0
    decreases |s|
  {
    if |s| > 0 {
      assert c !in s[1..] by {
        forall i | 0 <= i < |s| - 1 ensures s[1..][i] != c {
          assert s[1..][i] == s[i + 1];
        }
      }
      CountAbsent(s[1..], c);
    }
  }

  /** All fields between occurrences of `c`, empty ones included: one more
      field than there are separators, none holding the separator, and joining
      them back with `c` gives `s` again. */
  function Fields(s: string, c: char): (r: seq<string>)
    ensures |r| == Count(s, c) + 1
    ensures forall i :: 0 <= i < |r| ==> c !in r[i]
    ensures Join(r, [c]) == s
    decreases |s|
  {
    if |s| == 0 then [""]
    else
      var rest := Fields(s[1..], c);
      if s[0] == c then
        assert Join([""] + rest, [c]) == [c] + Join(rest, [c]) by {
          assert ([""] + rest)[1..] == rest;
        }
        [""] + rest
      else
        var r := [[s[0]] + rest[0]] + rest[1..];
        assert c !in [s[0]] + rest[0];
        assert Join(r, [c]) == [s[0]] + Join(rest, [c]) by {
          if |rest| > 1 {
            assert r[1..] == rest[1..];
          }
        }
        assert s == [s[0]] + s[1..];
        r
  }

  /** Fields of a separator-free head followed by more text: the head is glued
      to the first field of the rest. */
  lemma {:induction false} FieldsOfFreeHead(a: string, t: string, c: char)
    requires c !in a
    ensures Fields(a + t, c) == [a + Fields(t, c)[0]] + Fields(t, c)[1..]
    decreases |a|
  {
    if |a| > 0 {
      var f := Fields(t, c);
      assert (a + t)[0] == a[0] && (a + t)[1..] == a[1..] + t;
      assert c !in a[1..];
      FieldsOfFreeHead(a[1..], t, c);
      var rest := Fields(a[1..] + t, c);
      assert rest[0] == a[1..] + f[0] && rest[1..] == f[1..];
      assert [a[0]] + rest[0] == a + f[0];
    } else {
      var f := Fields(t, c);
      assert a + t == t;
      assert a + f[0] == f[0];
      assert [f[0]] + f[1..] == f;
    }
  }

  /** Splitting a join of separator-free parts gives the parts back. */
  lemma {:induction false} FieldsOfJoin(parts: seq<string>, c: char)
    requires |parts| > 0
    requires forall i :: 0 <= i < |parts| ==> c !in parts[i]
    ensures Fields(Join(parts, [c]), c) == parts
    decreases |parts|
  {
    if |parts| == 1 {
      FieldsOfFreeHead(parts[0], "", c);
      assert parts[0] + "" == parts[0];
    } else {
      var t := Join(parts[1..], [c]);
      FieldsOfJoin(parts[1..], c);
      assert Join(parts, [c]) == parts[0] + ([c] + t);
      FieldsOfFreeHead(parts[0], [c] + t, c);
      var g := Fields([c] + t, c);
      assert g == [""] + Fields(t, c) by {
        assert ([c] + t)[1..] == t;
      }
      assert g[0] == "" && g[1..] == parts[1..];
      assert parts[0] + g[0] == parts[0];
      assert parts == [parts[0]] + parts[1..];
    }
  }

  /** `fs` without its run of trailing empty strings. */
  function DropTrailingEmpty(fs: seq<string>): (r: seq<string>)
    ensures r <= fs
    ensures r == [] || r[|r| - 1] != ""
    ensures forall i :: |r| <= i < |fs| ==> fs[i] == ""
    decreases |fs|
  {
    if |fs| == 0 then []
    else if fs[|fs| - 1] == "" then DropTrailingEmpty(fs[..|fs| - 1])
    else fs
  }

  /** Ruby's `s.split(c)` for a one-character pattern: the fields, trailing
      empty ones removed (so `""` splits into no fields at all). */
  function Split(s: string, c: char): (r: seq<string>)
    ensures forall i :: 0 <= i < |r| ==> c !in r[i]
    ensures r == [] || r[|r| - 1] != ""
  {
    DropTrailingEmpty(Fields(s, c))
  }

  /** `split` is the fields with empty ones dropped from the end only: the
      result is a prefix of the fields and every field dropped is empty. */
  lemma SplitOfFields(s: string, c: char)
    ensures Split(s, c) <= Fields(s, c)
    ensures forall i :: |Split(s, c)| <= i < |Fields(s, c)| ==> Fields(s, c)[i] == ""
  {
  }

  /** Ruby's `String#<=>`: lexicographic by character code, a proper prefix
      sorting first. On Unicode scalar values this is the byte order of the
      UTF-8 encodings that Ruby compares. */
  function Compare(a: string, b: string): (r: int)
    ensures -1 <= r <= 1
    ensures r == 0 <==> a == b
    decreases |a|
  {
    if |a| == 0 && |b| == 0 then 0
    else if |a| == 0 then -1
    else if |b| == 0 then 1
    else if a[0] < b[0] then -1
    else if a[0] > b[0] then 1
    else
      assert a == [a[0]] + a[1..] && b == [b[0]] + b[1..];
      Compare(a[1..], b[1..])
  }

  /** `a <= b` under `Compare` */
  predicate AtMost(a: string, b: string)
  {
    Compare(a, b) <= 0
  }

  lemma {:induction false} CompareFlip(a: string, b: string)
    ensures Compare(b, a) == -Compare(a, b)
    decreases |a|
  {
    if |a| > 0 && |b| > 0 && a[0] == b[0] {
      CompareFlip(a[1..], b[1..]);
    }
  }

  lemma {:induction false} AtMostTransitive(a: string, b: string, c: string)
    requires AtMost(a, b) && AtMost(b, c)
    ensures AtMost(a, c)
    decreases |a|
  {
    if |a| > 0 && |b| > 0 && |c| > 0 && a[0] == b[0] && b[0] == c[0] {
      AtMostTransitive(a[1..], b[1..], c[1..]);
    }
  }

  lemma AtMostTotal(a: string, b: string)
    ensures AtMost(a, b) || AtMost(b, a)
  {
    CompareFlip(a, b);
  }

  lemma AtMostAntisymmetric(a: string, b: string)
    requires AtMost(a, b) && AtMost(b, a)
    ensures a == b
  {
    CompareFlip(a, b);
  }

  /** A common prefix does not change the comparison. */
  lemma {:induction false} CompareCommonPrefix(p: string, a: string, b: string)
    ensures Compare(p + a, p + b) == Compare(a, b)
    decreases |p|
  {
    if |p| > 0 {
      assert (p + a)[0] == p[0] && (p + b)[0] == p[0];
      assert (p + a)[1..] == p[1..] + a && (p + b)[1..] == p[1..] + b;
      CompareCommonPrefix(p[1..], a, b);
      assert |p + a| > 0 && |p + b| > 0;
      assert Compare(p + a, p + b) == Compare((p + a)[1..], (p + b)[1..]);
    } else {
      assert p + a == a && p + b == b;
    }
  }

  /** Ascending under `AtMost` */
  predicate Sorted(s: seq<string>)
  {
    forall i, j :: 0 <= i < j < |s| ==> AtMost(s[i], s[j])
  }

  /** A sorted sequence stays sorted with an element in front that is at
      most every one of its elements. */
  lemma SortedCons(y: string, t: seq<string>)
    requires Sorted(t)
    requires forall k :: 0 <= k < |t| ==> AtMost(y, t[k])
    ensures Sorted([y] + t)
  {
    forall i, j | 0 <= i < j < |t| + 1 ensures AtMost(([y] + t)[i], ([y] + t)[j]) {
      if i > 0 {
        assert ([y] + t)[i] == t[i - 1];
      }
    }
  }

  /** A lower bound of `t` and of `x` bounds any rearrangement of `t` plus `x`. */
  lemma LowerBoundOfInsert(y: string, t: seq<string>, x: string, u: seq<string>)
    requires forall k :: 0 <= k < |t| ==> AtMost(y, t[k])
    requires AtMost(y, x)
    requires multiset(u) == multiset(t) + multiset{x}
    ensures forall k :: 0 <= k < |u| ==> AtMost(y, u[k])
  {
    forall k | 0 <= k < |u| ensures AtMost(y, u[k]) {
      assert u[k] in multiset(u);
      if u[k] != x {
        assert u[k] in multiset(t);
        var m :| 0 <= m < |t| && t[m] == u[k];
      }
    }
  }

  /** `x` placed into an ascending sequence before the first element not below it. */
  function Insert(x: string, s: seq<string>): (r: seq<string>)
    requires Sorted(s)
    ensures Sorted(r)
    ensures multiset(r) == multiset(s) + multiset{x}
    decreases |s|
  {
    if |s| == 0 then [x]
    else if AtMost(x, s[0]) then
      assert forall k :: 0 <= k < |s| ==> AtMost(x, s[k]) by {
        forall k | 0 <= k < |s| ensures AtMost(x, s[k]) {
          if k > 0 { AtMostTransitive(x, s[0], s[k]); }
        }
      }
      SortedCons(x, s);
      [x] + s
    else
      AtMostTotal(x, s[0]);
      var tail := Insert(x, s[1..]);
      assert s == [s[0]] + s[1..];
      assert forall k :: 0 <= k < |s[1..]| ==> AtMost(s[0], s[1..][k]) by {
        forall k | 0 <= k < |s[1..]| ensures AtMost(s[0], s[1..][k]) {
          assert s[1..][k] == s[k + 1];
        }
      }
      LowerBoundOfInsert(s[0], s[1..], x, tail);
      SortedCons(s[0], tail);
      [s[0]] + tail
  }

  /** `Array#sort` under `String#<=>`: an ascending permutation of the input. */
  function Sort(s: seq<string>): (r: seq<string>)
    ensures Sorted(r)
    ensures multiset(r) == multiset(s)
    decreases |s|
  {
    if |s| == 0 then []
    else
      assert s == [s[0]] + s[1..];
      Insert(s[0], Sort(s[1..]))
  }

  /** The first elements of two ascending sequences with the same elements agree. */
  lemma SortedSameHead(a: seq<string>, b: seq<string>)
    requires Sorted(a) && Sorted(b)
    requires multiset(a) == multiset(b)
    requires |a| > 0 && |b| > 0
    ensures a[0] == b[0]
  {
    assert a[0] in multiset(b);
    var j :| 0 <= j < |b| && b[j] == a[0];
    assert b[0] in multiset(a);
    var i :| 0 <= i < |a| && a[i] == b[0];
    assert AtMost(b[0], a[0]) by {
      if j > 0 { assert AtMost(b[0], b[j]); }
    }
    assert AtMost(a[0], b[0]) by {
      if i > 0 { assert AtMost(a[0], a[i]); }
    }
    AtMostAntisymmetric(a[0], b[0]);
  }

  /** Two ascending sequences with the same elements are equal: the sorted
      order does not depend on the order the elements came in. */
  lemma {:induction false} SortedUnique(a: seq<string>, b: seq<string>)
    requires Sorted(a) && Sorted(b)
    requires multiset(a) == multiset(b)
    ensures a == b
    decreases |a|
  {
    assert |a| == |multiset(a)| == |multiset(b)| == |b|;
    if |a| > 0 {
      SortedSameHead(a, b);
      assert a == [a[0]] + a[1..] && b == [b[0]] + b[1..];
      assert multiset(a[1..]) == multiset(a) - multiset{a[0]};
      assert multiset(b[1..]) == multiset(b) - multiset{b[0]};
      assert Sorted(a[1..]) && Sorted(b[1..]);
      SortedUnique(a[1..], b[1..]);
    }
  }

  /** Sorting depends only on which elements are present. */
  lemma SortPermutationInvariant(a: seq<string>, b: seq<string>)
    requires multiset(a) == multiset(b)
    ensures Sort(a) == Sort(b)
  {
    SortedUnique(Sort(a), Sort(b));
  }

  /** `n` copies of `c` */
  function Repeat(c: char, n: nat): (r: string)
    ensures |r| == n
    ensures forall i :: 0 <= i < n ==> r[i] == c
  {
    if n == 0 then "" else [c] + Repeat(c, n - 1)
  }

  /** `format("%-Ns", s)` for N = `width`: `s` left-justified, padded on the
      right with spaces to `width` characters; never truncated. */
  function PadRight(s: string, width: nat): (r: string)
    ensures s <= r
    ensures |r| == if |s| < width then width else |s|
    ensures forall i :: |s| <= i < |r| ==> r[i] == ' '
  {
    if |s| < width then s + Repeat(' ', width - |s|) else s
  }
}
