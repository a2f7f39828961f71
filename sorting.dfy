/** The three-way comparator both views hand to `Array.prototype.sort`, and the stable
    sort it is given to (ECMAScript 2019, section 22.1.3.27, requires `sort` to be
    stable). `SortBy` is the specification: an insertion sort on values. `SortInPlace`
    is the in-place algorithm on an array, proved to compute it. */
module Sorting {
  import opened Sequences

  /** A sort key: a number (`resultValue`) or a string (names, teams, ISO dates). */
  datatype Key = Num(x: real) | Str(s: string)

  /** The UTF-16 code units JavaScript stores for one character: the character itself
      below U+10000, otherwise a surrogate pair. */
  function Units(c: char): (u: seq<int>)
    ensures 1 <= |u| <= 2
    ensures |u| == 2 <==> 0xD800 <= u[0] < 0xDC00
  {
    var n := c as int;
    if n < 0x10000 then [n] else [0xD800 + (n - 0x10000) / 0x400, 0xDC00 + (n - 0x10000) % 0x400]
  }

  /** Different characters have different code units. */
  lemma UnitsInjective(c: char, d: char)
    requires Units(c) == Units(d)
    ensures c == d
  {
    var m, n := c as int, d as int;
    if m >= 0x10000 {
      assert m - 0x10000 == (m - 0x10000) / 0x400 * 0x400 + (m - 0x10000) % 0x400;
      assert n - 0x10000 == (n - 0x10000) / 0x400 * 0x400 + (n - 0x10000) % 0x400;
    }
  }

  /** The UTF-16 code units of a string. */
  function Utf16(s: string): seq<int>
  {
    if s == [] then [] else Units(s[0]) + Utf16(s[1..])
  }

  /** Two strings with the same code units are the same string. */
  lemma {:induction false} Utf16Injective(a: string, b: string)
    requires Utf16(a) == Utf16(b)
    ensures a == b
  {
    if a != [] && b != [] {
      var ua, ub := Units(a[0]), Units(b[0]);
      assert ua[0] == Utf16(a)[0] && ub[0] == Utf16(b)[0];
      assert |ua| == |ub|;
      assert ua == Utf16(a)[..|ua|] && ub == Utf16(b)[..|ub|];
      UnitsInjective(a[0], b[0]);
      assert Utf16(a[1..]) == Utf16(a)[|ua|..] && Utf16(b[1..]) == Utf16(b)[|ub|..];
      Utf16Injective(a[1..], b[1..]);
      assert a == [a[0]] + a[1..] && b == [b[0]] + b[1..];
    }
  }

  /** Lexicographic order on sequences of code units. */
  predicate UnitsLess(a: seq<int>, b: seq<int>)
  {
    if a == [] then b != []
    else if b == [] then false
    else a[0] < b[0] || (a[0] == b[0] && UnitsLess(a[1..], b[1..]))
  }

  /** JavaScript `<` on two strings: lexicographic by UTF-16 code unit (section 7.2.13 of
      ECMAScript 2019), which differs from the order of the characters themselves when a
      character above U+FFFF meets one in U+E000 to U+FFFF. */
  predicate StrLess(a: string, b: string)
  {
    UnitsLess(Utf16(a), Utf16(b))
  }

  /** A character above U+FFFF sorts before one in U+E000 to U+FFFF. */
  lemma SurrogatesSortLow()
    ensures StrLess("\U{1F600}", "\U{FF21}") && !StrLess("\U{FF21}", "\U{1F600}")
  {
    assert Utf16("\U{1F600}") == [0xD83D, 0xDE00] by {
      assert Utf16("\U{1F600}"[1..]) == [];
    }
    assert Utf16("\U{FF21}") == [0xFF21] by {
      assert Utf16("\U{FF21}"[1..]) == [];
    }
  }

  lemma {:induction false} UnitsLessIrreflexive(a: seq<int>)
    ensures !UnitsLess(a, a)
  {
    if a != [] {
      UnitsLessIrreflexive(a[1..]);
    }
  }

  lemma {:induction false} UnitsLessTransitive(a: seq<int>, b: seq<int>, c: seq<int>)
    requires UnitsLess(a, b) && UnitsLess(b, c)
    ensures UnitsLess(a, c)
  {
    if a != [] && a[0] == b[0] && b[0] == c[0] {
      UnitsLessTransitive(a[1..], b[1..], c[1..]);
    }
  }

  lemma {:induction false} UnitsLessTotal(a: seq<int>, b: seq<int>)
    requires a != b
    ensures UnitsLess(a, b) || UnitsLess(b, a)
  {
    if a != [] && b != [] && a[0] == b[0] {
      assert a == [a[0]] + a[1..] && b == [b[0]] + b[1..];
      UnitsLessTotal(a[1..], b[1..]);
    }
  }

  /** String `<` is a strict total order. */
  lemma StrLessStrictTotalOrder(a: string, b: string, c: string)
    ensures !StrLess(a, a)
    ensures StrLess(a, b) && StrLess(b, c) ==> StrLess(a, c)
    ensures a != b ==> StrLess(a, b) || StrLess(b, a)
  {
    UnitsLessIrreflexive(Utf16(a));
    if StrLess(a, b) && StrLess(b, c) {
      UnitsLessTransitive(Utf16(a), Utf16(b), Utf16(c));
    }
    if a != b {
      if Utf16(a) == Utf16(b) {
        Utf16Injective(a, b);
      }
      UnitsLessTotal(Utf16(a), Utf16(b));
    }
  }

  /** JavaScript `<` on two keys of one sort field (a field never mixes numbers and
      strings; numbers are put before strings only to make the order total). */
  predicate Less(a: Key, b: Key)
  {
    match (a, b)
    case (Num(x), Num(y)) => x < y
    case (Str(s), Str(t)) => StrLess(s, t)
    case (Num(_), Str(_)) => true
    case (Str(_), Num(_)) => false
  }

  /** `Less` is a strict total order on keys. */
  lemma LessStrictTotalOrder(a: Key, b: Key, c: Key)
    ensures !Less(a, a)
    ensures Less(a, b) && Less(b, c) ==> Less(a, c)
    ensures a != b ==> Less(a, b) || Less(b, a)
  {
    if a.Str? && b.Str? && c.Str? {
      StrLessStrictTotalOrder(a.s, b.s, c.s);
    } else if a.Str? && b.Str? {
      StrLessStrictTotalOrder(a.s, b.s, b.s);
    } else if a.Str? {
      StrLessStrictTotalOrder(a.s, a.s, a.s);
    }
  }

  /** 'asc' / 'desc' in the result view, 'ascending' / 'descending' in the participant view. */
  datatype Direction = Ascending | Descending

  /** The comparator: negative when `a` goes first, positive when `b` goes first. */
  function Compare(a: Key, b: Key, dir: Direction): int
  {
    if Less(a, b) then (if dir == Ascending then -1 else 1)
    else if Less(b, a) then (if dir == Ascending then 1 else -1)
    else 0
  }

  /** The comparator is antisymmetric, and it returns 0 only on equal keys. */
  lemma CompareAntisymmetric(a: Key, b: Key, dir: Direction)
    ensures Compare(a, b, dir) == -Compare(b, a, dir)
    ensures Compare(a, b, dir) == 0 <==> a == b
  {
    LessStrictTotalOrder(a, b, a);
    LessStrictTotalOrder(b, a, b);
  }

  /** `x` may precede `y`: the comparator does not ask for `y` first. */
  predicate InOrder<T>(key: T -> Key, dir: Direction, x: T, y: T)
  {
    Compare(key(x), key(y), dir) <= 0
  }

  lemma InOrderTotalPreorder<T>(key: T -> Key, dir: Direction, x: T, y: T, z: T)
    ensures InOrder(key, dir, x, x)
    ensures InOrder(key, dir, x, y) || InOrder(key, dir, y, x)
    ensures InOrder(key, dir, x, y) && InOrder(key, dir, y, z) ==> InOrder(key, dir, x, z)
  {
    var a, b, c := key(x), key(y), key(z);
    CompareAntisymmetric(a, b, dir);
    LessStrictTotalOrder(a, b, c);
    LessStrictTotalOrder(c, b, a);
    LessStrictTotalOrder(a, c, b);
    LessStrictTotalOrder(b, a, c);
    LessStrictTotalOrder(b, c, a);
    LessStrictTotalOrder(c, a, b);
  }

  predicate Sorted<T>(s: seq<T>, key: T -> Key, dir: Direction)
  {
    forall i, j :: 0 <= i < j < |s| ==> InOrder(key, dir, s[i], s[j])
  }

  /** Sorted ascending means non-decreasing keys; sorted descending, non-increasing. */
  lemma SortedMeaning<T>(s: seq<T>, key: T -> Key, dir: Direction, i: nat, j: nat)
    requires Sorted(s, key, dir) && i < j < |s|
    ensures dir == Ascending ==> !Less(key(s[j]), key(s[i]))
    ensures dir == Descending ==> !Less(key(s[i]), key(s[j]))
  {
    assert InOrder(key, dir, s[i], s[j]);
    LessStrictTotalOrder(key(s[i]), key(s[j]), key(s[i]));
  }

  /** One insertion step: `x` goes after the last element the comparator does not put after it. */
  function InsertBack<T>(t: seq<T>, x: T, key: T -> Key, dir: Direction): (r: seq<T>)
    ensures |r| == |t| + 1
  {
    if t == [] then [x]
    else if Compare(key(t[|t| - 1]), key(x), dir) > 0 then
      InsertBack(t[..|t| - 1], x, key, dir) + [t[|t| - 1]]
    else t + [x]
  }

  lemma {:induction false} InsertBackPermutation<T>(t: seq<T>, x: T, key: T -> Key, dir: Direction)
    ensures multiset(InsertBack(t, x, key, dir)) == multiset(t) + multiset{x}
  {
    if t != [] && Compare(key(t[|t| - 1]), key(x), dir) > 0 {
      InsertBackPermutation(t[..|t| - 1], x, key, dir);
      assert t == t[..|t| - 1] + [t[|t| - 1]];
    }
  }

  /** What a stable `sort` with the comparator above returns. */
  function SortBy<T>(s: seq<T>, key: T -> Key, dir: Direction): (r: seq<T>)
    ensures |r| == |s|
  {
    if s == [] then [] else InsertBack(SortBy(s[..|s| - 1], key, dir), s[|s| - 1], key, dir)
  }

  lemma {:induction false} SortByPermutation<T>(s: seq<T>, key: T -> Key, dir: Direction)
    ensures multiset(SortBy(s, key, dir)) == multiset(s)
  {
    if s != [] {
      SortByPermutation(s[..|s| - 1], key, dir);
      InsertBackPermutation(SortBy(s[..|s| - 1], key, dir), s[|s| - 1], key, dir);
      assert s == s[..|s| - 1] + [s[|s| - 1]];
    }
  }

  /** Appending an element that every element may precede keeps a list sorted. */
  lemma SortedSnoc<T>(u: seq<T>, y: T, key: T -> Key, dir: Direction)
    requires Sorted(u, key, dir)
    requires forall i :: 0 <= i < |u| ==> InOrder(key, dir, u[i], y)
    ensures Sorted(u + [y], key, dir)
  {
  }

  /** Every element of a sorted list may precede an element its last one may precede. */
  lemma SortedBefore<T>(t: seq<T>, y: T, key: T -> Key, dir: Direction)
    requires Sorted(t, key, dir) && t != []
    requires InOrder(key, dir, t[|t| - 1], y)
    ensures forall i :: 0 <= i < |t| ==> InOrder(key, dir, t[i], y)
  {
    forall i | 0 <= i < |t|
      ensures InOrder(key, dir, t[i], y)
    {
      InOrderTotalPreorder(key, dir, t[i], t[|t| - 1], y);
    }
  }

  /** Inserting `x` where the comparator puts `l` after `x` keeps everything before `l`. */
  lemma InsertBackBefore<T>(t: seq<T>, x: T, l: T, key: T -> Key, dir: Direction)
    requires forall i :: 0 <= i < |t| ==> InOrder(key, dir, t[i], l)
    requires Compare(key(l), key(x), dir) > 0
    ensures forall i :: 0 <= i < |t| + 1 ==> InOrder(key, dir, InsertBack(t, x, key, dir)[i], l)
  {
    var r := InsertBack(t, x, key, dir);
    InsertBackPermutation(t, x, key, dir);
    CompareAntisymmetric(key(l), key(x), dir);
    forall i | 0 <= i < |r|
      ensures InOrder(key, dir, r[i], l)
    {
      assert r[i] in multiset(r);
      if r[i] != x {
        assert r[i] in multiset(t);
      }
    }
  }

  lemma {:induction false} InsertBackSorted<T>(t: seq<T>, x: T, key: T -> Key, dir: Direction)
    requires Sorted(t, key, dir)
    ensures Sorted(InsertBack(t, x, key, dir), key, dir)
  {
    if t != [] {
      var n := |t| - 1;
      var l := t[n];
      if Compare(key(l), key(x), dir) > 0 {
        var r' := InsertBack(t[..n], x, key, dir);
        assert InsertBack(t, x, key, dir) == r' + [l];
        SortedPrefix(t, n, key, dir);
        InsertBackSorted(t[..n], x, key, dir);
        InsertBackBefore(t[..n], x, l, key, dir);
        SortedSnoc(r', l, key, dir);
      } else {
        assert InsertBack(t, x, key, dir) == t + [x];
        SortedBefore(t, x, key, dir);
        SortedSnoc(t, x, key, dir);
      }
    }
  }

  lemma {:induction false} SortBySorted<T>(s: seq<T>, key: T -> Key, dir: Direction)
    ensures Sorted(SortBy(s, key, dir), key, dir)
  {
    if s != [] {
      SortBySorted(s[..|s| - 1], key, dir);
      InsertBackSorted(SortBy(s[..|s| - 1], key, dir), s[|s| - 1], key, dir);
    }
  }

  lemma SortedPrefix<T>(t: seq<T>, n: nat, key: T -> Key, dir: Direction)
    requires Sorted(t, key, dir) && n <= |t|
    ensures Sorted(t[..n], key, dir)
  {
    forall i, j | 0 <= i < j < n
      ensures InOrder(key, dir, t[..n][i], t[..n][j])
    {
      assert t[..n][i] == t[i] && t[..n][j] == t[j];
    }
  }

  /** Inserting behind an element that must come after `x` goes past it. */
  lemma InsertBackPast<T>(u: seq<T>, l: T, x: T, key: T -> Key, dir: Direction)
    requires Compare(key(l), key(x), dir) > 0
    ensures InsertBack(u + [l], x, key, dir) == InsertBack(u, x, key, dir) + [l]
  {
    assert (u + [l])[..|u|] == u;
  }

  /** Inserting behind a list whose every element may precede `x` appends `x`. */
  lemma InsertBackAfterAll<T>(u: seq<T>, x: T, key: T -> Key, dir: Direction)
    requires forall i :: 0 <= i < |u| ==> InOrder(key, dir, u[i], x)
    ensures InsertBack(u, x, key, dir) == u + [x]
  {
  }

  lemma FilterSingle<T>(x: T, keep: T -> bool)
    ensures Filter([x], keep) == if keep(x) then [x] else []
  {
    assert [x][1..] == [];
  }

  /** A non-empty list is its front followed by its last element. */
  lemma SplitLast<T>(t: seq<T>)
    requires t != []
    ensures t == t[..|t| - 1] + [t[|t| - 1]]
  {
  }

  /** `Filter` of `InsertBack(u + [l], x)` splits off the filtered `l`. */
  lemma FilterPast<T>(u: seq<T>, l: T, x: T, key: T -> Key, dir: Direction, keep: T -> bool)
    requires Compare(key(l), key(x), dir) > 0
    ensures Filter(InsertBack(u + [l], x, key, dir), keep)
         == Filter(InsertBack(u, x, key, dir), keep) + Filter([l], keep)
    ensures Filter(u + [l], keep) == Filter(u, keep) + Filter([l], keep)
  {
    InsertBackPast(u, l, x, key, dir);
    FilterAppend(InsertBack(u, x, key, dir), [l], keep);
    FilterAppend(u, [l], keep);
  }

  lemma PastKept<T>(t: seq<T>, u: seq<T>, l: T, x: T, key: T -> Key, dir: Direction, keep: T -> bool)
    requires t == u + [l] && Compare(key(l), key(x), dir) > 0 && keep(x)
    requires Filter(InsertBack(u, x, key, dir), keep) == InsertBack(Filter(u, keep), x, key, dir)
    ensures Filter(InsertBack(t, x, key, dir), keep) == InsertBack(Filter(t, keep), x, key, dir)
  {
    FilterPast(u, l, x, key, dir, keep);
    FilterSingle(l, keep);
    var fu := Filter(u, keep);
    if keep(l) {
      InsertBackPast(fu, l, x, key, dir);
    } else {
      assert fu + [] == fu;
    }
  }

  lemma PastDropped<T>(t: seq<T>, u: seq<T>, l: T, x: T, key: T -> Key, dir: Direction, keep: T -> bool)
    requires t == u + [l] && Compare(key(l), key(x), dir) > 0 && !keep(x)
    requires Filter(InsertBack(u, x, key, dir), keep) == Filter(u, keep)
    ensures Filter(InsertBack(t, x, key, dir), keep) == Filter(t, keep)
  {
    FilterPast(u, l, x, key, dir, keep);
  }

  /** The step of `InsertBackFilter` where `x` lands at the end. */
  lemma InsertBackFilterEnd<T>(t: seq<T>, x: T, key: T -> Key, dir: Direction, keep: T -> bool)
    requires Sorted(t, key, dir) && t != []
    requires Compare(key(t[|t| - 1]), key(x), dir) <= 0
    ensures Filter(InsertBack(t, x, key, dir), keep)
         == if keep(x) then InsertBack(Filter(t, keep), x, key, dir) else Filter(t, keep)
  {
    assert InsertBack(t, x, key, dir) == t + [x];
    FilterAppend(t, [x], keep);
    FilterSingle(x, keep);
    if keep(x) {
      SortedBefore(t, x, key, dir);
      FilterBefore(t, x, key, dir, keep);
      InsertBackAfterAll(Filter(t, keep), x, key, dir);
    }
  }

  lemma FilterBefore<T>(t: seq<T>, x: T, key: T -> Key, dir: Direction, keep: T -> bool)
    requires forall i :: 0 <= i < |t| ==> InOrder(key, dir, t[i], x)
    ensures forall i :: 0 <= i < |Filter(t, keep)| ==> InOrder(key, dir, Filter(t, keep)[i], x)
  {
    var u := Filter(t, keep);
    forall i | 0 <= i < |u|
      ensures InOrder(key, dir, u[i], x)
    {
      FilterElement(t, keep, u[i]);
    }
  }

  /** Filtering an insertion is inserting into the filtered list. */
  lemma {:induction false} InsertBackFilter<T>(t: seq<T>, x: T, key: T -> Key, dir: Direction, keep: T -> bool)
    requires Sorted(t, key, dir)
    ensures Filter(InsertBack(t, x, key, dir), keep)
         == if keep(x) then InsertBack(Filter(t, keep), x, key, dir) else Filter(t, keep)
  {
    if t == [] {
      FilterSingle(x, keep);
    } else if Compare(key(t[|t| - 1]), key(x), dir) > 0 {
      var n := |t| - 1;
      SortedPrefix(t, n, key, dir);
      InsertBackFilter(t[..n], x, key, dir, keep);
      SplitLast(t);
      if keep(x) {
        PastKept(t, t[..n], t[n], x, key, dir, keep);
      } else {
        PastDropped(t, t[..n], t[n], x, key, dir, keep);
      }
    } else {
      InsertBackFilterEnd(t, x, key, dir, keep);
    }
  }

  /** A stable sort commutes with any filter: sorting and then filtering (the order the
      participant view uses) is filtering and then sorting. */
  lemma {:induction false} SortFilterCommute<T>(s: seq<T>, key: T -> Key, dir: Direction, keep: T -> bool)
    ensures Filter(SortBy(s, key, dir), keep) == SortBy(Filter(s, keep), key, dir)
  {
    if s != [] {
      var init, x := s[..|s| - 1], s[|s| - 1];
      assert s == init + [x];
      var sorted, u := SortBy(init, key, dir), Filter(init, keep);
      assert SortBy(s, key, dir) == InsertBack(sorted, x, key, dir);
      SortFilterCommute(init, key, dir, keep);
      SortBySorted(init, key, dir);
      InsertBackFilter(sorted, x, key, dir, keep);
      FilterAppend(init, [x], keep);
      FilterSingle(x, keep);
      if keep(x) {
        assert Filter(s, keep) == u + [x];
        SortBySnoc(u, x, key, dir);
      } else {
        assert Filter(s, keep) == u + [];
        assert u + [] == u;
      }
    }
  }

  lemma SortBySnoc<T>(u: seq<T>, x: T, key: T -> Key, dir: Direction)
    ensures SortBy(u + [x], key, dir) == InsertBack(SortBy(u, key, dir), x, key, dir)
  {
    assert (u + [x])[..|u|] == u;
  }

  /** A list whose keys are all equal is already sorted: the sort leaves it alone. */
  lemma {:induction false} SortByEqualKeys<T>(s: seq<T>, key: T -> Key, dir: Direction, k: Key)
    requires forall i :: 0 <= i < |s| ==> key(s[i]) == k
    ensures SortBy(s, key, dir) == s
  {
    if s != [] {
      var init := s[..|s| - 1];
      SortByEqualKeys(init, key, dir, k);
      CompareAntisymmetric(k, k, dir);
      assert s == init + [s[|s| - 1]];
    }
  }

  /** The elements whose key is `k`. */
  function KeyIs<T>(key: T -> Key, k: Key): T -> bool
  {
    x => key(x) == k
  }

  /** Stability: for every key, the elements with that key appear in the sorted list in
      the same relative order as in the input. */
  lemma SortByStable<T>(s: seq<T>, key: T -> Key, dir: Direction, k: Key)
    ensures Filter(SortBy(s, key, dir), KeyIs(key, k)) == Filter(s, KeyIs(key, k))
  {
    var same := Filter(s, KeyIs(key, k));
    SortFilterCommute(s, key, dir, KeyIs(key, k));
    forall i | 0 <= i < |same|
      ensures key(same[i]) == k
    {
      FilterElement(s, KeyIs(key, k), same[i]);
      assert KeyIs(key, k)(same[i]);
    }
    SortByEqualKeys(same, key, dir, k);
  }

  /** Where `InsertBack` puts `x`: after `p[..j]` when `p[j - 1]` may precede `x` and
      the comparator puts every element of `p[j..]` after `x`. */
  lemma {:induction false} InsertBackSlot<T>(p: seq<T>, j: nat, x: T, key: T -> Key, dir: Direction)
    requires j <= |p|
    requires j > 0 ==> Compare(key(p[j - 1]), key(x), dir) <= 0
    requires forall k :: j <= k < |p| ==> Compare(key(p[k]), key(x), dir) > 0
    ensures InsertBack(p, x, key, dir) == p[..j] + [x] + p[j..]
    decreases |p| - j
  {
    if j < |p| {
      var n := |p| - 1;
      InsertBackSlot(p[..n], j, x, key, dir);
      assert p[..n][..j] == p[..j];
      assert p[..j] + [x] + p[j..] == p[..j] + [x] + p[j..n] + [p[n]];
    } else {
      assert p[..j] == p;
    }
  }

  /** Moves `a[i]` left past every element of `a[..i]` the comparator puts after it. */
  method InsertInPlace<T>(a: array<T>, i: nat, key: T -> Key, dir: Direction)
    requires i < a.Length
    modifies a
    ensures a[..] == InsertBack(old(a[..i]), old(a[i]), key, dir) + old(a[i + 1..])
  {
    var x := a[i];
    ghost var o := a[..];
    var j := i;
    while j > 0 && Compare(key(a[j - 1]), key(x), dir) > 0
      invariant 0 <= j <= i
      invariant forall k :: 0 <= k < j ==> a[k] == o[k]
      invariant forall k :: j < k <= i ==> a[k] == o[k - 1]
      invariant forall k :: i < k < a.Length ==> a[k] == o[k]
      invariant forall k :: j <= k < i ==> Compare(key(o[k]), key(x), dir) > 0
    {
      a[j] := a[j - 1];
      j := j - 1;
    }
    a[j] := x;
    InsertFinish(a[..], o, i, j, key, dir);
  }

  /** After the shifting loop of `InsertInPlace` and the store of `x` at `j`, the array holds
      the sorted insertion of `x` followed by the untouched rest. */
  lemma InsertFinish<T>(q: seq<T>, o: seq<T>, i: nat, j: nat, key: T -> Key, dir: Direction)
    requires |q| == |o| && j <= i < |o|
    requires forall k :: 0 <= k < j ==> q[k] == o[k]
    requires q[j] == o[i]
    requires forall k :: j < k <= i ==> q[k] == o[k - 1]
    requires forall k :: i < k < |q| ==> q[k] == o[k]
    requires j > 0 ==> Compare(key(o[j - 1]), key(o[i]), dir) <= 0
    requires forall k :: j <= k < i ==> Compare(key(o[k]), key(o[i]), dir) > 0
    ensures q == InsertBack(o[..i], o[i], key, dir) + o[i + 1..]
  {
    var p, x := o[..i], o[i];
    InsertBackSlot(p, j, x, key, dir);
    Shifted(q[..i + 1], p, j, x);
    assert q[i + 1..] == o[i + 1..];
    assert q == q[..i + 1] + q[i + 1..];
  }

  /** A list that agrees with `p` before `j`, holds `x` at `j` and `p` shifted by one after it
      is `p` with `x` inserted at `j`. */
  lemma Shifted<T>(q: seq<T>, p: seq<T>, j: nat, x: T)
    requires |q| == |p| + 1 && j <= |p|
    requires forall k :: 0 <= k < j ==> q[k] == p[k]
    requires q[j] == x
    requires forall k :: j < k < |q| ==> q[k] == p[k - 1]
    ensures q == p[..j] + [x] + p[j..]
  {
  }

  /** Sorting neither adds nor drops elements. */
  lemma SortByMembers<T>(s: seq<T>, key: T -> Key, dir: Direction, x: T)
    ensures x in SortBy(s, key, dir) <==> x in s
  {
    SortByPermutation(s, key, dir);
    assert x in SortBy(s, key, dir) <==> x in multiset(SortBy(s, key, dir));
  }

  /** Insertion sort of the array in place. */
  method SortInPlace<T>(a: array<T>, key: T -> Key, dir: Direction)
    modifies a
    ensures a[..] == SortBy(old(a[..]), key, dir)
  {
    ghost var input := a[..];
    var i := 0;
    while i < a.Length
      invariant 0 <= i <= a.Length
      invariant a[..] == SortBy(input[..i], key, dir) + input[i..]
    {
      SortStep(input, i, a[..], key, dir);
      InsertInPlace(a, i, key, dir);
      i := i + 1;
    }
    assert input[..a.Length] == input;
  }

  /** One pass of the insertion sort: inserting the next input element into the sorted
      prefix sorts one more element. */
  lemma SortStep<T>(input: seq<T>, i: nat, cur: seq<T>, key: T -> Key, dir: Direction)
    requires i < |input| && cur == SortBy(input[..i], key, dir) + input[i..]
    ensures cur[..i] == SortBy(input[..i], key, dir) && cur[i] == input[i]
    ensures InsertBack(cur[..i], cur[i], key, dir) + cur[i + 1..]
         == SortBy(input[..i + 1], key, dir) + input[i + 1..]
  {
    var sorted := SortBy(input[..i], key, dir);
    assert cur[..i] == sorted;
    assert cur[i + 1..] == input[i + 1..];
    assert input[..i + 1] == input[..i] + [input[i]];
    SortBySnoc(input[..i], input[i], key, dir);
  }

  /** `[...s].sort(comparator)`: copy the list into a fresh array and sort the copy. */
  method SortedCopy<T>(s: seq<T>, key: T -> Key, dir: Direction) returns (r: seq<T>)
    ensures r == SortBy(s, key, dir)
  {
    var a := new T[|s|](i requires 0 <= i < |s| => s[i]);
    assert a[..] == s;
    SortInPlace(a, key, dir);
    r := a[..];
  }
}
