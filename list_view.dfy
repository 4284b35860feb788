/**
 * The client-side list-view pipeline shared by the product and berry tables:
 * a case-insensitive search filter on the display name, a stable sort by a
 * comparator, a page slice, the page count, the "showing X to Y of N" label,
 * the row numbers and the guards of the previous/next buttons.
 *
 * The string primitives the tables call, `toLowerCase` and `localeCompare`,
 * follow Unicode and locale rules; they are parameters here (StringOps), and
 * the lemmas about the sort only assume that the comparison is a total preorder.
 */
module ListView {
  import opened Common

  /** `lower` stands for String.prototype.toLowerCase and `compare` for
      String.prototype.localeCompare (negative, zero or positive). */
  datatype StringOps = StringOps(lower: Str -> Str, compare: (Str, Str) -> int)

  // ---------------------------------------------------------------------------
  // Comparators

  /** Read `cmp(a, b) <= 0` as "a may stand before b": total and transitive. */
  ghost predicate TotalPreorder<T(!new)>(cmp: (T, T) -> int) {
    && (forall a, b :: cmp(a, b) <= 0 || cmp(b, a) <= 0)
    && (forall a, b, c :: cmp(a, b) <= 0 && cmp(b, c) <= 0 ==> cmp(a, c) <= 0)
  }

  /** a and b compare equal: neither has to come after the other. */
  predicate Tie<T(!new)>(cmp: (T, T) -> int, a: T, b: T) {
    cmp(a, b) <= 0 && cmp(b, a) <= 0
  }

  // ---------------------------------------------------------------------------
  // Search filter

  /** `needle` occurs in `hay` starting at offset i. */
  predicate OccursAt(hay: Str, needle: Str, i: int) {
    0 <= i <= |hay| - |needle| && hay[i..i + |needle|] == needle
  }

  /** String.prototype.includes: `needle` occurs in `hay` at some offset. */
  predicate Includes(hay: Str, needle: Str) {
    exists i | 0 <= i <= |hay| - |needle| :: OccursAt(hay, needle, i)
  }

  /** The filter callback: the lower-cased name contains the lower-cased search. */
  predicate Matches<T(!new)>(x: T, name: T -> Str, lower: Str -> Str, needle: Str) {
    Includes(lower(name(x)), needle)
  }

  /** Array.prototype.filter with the search callback. */
  function KeepMatching<T(!new)>(items: seq<T>, name: T -> Str, lower: Str -> Str, needle: Str): (r: seq<T>)
    ensures |r| <= |items|
    ensures forall x :: multiset(r)[x] == if Matches(x, name, lower, needle) then multiset(items)[x] else 0
  {
    if items == [] then []
    else
      assert items == [items[0]] + items[1..];
      var rest := KeepMatching(items[1..], name, lower, needle);
      if Matches(items[0], name, lower, needle) then [items[0]] + rest else rest
  }

  /** The filter step: skipped for the empty (falsy) search, otherwise keep the
      items whose lower-cased name contains the lower-cased search. */
  function SearchFilter<T(!new)>(items: seq<T>, name: T -> Str, lower: Str -> Str, search: Str): (r: seq<T>)
    ensures search == [] ==> r == items
    ensures search != [] ==> forall x :: x in r <==> x in items && Matches(x, name, lower, lower(search))
  {
    if search == [] then items
    else
      var r := KeepMatching(items, name, lower, lower(search));
      assert forall x :: x in r <==> multiset(r)[x] > 0;
      r
  }

  /** The filter keeps the order of what it keeps: it distributes over concatenation. */
  lemma {:induction false} KeepMatchingAppend<T(!new)>(a: seq<T>, b: seq<T>, name: T -> Str, lower: Str -> Str, needle: Str)
    ensures KeepMatching(a + b, name, lower, needle) == KeepMatching(a, name, lower, needle) + KeepMatching(b, name, lower, needle)
  {
    if a == [] {
      assert a + b == b;
    } else {
      assert (a + b)[0] == a[0];
      assert (a + b)[1..] == a[1..] + b;
      KeepMatchingAppend(a[1..], b, name, lower, needle);
    }
  }

  // ---------------------------------------------------------------------------
  // Stable sort

  /** One step of a stable insertion sort: x goes after every element of s that
      does not compare greater than it. */
  function Insert<T(!new)>(s: seq<T>, x: T, cmp: (T, T) -> int): (r: seq<T>)
    ensures |r| == |s| + 1
    decreases |s|
  {
    if s == [] || cmp(s[|s| - 1], x) <= 0 then s + [x]
    else Insert(s[..|s| - 1], x, cmp) + [s[|s| - 1]]
  }

  /** What Array.prototype.sort(cmp) leaves in the array. The language requires
      the sort to be stable, and a stable sort by a total preorder has a single
      possible result, so insertion sort describes it. */
  function StableSort<T(!new)>(s: seq<T>, cmp: (T, T) -> int): (r: seq<T>)
    ensures |r| == |s|
    decreases |s|
  {
    if s == [] then []
    else Insert(StableSort(s[..|s| - 1], cmp), s[|s| - 1], cmp)
  }

  lemma {:induction false} InsertPermutes<T(!new)>(s: seq<T>, x: T, cmp: (T, T) -> int)
    ensures multiset(Insert(s, x, cmp)) == multiset(s) + multiset{x}
    decreases |s|
  {
    if !(s == [] || cmp(s[|s| - 1], x) <= 0) {
      InsertPermutes(s[..|s| - 1], x, cmp);
      assert s == s[..|s| - 1] + [s[|s| - 1]];
    }
  }

  /** The sort neither adds, drops nor duplicates an element. */
  lemma {:induction false} StableSortPermutes<T(!new)>(s: seq<T>, cmp: (T, T) -> int)
    ensures multiset(StableSort(s, cmp)) == multiset(s)
    decreases |s|
  {
    if s != [] {
      var init := s[..|s| - 1];
      StableSortPermutes(init, cmp);
      InsertPermutes(StableSort(init, cmp), s[|s| - 1], cmp);
      assert s == init + [s[|s| - 1]];
    }
  }

  ghost predicate Sorted<T(!new)>(s: seq<T>, cmp: (T, T) -> int) {
    forall i, j :: 0 <= i < j < |s| ==> cmp(s[i], s[j]) <= 0
  }

  /** The elements of s that tie with x, in their order in s. */
  function Ties<T(!new)>(s: seq<T>, x: T, cmp: (T, T) -> int): seq<T>
    decreases |s|
  {
    if s == [] then []
    else Ties(s[..|s| - 1], x, cmp) + (if Tie(cmp, s[|s| - 1], x) then [s[|s| - 1]] else [])
  }

  /** Moves a[i] left past the elements of a[..i] that compare greater than
      it: one pass of the insertion sort. */
  method InsertInPlace<T(!new)>(a: array<T>, i: nat, cmp: (T, T) -> int)
    requires i < a.Length
    modifies a
    ensures a[..i + 1] == Insert(old(a[..i]), old(a[i]), cmp)
    ensures forall k :: i < k < a.Length ==> a[k] == old(a[k])
  {
    ghost var prefix := a[..i];
    var x := a[i];
    var j := i;
    while j > 0 && cmp(a[j - 1], x) > 0
      invariant 0 <= j <= i
      invariant forall k :: 0 <= k < j ==> a[k] == prefix[k]
      invariant forall k :: j < k <= i ==> a[k] == prefix[k - 1]
      invariant forall k :: i < k < a.Length ==> a[k] == old(a[k])
      invariant forall k :: j <= k < i ==> cmp(prefix[k], x) > 0
    {
      a[j] := a[j - 1];
      j := j - 1;
    }
    a[j] := x;
    InsertAt(prefix, j, x, cmp);
    ShiftedIsSplice(a[..i + 1], prefix, j, x);
  }

  /** A list that agrees with p before j, holds x at j and agrees with p
      shifted by one after j is p with x spliced in at j. */
  lemma {:induction false} ShiftedIsSplice<T(!new)>(r: seq<T>, p: seq<T>, j: nat, x: T)
    requires j <= |p| && |r| == |p| + 1
    requires forall k :: 0 <= k < j ==> r[k] == p[k]
    requires r[j] == x
    requires forall k :: j < k < |r| ==> r[k] == p[k - 1]
    ensures r == p[..j] + [x] + p[j..]
  {
    var target := p[..j] + [x] + p[j..];
    forall k | 0 <= k < |r| ensures r[k] == target[k] {
      if k < j {
        assert target[k] == p[k];
      } else if j < k {
        assert target[k] == p[k - 1];
      }
    }
  }

  /** Where insertion puts x: after the last element not greater than x. */
  lemma {:induction false} InsertAt<T(!new)>(p: seq<T>, j: nat, x: T, cmp: (T, T) -> int)
    requires j <= |p| && (j == 0 || cmp(p[j - 1], x) <= 0)
    requires forall k :: j <= k < |p| ==> cmp(p[k], x) > 0
    ensures Insert(p, x, cmp) == p[..j] + [x] + p[j..]
    decreases |p|
  {
    if j < |p| {
      var init, last := p[..|p| - 1], p[|p| - 1];
      assert cmp(last, x) > 0;
      assert Insert(p, x, cmp) == Insert(init, x, cmp) + [last];
      assert j == 0 || init[j - 1] == p[j - 1];
      forall k | j <= k < |init| ensures cmp(init[k], x) > 0 {
        assert init[k] == p[k];
      }
      InsertAt(init, j, x, cmp);
      assert init[..j] == p[..j];
      assert p[j..] == init[j..] + [last];
      assert p[..j] + [x] + p[j..] == (init[..j] + [x] + init[j..]) + [last];
    } else {
      assert p[..j] == p;
    }
  }

  /** Sorts `a` in place, as Array.prototype.sort(cmp) does. */
  method SortInPlace<T(!new)>(a: array<T>, cmp: (T, T) -> int)
    modifies a
    ensures a[..] == StableSort(old(a[..]), cmp)
  {
    ghost var input := a[..];
    var i := 0;
    while i < a.Length
      invariant 0 <= i <= a.Length
      invariant a[..i] == StableSort(input[..i], cmp)
      invariant forall k :: i <= k < a.Length ==> a[k] == input[k]
    {
      InsertInPlace(a, i, cmp);
      StableSortStep(input, i, cmp);
      i := i + 1;
    }
    assert a[..] == a[..a.Length];
    assert input[..a.Length] == input;
  }

  /** Sorting one more element of the input is one more insertion step. */
  lemma {:induction false} StableSortStep<T(!new)>(input: seq<T>, i: nat, cmp: (T, T) -> int)
    requires i < |input|
    ensures StableSort(input[..i + 1], cmp) == Insert(StableSort(input[..i], cmp), input[i], cmp)
  {
    assert input[..i + 1][..i] == input[..i];
  }

  // ---------------------------------------------------------------------------
  // Properties of the sort

  lemma {:induction false} SortedAppend<T(!new)>(t: seq<T>, y: T, cmp: (T, T) -> int)
    requires Sorted(t, cmp)
    requires forall k :: 0 <= k < |t| ==> cmp(t[k], y) <= 0
    ensures Sorted(t + [y], cmp)
  {
  }

  lemma {:induction false} InsertSorted<T(!new)>(s: seq<T>, x: T, cmp: (T, T) -> int)
    requires TotalPreorder(cmp) && Sorted(s, cmp)
    ensures Sorted(Insert(s, x, cmp), cmp)
    decreases |s|
  {
    if s == [] {
    } else if cmp(s[|s| - 1], x) <= 0 {
      forall k | 0 <= k < |s| ensures cmp(s[k], x) <= 0 {
        if k < |s| - 1 {
          assert cmp(s[k], s[|s| - 1]) <= 0;
        }
      }
      SortedAppend(s, x, cmp);
    } else {
      var init, last := s[..|s| - 1], s[|s| - 1];
      InsertSorted(init, x, cmp);
      var t := Insert(init, x, cmp);
      InsertPermutes(init, x, cmp);
      forall k | 0 <= k < |t| ensures cmp(t[k], last) <= 0 {
        assert t[k] in multiset(t);
        if t[k] != x {
          assert t[k] in multiset(init);
          var m :| 0 <= m < |init| && init[m] == t[k];
          assert cmp(s[m], s[|s| - 1]) <= 0;
        }
      }
      SortedAppend(t, last, cmp);
    }
  }

  /** The sort's result is in order: every element may stand before every later one. */
  lemma {:induction false} StableSortSorted<T(!new)>(s: seq<T>, cmp: (T, T) -> int)
    requires TotalPreorder(cmp)
    ensures Sorted(StableSort(s, cmp), cmp)
    decreases |s|
  {
    if s != [] {
      var init := s[..|s| - 1];
      StableSortSorted(init, cmp);
      InsertSorted(StableSort(init, cmp), s[|s| - 1], cmp);
    }
  }

  lemma {:induction false} InsertTies<T(!new)>(s: seq<T>, y: T, x: T, cmp: (T, T) -> int)
    requires TotalPreorder(cmp)
    ensures Ties(Insert(s, y, cmp), x, cmp) == Ties(s, x, cmp) + (if Tie(cmp, y, x) then [y] else [])
    decreases |s|
  {
    if s == [] || cmp(s[|s| - 1], y) <= 0 {
      assert (s + [y])[..|s|] == s;
    } else {
      var init, last := s[..|s| - 1], s[|s| - 1];
      InsertTies(init, y, x, cmp);
      var t := Insert(init, y, cmp);
      assert (t + [last])[..|t|] == t;
      if Tie(cmp, y, x) {
        assert !Tie(cmp, last, x);
      }
    }
  }

  /** Stability: the elements that tie with any x keep their relative order. */
  lemma {:induction false} StableSortStable<T(!new)>(s: seq<T>, x: T, cmp: (T, T) -> int)
    requires TotalPreorder(cmp)
    ensures Ties(StableSort(s, cmp), x, cmp) == Ties(s, x, cmp)
    decreases |s|
  {
    if s != [] {
      var init := s[..|s| - 1];
      StableSortStable(init, x, cmp);
      InsertTies(StableSort(init, cmp), s[|s| - 1], x, cmp);
    }
  }

  /** A list that is already in order is left as it is. */
  lemma {:induction false} StableSortOfSorted<T(!new)>(s: seq<T>, cmp: (T, T) -> int)
    requires Sorted(s, cmp)
    ensures StableSort(s, cmp) == s
    decreases |s|
  {
    if s != [] {
      var init, last := s[..|s| - 1], s[|s| - 1];
      forall i, j | 0 <= i < j < |init| ensures cmp(init[i], init[j]) <= 0 {
        assert init[i] == s[i] && init[j] == s[j];
      }
      StableSortOfSorted(init, cmp);
      assert StableSort(s, cmp) == Insert(init, last, cmp);
      assert init == [] || cmp(init[|init| - 1], last) <= 0 by {
        if init != [] {
          assert init[|init| - 1] == s[|s| - 2];
        }
      }
      assert init + [last] == s;
    }
  }

  /** Sorting the sorted list again changes nothing. */
  lemma {:induction false} StableSortIdempotent<T(!new)>(s: seq<T>, cmp: (T, T) -> int)
    requires TotalPreorder(cmp)
    ensures StableSort(StableSort(s, cmp), cmp) == StableSort(s, cmp)
  {
    StableSortSorted(s, cmp);
    StableSortOfSorted(StableSort(s, cmp), cmp);
  }

  /** The first elements of two sorted arrangements of the same elements tie. */
  lemma {:induction false} HeadsTie<T(!new)>(a: seq<T>, b: seq<T>, cmp: (T, T) -> int)
    requires TotalPreorder(cmp)
    requires multiset(a) == multiset(b) && a != []
    requires Sorted(a, cmp) && Sorted(b, cmp)
    ensures b != [] && Tie(cmp, a[0], b[0])
  {
    assert a[0] in multiset(b);
    assert b != [] && b[0] in multiset(a);
    var k :| 0 <= k < |b| && b[k] == a[0];
    var m :| 0 <= m < |a| && a[m] == b[0];
    assert cmp(a[0], b[0]) <= 0 by {
      if m > 0 { assert cmp(a[0], a[m]) <= 0; }
    }
    assert cmp(b[0], a[0]) <= 0 by {
      if k > 0 { assert cmp(b[0], b[k]) <= 0; }
    }
  }

  lemma {:induction false} TailMultiset<T(!new)>(a: seq<T>, b: seq<T>)
    requires multiset(a) == multiset(b) && a != [] && b != [] && a[0] == b[0]
    ensures multiset(a[1..]) == multiset(b[1..])
  {
    assert a == [a[0]] + a[1..] && b == [b[0]] + b[1..];
    assert multiset(a[1..]) == multiset(a) - multiset{a[0]};
    assert multiset(b[1..]) == multiset(b) - multiset{b[0]};
  }

  lemma {:induction false} SortedTail<T(!new)>(a: seq<T>, cmp: (T, T) -> int)
    requires Sorted(a, cmp) && a != []
    ensures Sorted(a[1..], cmp)
  {
    forall i, j | 0 <= i < j < |a| - 1 ensures cmp(a[1..][i], a[1..][j]) <= 0 {
      assert a[1..][i] == a[i + 1] && a[1..][j] == a[j + 1];
    }
  }

  /** Without ties between distinct elements, two sorted arrangements of the
      same elements are the same list. */
  lemma {:induction false} SortedUnique<T(!new)>(a: seq<T>, b: seq<T>, cmp: (T, T) -> int)
    requires TotalPreorder(cmp)
    requires multiset(a) == multiset(b)
    requires Sorted(a, cmp) && Sorted(b, cmp)
    requires forall x, y :: x in a && y in a && Tie(cmp, x, y) ==> x == y
    ensures a == b
    decreases |a|
  {
    if a == [] {
      assert |b| == |multiset(b)| == 0;
    } else {
      HeadsTie(a, b, cmp);
      assert b[0] in multiset(a);
      assert a[0] == b[0];
      TailMultiset(a, b);
      SortedTail(a, cmp);
      SortedTail(b, cmp);
      forall x, y | x in a[1..] && y in a[1..] && Tie(cmp, x, y) ensures x == y {
        assert x in a && y in a;
      }
      SortedUnique(a[1..], b[1..], cmp);
      assert a == [a[0]] + a[1..] && b == [b[0]] + b[1..];
    }
  }

  /** s backwards. */
  function Reverse<T(!new)>(s: seq<T>): (r: seq<T>)
    ensures |r| == |s|
    ensures forall i :: 0 <= i < |s| ==> r[i] == s[|s| - 1 - i]
    decreases |s|
  {
    if s == [] then [] else [s[|s| - 1]] + Reverse(s[..|s| - 1])
  }

  lemma {:induction false} ReversePermutes<T(!new)>(s: seq<T>)
    ensures multiset(Reverse(s)) == multiset(s)
    decreases |s|
  {
    if s != [] {
      ReversePermutes(s[..|s| - 1]);
      assert s == s[..|s| - 1] + [s[|s| - 1]];
    }
  }

  lemma {:induction false} FlippedPreorder<T(!new)>(asc: (T, T) -> int, desc: (T, T) -> int)
    requires TotalPreorder(asc)
    requires forall a, b :: desc(a, b) == asc(b, a)
    ensures TotalPreorder(desc)
  {
    forall a, b, c | desc(a, b) <= 0 && desc(b, c) <= 0 ensures desc(a, c) <= 0 {
      assert asc(c, b) <= 0 && asc(b, a) <= 0;
    }
  }

  lemma {:induction false} ReverseSortedFlipped<T(!new)>(up: seq<T>, asc: (T, T) -> int, desc: (T, T) -> int)
    requires Sorted(up, asc)
    requires forall a, b :: desc(a, b) == asc(b, a)
    ensures Sorted(Reverse(up), desc)
  {
    var back := Reverse(up);
    forall i, j | 0 <= i < j < |back| ensures desc(back[i], back[j]) <= 0 {
      assert asc(up[|up| - 1 - j], up[|up| - 1 - i]) <= 0;
    }
  }

  /** Ties under the flipped comparator are ties under the comparator, so a
      rearrangement of a tie-free list stays tie-free. */
  lemma {:induction false} NoTiesFlipped<T(!new)>(s: seq<T>, t: seq<T>, asc: (T, T) -> int, desc: (T, T) -> int)
    requires multiset(t) == multiset(s)
    requires forall a, b :: desc(a, b) == asc(b, a)
    requires forall x, y :: x in s && y in s && Tie(asc, x, y) ==> x == y
    ensures forall x, y :: x in t && y in t && Tie(desc, x, y) ==> x == y
  {
    forall x, y | x in t && y in t && Tie(desc, x, y) ensures x == y {
      assert x in multiset(s) && y in multiset(s);
      assert Tie(asc, x, y);
    }
  }

  /** Sorting by the flipped comparator gives the reverse of sorting by the
      comparator, provided no two distinct elements tie. */
  lemma {:induction false} StableSortFlipped<T(!new)>(s: seq<T>, asc: (T, T) -> int, desc: (T, T) -> int)
    requires TotalPreorder(asc)
    requires forall a, b :: desc(a, b) == asc(b, a)
    requires forall x, y :: x in s && y in s && Tie(asc, x, y) ==> x == y
    ensures StableSort(s, desc) == Reverse(StableSort(s, asc))
  {
    var up, down := StableSort(s, asc), StableSort(s, desc);
    FlippedPreorder(asc, desc);
    StableSortSorted(s, asc);
    StableSortSorted(s, desc);
    ReverseSortedFlipped(up, asc, desc);
    StableSortPermutes(s, asc);
    StableSortPermutes(s, desc);
    ReversePermutes(up);
    NoTiesFlipped(s, down, asc, desc);
    SortedUnique(down, Reverse(up), desc);
  }

  // ---------------------------------------------------------------------------
  // Pagination

  /** Where Array.prototype.slice starts or stops for the relative index `rel`
      into a list of `len` elements: negative indices count from the end. */
  function SliceBound(rel: int, len: nat): (k: nat)
    ensures k <= len
  {
    if rel < 0 then Max(len + rel, 0) else Min(rel, len)
  }

  /** Array.prototype.slice(start, end): a contiguous run of s, beginning
      where the normalised start index points. */
  function Slice<T(!new)>(s: seq<T>, start: int, end: int): (r: seq<T>)
    ensures SliceBound(start, |s|) + |r| <= |s|
    ensures r == s[SliceBound(start, |s|)..SliceBound(start, |s|) + |r|]
  {
    var from, to := SliceBound(start, |s|), SliceBound(end, |s|);
    if from < to then s[from..to] else []
  }

  /** Index of the first row of a page: (page - 1) * pageSize. */
  function PageStart(page: int, pageSize: int): (r: int)
    ensures 1 <= page && 0 <= pageSize ==> 0 <= r
  {
    (page - 1) * pageSize
  }

  lemma {:induction false} MulMonotonic(a: int, b: int, c: int)
    requires a <= b && 0 <= c
    ensures a * c <= b * c
  {
  }

  /** The page slice `sorted.slice(start, start + pageSize)`. For a page and a
      page size of at least 1 it is the contiguous run of at most pageSize
      elements starting at (page - 1) * pageSize. */
  function Paginate<T(!new)>(sorted: seq<T>, page: int, pageSize: int): (r: seq<T>)
    ensures |r| <= |sorted|
    ensures 1 <= page && 0 < pageSize ==>
              |r| == Max(0, Min(pageSize, |sorted| - PageStart(page, pageSize)))
    ensures 1 <= page && 0 < pageSize ==>
              forall i :: 0 <= i < |r| ==> r[i] == sorted[PageStart(page, pageSize) + i]
  {
    var start := PageStart(page, pageSize);
    if 1 <= page && 0 < pageSize then
      MulMonotonic(0, page - 1, pageSize);
      SliceFrom(sorted, start, pageSize);
      Slice(sorted, start, start + pageSize)
    else
      SliceWithin(sorted, start, start + pageSize);
      Slice(sorted, start, start + pageSize)
  }

  lemma {:induction false} SliceWithin<T(!new)>(s: seq<T>, start: int, end: int)
    ensures |Slice(s, start, end)| <= |s|
  {
  }

  /** A slice from a non-negative start is the run of at most `size` elements
      that begins there. */
  lemma {:induction false} SliceFrom<T(!new)>(s: seq<T>, start: int, size: int)
    requires 0 <= start && 0 < size
    ensures |Slice(s, start, start + size)| == Max(0, Min(size, |s| - start))
    ensures forall k :: start <= k < start + |Slice(s, start, start + size)| ==> Slice(s, start, start + size)[k - start] == s[k]
  {
  }

  /** Math.ceil(count / pageSize): the least number of pages of pageSize rows
      that hold `count` rows. */
  function TotalPages(count: nat, pageSize: int): (r: nat)
    requires 0 < pageSize
    ensures (r - 1) * pageSize < count <= r * pageSize
    ensures r == 0 <==> count == 0
  {
    if count == 0 then 0
    else
      var q := (count - 1) / pageSize;
      assert q * pageSize <= count - 1 < q * pageSize + pageSize;
      q + 1
  }

  /** A page after the last one is empty, and no error is raised. */
  lemma {:induction false} PastLastPageIsEmpty<T(!new)>(sorted: seq<T>, page: int, pageSize: int)
    requires 0 < pageSize && 1 <= page
    requires page > TotalPages(|sorted|, pageSize)
    ensures Paginate(sorted, page, pageSize) == []
  {
    MulMonotonic(TotalPages(|sorted|, pageSize), page - 1, pageSize);
  }

  /** The first page, where changing the search or the page size lands, holds
      min(pageSize, n) rows: it is empty only when nothing matched. */
  lemma {:induction false} FirstPage<T(!new)>(sorted: seq<T>, pageSize: int)
    requires 0 < pageSize
    ensures |Paginate(sorted, 1, pageSize)| == Min(pageSize, |sorted|)
    ensures Paginate(sorted, 1, pageSize) == sorted[..Min(pageSize, |sorted|)]
  {
  }

  // ---------------------------------------------------------------------------
  // Label, row numbers and buttons

  /** "showing X to Y of N": X. */
  function RangeStart(page: int, pageSize: int): (r: int)
    ensures 1 <= page && 0 <= pageSize ==> 1 <= r
  {
    PageStart(page, pageSize) + 1
  }

  /** "showing X to Y of N": Y. */
  function RangeEnd(page: int, pageSize: int, count: nat): (r: int)
    ensures r <= count && r <= page * pageSize
    ensures r == count || r == page * pageSize
  {
    Min(page * pageSize, count)
  }

  /** The number shown in front of row i of the page. */
  function RowNumber(page: int, pageSize: int, i: int): (r: int)
    ensures r == RangeStart(page, pageSize) + i
  {
    PageStart(page, pageSize) + i + 1
  }

  /** For a page between 1 and the page count, the label names exactly the
      rows shown: X..Y are 1-based positions in the sorted list. */
  lemma {:induction false} LabelMatchesPage<T(!new)>(sorted: seq<T>, page: int, pageSize: int)
    requires 0 < pageSize
    requires 1 <= page <= TotalPages(|sorted|, pageSize)
    ensures 1 <= RangeStart(page, pageSize) <= RangeEnd(page, pageSize, |sorted|) <= |sorted|
    ensures RangeEnd(page, pageSize, |sorted|) - RangeStart(page, pageSize) + 1 == |Paginate(sorted, page, pageSize)|
  {
    var n := |sorted|;
    var total := TotalPages(n, pageSize);
    MulMonotonic(0, page - 1, pageSize);
    MulMonotonic(page - 1, total - 1, pageSize);
    assert page * pageSize == PageStart(page, pageSize) + pageSize;
  }

  /** With nothing to show, the label on page p reads "(p - 1) * pageSize + 1
      to 0 of 0": the page is not reset when the list empties, so only page 1
      reads "1 to 0 of 0", and a later page shows a start above its end. */
  lemma {:induction false} EmptyLabel(page: int, pageSize: int)
    requires 0 < pageSize && 1 <= page
    ensures RangeEnd(page, pageSize, 0) == 0 < RangeStart(page, pageSize) == (page - 1) * pageSize + 1
    ensures page == 1 <==> RangeStart(page, pageSize) == 1
    ensures TotalPages(0, pageSize) == 0
  {
    MulMonotonic(0, page - 1, pageSize);
    if page != 1 {
      MulMonotonic(1, page - 1, pageSize);
    }
  }

  /** Row i of a page is numbered by its 1-based position in the sorted list,
      and the numbers run on from the label's X. */
  lemma {:induction false} RowNumbers<T(!new)>(sorted: seq<T>, page: int, pageSize: int)
    requires 0 < pageSize && 1 <= page
    ensures forall i :: 0 <= i < |Paginate(sorted, page, pageSize)| ==>
              && RowNumber(page, pageSize, i) == RangeStart(page, pageSize) + i
              && 1 <= RowNumber(page, pageSize, i) <= |sorted|
              && Paginate(sorted, page, pageSize)[i] == sorted[RowNumber(page, pageSize, i) - 1]
  {
    MulMonotonic(0, page - 1, pageSize);
  }

  /** The "previous" button is disabled on page 1. */
  predicate PrevDisabled(page: int) {
    page == 1
  }

  /** The "next" button is disabled on the last page and when there are no pages. */
  predicate NextDisabled(page: int, totalPages: nat) {
    page == totalPages || totalPages == 0
  }

  /** From a page between 1 and the page count, the enabled buttons lead to a
      page between 1 and the page count. */
  lemma {:induction false} NavigationStaysInRange(page: int, totalPages: nat)
    requires 1 <= page <= totalPages
    ensures !NextDisabled(page, totalPages) ==> 1 <= page + 1 <= totalPages
    ensures !PrevDisabled(page) ==> 1 <= page - 1 <= totalPages
  {
  }

  /** The next-button guard only tests equality: beyond the last page (after a
      delete, or with a remembered page) "next" stays enabled and leads to
      another empty page. */
  lemma {:induction false} NextEnabledPastLastPage<T(!new)>(sorted: seq<T>, page: int, pageSize: int)
    requires 0 < pageSize
    requires 0 < TotalPages(|sorted|, pageSize) < page
    ensures !NextDisabled(page, TotalPages(|sorted|, pageSize))
    ensures Paginate(sorted, page, pageSize) == [] && Paginate(sorted, page + 1, pageSize) == []
  {
    PastLastPageIsEmpty(sorted, page, pageSize);
    PastLastPageIsEmpty(sorted, page + 1, pageSize);
  }

  // ---------------------------------------------------------------------------
  // Table body

  /** What the table body shows: skeleton rows while loading, the "no data" row,
      or the numbered rows of the page. */
  datatype Body<T> = Skeleton | NoData | Rows(rows: seq<(int, T)>)

  /** The body. The "no data" test looks at the unfiltered list `all`, so a
      search that matches nothing shows an empty body rather than "no data". */
  function TableBody<T(!new)>(loading: bool, all: seq<T>, paginated: seq<T>, page: int, pageSize: int): (b: Body<T>)
    ensures b.Skeleton? <==> loading
    ensures b.NoData? <==> !loading && all == []
    ensures b.Rows? ==> |b.rows| == |paginated|
    ensures b.Rows? ==> forall i :: 0 <= i < |paginated| ==> b.rows[i] == (RowNumber(page, pageSize, i), paginated[i])
  {
    if loading then Skeleton
    else if all == [] then NoData
    else Rows(seq(|paginated|, i requires 0 <= i < |paginated| => (RowNumber(page, pageSize, i), paginated[i])))
  }
}
