/** Lexicographic order of texts by character code, as JavaScript compares strings. */
module TextOrder {

  predicate Less(a: string, b: string) {
    b != [] && (a == [] || a[0] < b[0] || (a[0] == b[0] && Less(a[1..], b[1..])))
  }

  lemma {:induction false} LessTrichotomy(a: string, b: string)
    ensures Less(a, b) || a == b || Less(b, a)
    ensures !(Less(a, b) && Less(b, a)) && !(a == b && Less(a, b))
  {
    if a != [] && b != [] && a[0] == b[0] {
      LessTrichotomy(a[1..], b[1..]);
      assert a == [a[0]] + a[1..] && b == [b[0]] + b[1..];
    }
  }

  lemma {:induction false} LessTransitive(a: string, b: string, c: string)
    requires Less(a, b) && Less(b, c)
    ensures Less(a, c)
  {
    if a != [] && a[0] == b[0] && b[0] == c[0] {
      LessTransitive(a[1..], b[1..], c[1..]);
    }
  }
}

/**
 Insertion sort over arrays without library methods.

 `after(p, c)` says that a prior element `p` must move behind the current element `c`; the three
 sorts of the source differ only in this test.
 */
module ShadowSafe {
  import opened Lists
  import opened TextOrder

  /** "Not after" is a total preorder. */
  ghost predicate IsOrder<T(!new)>(after: (T, T) -> bool) {
    && (forall a, b :: !after(a, b) || !after(b, a))
    && (forall a, b, c :: !after(a, b) && !after(b, c) ==> !after(a, c))
  }

  function Insert<T>(s: seq<T>, x: T, after: (T, T) -> bool): (r: seq<T>)
    ensures |r| == |s| + 1
  {
    if s == [] || !after(s[|s| - 1], x) then s + [x]
    else Insert(s[..|s| - 1], x, after) + [s[|s| - 1]]
  }

  /** What the sorts compute: elements inserted one by one from the left. */
  function Sort<T>(s: seq<T>, after: (T, T) -> bool): (r: seq<T>)
    ensures |r| == |s|
  {
    if s == [] then [] else Insert(Sort(s[..|s| - 1], after), s[|s| - 1], after)
  }

  predicate Sorted<T>(s: seq<T>, after: (T, T) -> bool) {
    forall i, j :: 0 <= i < j < |s| ==> !after(s[i], s[j])
  }

  /** The subsequence of elements that tie with `x`. */
  function Ties<T>(s: seq<T>, x: T, after: (T, T) -> bool): seq<T> {
    if s == [] then []
    else
      var last := s[|s| - 1];
      Ties(s[..|s| - 1], x, after) + if !after(last, x) && !after(x, last) then [last] else []
  }

  lemma {:induction false} InsertHolds<T>(s: seq<T>, x: T, after: (T, T) -> bool)
    ensures multiset(Insert(s, x, after)) == multiset(s) + multiset{x}
  {
    if !(s == [] || !after(s[|s| - 1], x)) {
      InsertHolds(s[..|s| - 1], x, after);
      assert s == s[..|s| - 1] + [s[|s| - 1]];
    }
  }

  lemma InsertMember<T>(s: seq<T>, x: T, after: (T, T) -> bool, i: nat)
    requires i <= |s|
    ensures Insert(s, x, after)[i] == x || Insert(s, x, after)[i] in s
  {
    InsertHolds(s, x, after);
    assert Insert(s, x, after)[i] in multiset(Insert(s, x, after));
  }

  lemma BehindLast<T(!new)>(s: seq<T>, x: T, after: (T, T) -> bool)
    requires IsOrder(after) && Sorted(s, after) && s != [] && !after(s[|s| - 1], x)
    ensures Sorted(s + [x], after)
  {
    forall i | 0 <= i < |s| ensures !after(s[i], x) {
      if i < |s| - 1 { assert !after(s[i], s[|s| - 1]); }
    }
  }

  lemma {:induction false} InsertKeeps<T(!new)>(s: seq<T>, x: T, after: (T, T) -> bool)
    requires IsOrder(after) && Sorted(s, after)
    ensures Sorted(Insert(s, x, after), after)
    ensures multiset(Insert(s, x, after)) == multiset(s) + multiset{x}
  {
    InsertHolds(s, x, after);
    if s != [] {
      if !after(s[|s| - 1], x) {
        BehindLast(s, x, after);
      } else {
        var init, last := s[..|s| - 1], s[|s| - 1];
        InsertKeeps(init, x, after);
        InsertBefore(init, last, x, after);
      }
    }
  }

  /** Everything in the shorter result still belongs before the last element. */
  lemma InsertBefore<T(!new)>(init: seq<T>, last: T, x: T, after: (T, T) -> bool)
    requires IsOrder(after) && Sorted(init + [last], after) && after(last, x) && Sorted(Insert(init, x, after), after)
    ensures Sorted(Insert(init, x, after) + [last], after)
  {
    var inner, s := Insert(init, x, after), init + [last];
    forall i | 0 <= i < |inner| ensures !after(inner[i], last) {
      InsertMember(init, x, after, i);
      if inner[i] != x {
        var k :| 0 <= k < |init| && init[k] == inner[i];
        assert s[k] == init[k] && s[|init|] == last;
      }
    }
  }

  lemma {:induction false} TiesConcat<T>(s: seq<T>, t: seq<T>, x: T, after: (T, T) -> bool)
    ensures Ties(s + t, x, after) == Ties(s, x, after) + Ties(t, x, after)
    decreases |t|
  {
    if t == [] {
      assert s + t == s;
    } else {
      assert (s + t)[..|s + t| - 1] == s + t[..|t| - 1];
      TiesConcat(s, t[..|t| - 1], x, after);
    }
  }

  lemma {:induction false} InsertStable<T(!new)>(s: seq<T>, x: T, y: T, after: (T, T) -> bool)
    requires IsOrder(after)
    ensures Ties(Insert(s, x, after), y, after) == Ties(s + [x], y, after)
  {
    if s != [] && after(s[|s| - 1], x) {
      var init, last := s[..|s| - 1], s[|s| - 1];
      assert s == init + [last];
      InsertStable(init, x, y, after);
      TiesConcat(Insert(init, x, after), [last], y, after);
      TiesConcat(init, [x], y, after);
      TiesConcat(init, [last], y, after);
      TiesConcat(init + [last], [x], y, after);
    }
  }

  /** The result is sorted, a permutation, and keeps the order of ties. */
  lemma {:induction false} SortIsStable<T(!new)>(s: seq<T>, after: (T, T) -> bool)
    requires IsOrder(after)
    ensures Sorted(Sort(s, after), after)
    ensures multiset(Sort(s, after)) == multiset(s)
    ensures forall x :: Ties(Sort(s, after), x, after) == Ties(s, x, after)
  {
    if s != [] {
      var init, last := s[..|s| - 1], s[|s| - 1];
      SortIsStable(init, after);
      assert s == init + [last];
      InsertKeeps(Sort(init, after), last, after);
      forall x ensures Ties(Sort(s, after), x, after) == Ties(s, x, after) {
        InsertStable(Sort(init, after), last, x, after);
        TiesConcat(Sort(init, after), [last], x, after);
        TiesConcat(init, [last], x, after);
      }
    }
  }

  predicate NoTies<T(==)>(s: seq<T>, after: (T, T) -> bool) {
    forall i, j :: 0 <= i < |s| && 0 <= j < |s| && !after(s[i], s[j]) && !after(s[j], s[i]) ==> s[i] == s[j]
  }

  lemma HeadsAgree<T(!new)>(a: seq<T>, b: seq<T>, after: (T, T) -> bool)
    requires IsOrder(after) && Sorted(a, after) && Sorted(b, after) && NoTies(a, after)
    requires multiset(a) == multiset(b) && a != [] && b != []
    ensures a[0] == b[0]
  {
    assert a[0] in multiset(b) && b[0] in multiset(a);
    var i :| 0 <= i < |b| && b[i] == a[0];
    var j :| 0 <= j < |a| && a[j] == b[0];
    assert !after(b[0], b[i]) && !after(a[0], a[j]);
  }

  /** A sorted arrangement of elements without distinct ties is unique. */
  lemma {:induction false} SortedIsUnique<T(!new)>(a: seq<T>, b: seq<T>, after: (T, T) -> bool)
    requires IsOrder(after) && Sorted(a, after) && Sorted(b, after) && NoTies(a, after)
    requires multiset(a) == multiset(b)
    ensures a == b
  {
    assert |a| == |multiset(a)| == |multiset(b)| == |b|;
    if a != [] {
      HeadsAgree(a, b, after);
      DropHead(a, after);
      DropHead(b, after);
      assert NoTies(a[1..], after);
      SortedIsUnique(a[1..], b[1..], after);
    }
  }

  lemma DropHead<T>(s: seq<T>, after: (T, T) -> bool)
    requires Sorted(s, after) && s != []
    ensures s == [s[0]] + s[1..] && Sorted(s[1..], after) && multiset(s[1..]) == multiset(s) - multiset{s[0]}
  {
    assert s == [s[0]] + s[1..];
  }

  /** Without ties, sorting forgets the order in which the elements arrived. */
  lemma SortForgetsOrder<T(!new)>(a: seq<T>, b: seq<T>, after: (T, T) -> bool)
    requires IsOrder(after) && NoTies(a, after) && multiset(a) == multiset(b)
    ensures Sort(a, after) == Sort(b, after)
  {
    SortIsStable(a, after);
    SortIsStable(b, after);
    var r := Sort(a, after);
    forall i, j | 0 <= i < |r| && 0 <= j < |r| && !after(r[i], r[j]) && !after(r[j], r[i]) ensures r[i] == r[j] {
      assert r[i] in multiset(a) && r[j] in multiset(a);
    }
    SortedIsUnique(r, Sort(b, after), after);
  }

  // --- the loops ------------------------------------------------------------------------------

  lemma {:induction false} InsertAt<T>(left: seq<T>, right: seq<T>, x: T, after: (T, T) -> bool)
    requires left == [] || !after(left[|left| - 1], x)
    requires forall i :: 0 <= i < |right| ==> after(right[i], x)
    ensures Insert(left + right, x, after) == left + [x] + right
    decreases |right|
  {
    if right == [] {
      assert left + right == left;
    } else {
      var s, init := left + right, right[..|right| - 1];
      assert s[..|s| - 1] == left + init;
      InsertAt(left, init, x, after);
      assert left + [x] + right == left + [x] + init + [right[|right| - 1]];
    }
  }

  /** The inner loop: shifts the elements that belong behind `sorted[index]` and drops it in. */
  method ShiftIn<T>(sorted: array<T>, index: nat, after: (T, T) -> bool)
    requires index < sorted.Length
    modifies sorted
    ensures sorted[..index + 1] == Insert(old(sorted[..index]), old(sorted[index]), after)
    ensures forall k :: index < k < sorted.Length ==> sorted[k] == old(sorted[k])
  {
    var current := sorted[index];
    ghost var prefix := sorted[..index];
    var position := index - 1;
    while position >= 0 && after(sorted[position], current)
      invariant -1 <= position < index
      invariant forall k :: 0 <= k <= position ==> sorted[k] == prefix[k]
      invariant forall k :: position + 2 <= k <= index ==> sorted[k] == prefix[k - 1] && after(sorted[k], current)
      invariant forall k :: index < k < sorted.Length ==> sorted[k] == old(sorted[k])
    {
      sorted[position + 1] := sorted[position];
      position := position - 1;
    }
    sorted[position + 1] := current;
    InsertedAt(prefix, current, sorted[..index + 1], position + 1, after);
  }

  lemma InsertedAt<T>(prefix: seq<T>, x: T, result: seq<T>, at: nat, after: (T, T) -> bool)
    requires at <= |prefix| && |result| == |prefix| + 1 && result[at] == x
    requires forall k :: 0 <= k < at ==> result[k] == prefix[k]
    requires forall k :: at < k <= |prefix| ==> result[k] == prefix[k - 1] && after(result[k], x)
    requires at > 0 ==> !after(prefix[at - 1], x)
    ensures result == Insert(prefix, x, after)
  {
    var left, right := prefix[..at], prefix[at..];
    forall i | 0 <= i < |right| ensures after(right[i], x) {
      assert result[at + 1 + i] == right[i];
    }
    InsertAt(left, right, x, after);
    assert prefix == left + right;
    Spliced(prefix, x, result, at);
  }

  lemma Spliced<T>(prefix: seq<T>, x: T, result: seq<T>, at: nat)
    requires at <= |prefix| && |result| == |prefix| + 1 && result[at] == x
    requires forall k :: 0 <= k < at ==> result[k] == prefix[k]
    requires forall k :: at < k <= |prefix| ==> result[k] == prefix[k - 1]
    ensures result == prefix[..at] + [x] + prefix[at..]
  {
    var whole := prefix[..at] + [x] + prefix[at..];
    forall k | 0 <= k < |result| ensures result[k] == whole[k] {
      if k > at { assert whole[k] == prefix[at..][k - at - 1]; }
    }
  }

  /** The common body of `numericSortBy`, `numericSortStrings` and `numericSortByString`. */
  method InsertionSort<T>(source: seq<T>, after: (T, T) -> bool) returns (sorted: array<T>)
    ensures fresh(sorted)
    ensures sorted[..] == Sort(source, after)
  {
    sorted := new T[|source|](i requires 0 <= i < |source| => source[i]);
    if |source| == 0 { return; }
    assert sorted[..1] == source[..1] == [source[0]] && source[..1][..0] == [];
    for index := 1 to |source|
      invariant sorted[..index] == Sort(source[..index], after)
      invariant forall k :: index <= k < |source| ==> sorted[k] == source[k]
    {
      assert source[..index + 1][..index] == source[..index];
      ShiftIn(sorted, index, after);
    }
    assert source[..|source|] == source && sorted[..|source|] == sorted[..];
  }

  function ByNumber<T>(key: T -> int): (T, T) -> bool { (p, c) => key(p) > key(c) }

  function ByText<T>(key: T -> string, descending: bool): (T, T) -> bool {
    (p, c) => if descending then Less(key(p), key(c)) else Less(key(c), key(p))
  }

  lemma ByNumberIsOrder<T(!new)>(key: T -> int)
    ensures IsOrder(ByNumber(key))
  {
  }

  lemma ByTextIsOrder<T(!new)>(key: T -> string, descending: bool)
    ensures IsOrder(ByText(key, descending))
  {
    var after := ByText(key, descending);
    forall a: T, b: T ensures !after(a, b) || !after(b, a) {
      LessTrichotomy(key(a), key(b));
    }
    forall a: T, b: T, c: T | !after(a, b) && !after(b, c) ensures !after(a, c) {
      LessTrichotomy(key(a), key(b));
      LessTrichotomy(key(b), key(c));
      LessTrichotomy(key(a), key(c));
      if after(a, c) && key(a) != key(b) && key(b) != key(c) {
        if descending { LessTransitive(key(c), key(b), key(a)); } else { LessTransitive(key(a), key(b), key(c)); }
      }
    }
  }

  // --- de-duplication -------------------------------------------------------------------------

  /** Position of the first occurrence. */
  function FirstIndex<T(==)>(s: seq<T>, x: T): (i: nat)
    requires x in s
    ensures i < |s| && s[i] == x && forall k :: 0 <= k < i ==> s[k] != x
  {
    if s[0] == x then 0 else 1 + FirstIndex(s[1..], x)
  }

  lemma FirstIs<T>(s: seq<T>, i: nat)
    requires i < |s| && forall k :: 0 <= k < i ==> s[k] != s[i]
    ensures FirstIndex(s, s[i]) == i
  {
  }

  /** The scan of what was kept so far. */
  method Seen<T(==)>(unique: seq<T>, value: T) returns (seen: bool)
    ensures seen <==> value in unique
  {
    for index := 0 to |unique|
      invariant forall i :: 0 <= i < index ==> unique[i] != value
    {
      if unique[index] == value { return true; }
    }
    seen := false;
  }

  /** `numericUnique`: every value once, in the order of first occurrences. */
  method NumericUnique<T(==)>(source: seq<T>) returns (unique: seq<T>)
    ensures forall i :: 0 <= i < |unique| ==> unique[i] in source
    ensures forall k :: 0 <= k < |source| ==> source[k] in unique
    ensures forall i, j :: 0 <= i < j < |unique| ==> FirstIndex(source, unique[i]) < FirstIndex(source, unique[j])
    ensures Distinct(unique)
  {
    unique := [];
    for index := 0 to |source|
      invariant forall i :: 0 <= i < |unique| ==> unique[i] in source && FirstIndex(source, unique[i]) < index
      invariant forall k :: 0 <= k < index ==> source[k] in unique
      invariant forall i, j :: 0 <= i < j < |unique| ==> FirstIndex(source, unique[i]) < FirstIndex(source, unique[j])
    {
      var seen := Seen(unique, source[index]);
      if !seen {
        assert forall k :: 0 <= k < index ==> source[k] != source[index];
        FirstIs(source, index);
        unique := unique + [source[index]];
      }
    }
  }
}
