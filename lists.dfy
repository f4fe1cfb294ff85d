/**
 * The array idioms the UI is built from: `filter`, the membership toggle
 * (`includes ? filter : append`), an insertion-ordered `Set`, and `slice`.
 */
module Lists {

  /** `a` is an order-preserving subsequence of `b`. */
  ghost predicate IsSubseq<T>(a: seq<T>, b: seq<T>)
    decreases |b|
  {
    a == [] || (b != [] && (IsSubseq(a, b[1..]) || (a[0] == b[0] && IsSubseq(a[1..], b[1..]))))
  }

  /** Number of occurrences of `x` in `s`. */
  function Count<T(==)>(s: seq<T>, x: T): nat {
    if s == [] then 0 else (if s[0] == x then 1 else 0) + Count(s[1..], x)
  }

  /** `s.filter(keep)`. */
  function Filter<T(==,!new)>(s: seq<T>, keep: T -> bool): (r: seq<T>)
    ensures |r| <= |s|
    ensures forall x :: x in r <==> x in s && keep(x)
    ensures forall x :: Count(r, x) == if keep(x) then Count(s, x) else 0
    ensures IsSubseq(r, s)
    ensures (forall x :: x in s ==> keep(x)) ==> r == s
  {
    if s == [] then []
    else if keep(s[0]) then
      var t := Filter(s[1..], keep);
      assert ([s[0]] + t)[1..] == t;
      [s[0]] + t
    else Filter(s[1..], keep)
  }

  lemma {:induction false} FilterAppend<T(!new)>(a: seq<T>, b: seq<T>, keep: T -> bool)
    ensures Filter(a + b, keep) == Filter(a, keep) + Filter(b, keep)
  {
    if a == [] {
      assert a + b == b;
    } else {
      assert (a + b)[1..] == a[1..] + b;
      FilterAppend(a[1..], b, keep);
    }
  }

  /** Filtering with two predicates that agree everywhere gives the same list. */
  lemma {:induction false} FilterExt<T(!new)>(s: seq<T>, p: T -> bool, q: T -> bool)
    requires forall x :: p(x) == q(x)
    ensures Filter(s, p) == Filter(s, q)
  {
    if s != [] {
      FilterExt(s[1..], p, q);
    }
  }

  /** What a filter keeps and what it drops add up to the whole list. */
  lemma {:induction false} FilterPartition<T(!new)>(s: seq<T>, keep: T -> bool, drop: T -> bool)
    requires forall x :: drop(x) == !keep(x)
    ensures |Filter(s, keep)| + |Filter(s, drop)| == |s|
  {
    if s != [] {
      FilterPartition(s[1..], keep, drop);
    }
  }

  /** Removing every occurrence of one value drops exactly its occurrences. */
  lemma {:induction false} FilterOutCount<T(!new)>(s: seq<T>, x: T)
    ensures |Filter(s, y => y != x)| == |s| - Count(s, x)
    ensures forall y :: y != x ==> Count(Filter(s, y => y != x), y) == Count(s, y)
  {
    if s != [] {
      FilterOutCount(s[1..], x);
    }
  }

  /**
   * The membership toggle: `s.includes(x) ? s.filter(y => y !== x) : [...s, x]`.
   * It flips the membership of `x` and leaves every other value's
   * membership, and multiplicity, as it was.
   */
  function Toggle<T(==,!new)>(s: seq<T>, x: T): (r: seq<T>)
    ensures x in r <==> x !in s
    ensures forall y :: y != x ==> (y in r <==> y in s)
    ensures x !in s ==> r == s + [x]
    ensures x in s ==> IsSubseq(r, s) && |r| == |s| - Count(s, x)
    ensures forall y :: y != x ==> Count(r, y) == Count(s, y)
  {
    if x in s then
      FilterOutCount(s, x);
      Filter(s, y => y != x)
    else
      CountAppendOne(s, x);
      s + [x]
  }

  lemma {:induction false} CountAppend<T>(a: seq<T>, b: seq<T>)
    ensures forall y :: Count(a + b, y) == Count(a, y) + Count(b, y)
  {
    if a == [] {
      assert a + b == b;
    } else {
      assert (a + b)[1..] == a[1..] + b;
      CountAppend(a[1..], b);
    }
  }

  lemma CountAppendOne<T>(s: seq<T>, x: T)
    ensures forall y :: Count(s + [x], y) == Count(s, y) + (if x == y then 1 else 0)
  {
    CountAppend(s, [x]);
    forall y ensures Count([x], y) == if x == y then 1 else 0 {
      assert [x][1..] == [];
      assert Count([x], y) == (if x == y then 1 else 0) + Count([x][1..], y);
    }
  }

  /** Toggling an absent value twice gives the list back. */
  lemma ToggleTwice<T(!new)>(s: seq<T>, x: T)
    requires x !in s
    ensures Toggle(Toggle(s, x), x) == s
  {
    FilterAppend(s, [x], y => y != x);
  }

  /** `s.filter((_, index) => index !== i)`: drops the element at `i`, if there is one. */
  function WithoutIndex<T>(s: seq<T>, i: int): (r: seq<T>)
    ensures 0 <= i < |s| ==> r == s[..i] + s[i + 1..]
    ensures !(0 <= i < |s|) ==> r == s
  {
    if s == [] then []
    else if i == 0 then s[1..]
    else [s[0]] + WithoutIndex(s[1..], i - 1)
  }

  /** No value occurs twice. */
  predicate NoDup<T(==)>(s: seq<T>) {
    forall i, j :: 0 <= i < j < |s| ==> s[i] != s[j]
  }

  /**
   * The contents of a JavaScript `Set` filled by `add` in the order of `s`
   * (a `Set` iterates in insertion order): each value once, at its first
   * occurrence.
   */
  function Dedup<T(==,!new)>(s: seq<T>): (r: seq<T>)
    ensures NoDup(r)
    ensures forall x :: x in r <==> x in s
  {
    if s == [] then []
    else
      var d := Dedup(s[..|s| - 1]);
      assert forall x :: x in s <==> x in s[..|s| - 1] || x == s[|s| - 1];
      if s[|s| - 1] in d then d else d + [s[|s| - 1]]
  }

  /** Index of the first occurrence of `x` in `s`. */
  function FirstIndex<T(==)>(s: seq<T>, x: T): (k: nat)
    requires x in s
    ensures k < |s| && s[k] == x && x !in s[..k]
  {
    if s[0] == x then 0 else 1 + FirstIndex(s[1..], x)
  }

  lemma FirstIndexPrefix<T>(s: seq<T>, n: nat, x: T)
    requires n <= |s| && x in s[..n]
    ensures FirstIndex(s, x) == FirstIndex(s[..n], x)
  {
    var k := FirstIndex(s[..n], x);
    var j := FirstIndex(s, x);
    assert s[..n][..k] == s[..k];
  }

  /** The deduplicated list is in first-seen order. */
  lemma {:induction false} DedupFirstSeenOrder<T(!new)>(s: seq<T>, i: nat, j: nat)
    requires i < j < |Dedup(s)|
    ensures FirstIndex(s, Dedup(s)[i]) < FirstIndex(s, Dedup(s)[j])
    decreases |s|
  {
    var p := s[..|s| - 1];
    var d := Dedup(p);
    var r := Dedup(s);
    assert r[i] in s && r[j] in s;
    if j < |d| {
      assert r[i] == d[i] && r[j] == d[j];
      DedupFirstSeenOrder(p, i, j);
      FirstIndexPrefix(s, |s| - 1, d[i]);
      FirstIndexPrefix(s, |s| - 1, d[j]);
    } else {
      assert r == d + [s[|s| - 1]] && r[j] == s[|s| - 1] && r[j] !in p;
      assert r[i] == d[i] && d[i] in p;
      FirstIndexPrefix(s, |s| - 1, d[i]);
      assert FirstIndex(s, r[j]) == |s| - 1;
    }
  }

  /** Where a JavaScript `slice` index lands: negative indices count from the end; the result lies in [0, n]. */
  function SliceIndex(i: int, n: nat): (k: nat)
    ensures k <= n
    ensures 0 <= i <= n ==> k == i
  {
    if i < 0 then (if n + i < 0 then 0 else n + i)
    else if i > n then n
    else i
  }

  /** `s.slice(start, end)`. */
  function JsSlice<T>(s: seq<T>, start: int, end: int): (r: seq<T>)
    ensures |r| <= |s|
    ensures 0 <= start <= end ==> |r| <= end - start
    ensures 0 <= start <= |s| && start <= end ==>
              r == s[start..if end <= |s| then end else |s|]
  {
    var b := SliceIndex(start, |s|);
    var e := SliceIndex(end, |s|);
    if b < e then s[b..e] else []
  }
}
