/** Orders on sequences and the three `Vec` operations the font viewer relies on:
    `sort`, `dedup` and `extract_if` with an equality test. */
module SeqOps {

  /** `le` is a total order: total, antisymmetric and transitive. */
  ghost predicate TotalOrder<T(!new)>(le: (T, T) -> bool) {
    && (forall a, b :: le(a, b) || le(b, a))
    && (forall a, b :: le(a, b) && le(b, a) ==> a == b)
    && (forall a, b, c :: le(a, b) && le(b, c) ==> le(a, c))
  }

  ghost predicate Sorted<T>(le: (T, T) -> bool, s: seq<T>) {
    forall i, j :: 0 <= i < j < |s| ==> le(s[i], s[j])
  }

  /** Sorted and without repeated elements: every earlier element is strictly below every later one. */
  ghost predicate StrictlySorted<T>(le: (T, T) -> bool, s: seq<T>) {
    forall i, j :: 0 <= i < j < |s| ==> le(s[i], s[j]) && s[i] != s[j]
  }

  ghost predicate NoDuplicates<T>(s: seq<T>) {
    forall i, j :: 0 <= i < j < |s| ==> s[i] != s[j]
  }

  /** The natural order on indices (`usize`). */
  function NatLe(a: nat, b: nat): bool {
    a <= b
  }

  lemma NatLeIsTotalOrder()
    ensures TotalOrder(NatLe)
  {
  }

  /** Inserts `x` before the first element it is below. */
  function Insert<T>(le: (T, T) -> bool, x: T, s: seq<T>): (r: seq<T>)
    ensures multiset(r) == multiset(s) + multiset{x}
  {
    if |s| == 0 then [x]
    else if le(x, s[0]) then [x] + s
    else
      assert s == [s[0]] + s[1..];
      [s[0]] + Insert(le, x, s[1..])
  }

  /** `slice::sort`: a permutation of `s` in ascending order (see SortSorted). Under a total
      order the sorted permutation is unique, so stability does not show. */
  function Sort<T>(le: (T, T) -> bool, s: seq<T>): (r: seq<T>)
    ensures multiset(r) == multiset(s)
  {
    if |s| == 0 then []
    else
      assert s == [s[0]] + s[1..];
      Insert(le, s[0], Sort(le, s[1..]))
  }

  lemma {:induction false} InsertSorted<T(!new)>(le: (T, T) -> bool, x: T, s: seq<T>)
    requires TotalOrder(le) && Sorted(le, s)
    ensures Sorted(le, Insert(le, x, s))
  {
    if |s| > 0 && !le(x, s[0]) {
      var tail := Insert(le, x, s[1..]);
      InsertSorted(le, x, s[1..]);
      forall k | 0 <= k < |tail|
        ensures le(s[0], tail[k])
      {
        assert tail[k] in multiset(tail);
        if tail[k] != x {
          assert tail[k] in multiset(s[1..]);
          var j :| 0 <= j < |s[1..]| && s[1..][j] == tail[k];
          assert s[j + 1] == tail[k];
        }
      }
    }
  }

  lemma {:induction false} SortSorted<T(!new)>(le: (T, T) -> bool, s: seq<T>)
    requires TotalOrder(le)
    ensures Sorted(le, Sort(le, s))
  {
    if |s| > 0 {
      SortSorted(le, s[1..]);
      InsertSorted(le, s[0], Sort(le, s[1..]));
    }
  }

  /** `Vec::dedup`: removes consecutive repeated elements, keeping one of each run. */
  function Dedup<T(==)>(s: seq<T>): (r: seq<T>)
    ensures forall i :: 0 <= i < |r| ==> r[i] in s
    ensures forall i :: 0 <= i < |s| ==> s[i] in r
    ensures |s| > 0 ==> |r| > 0 && r[0] == s[0]
    ensures forall i :: 0 <= i < |r| - 1 ==> r[i] != r[i + 1]
  {
    if |s| <= 1 then s
    else if s[0] == s[1] then Dedup(s[1..])
    else
      assert s == [s[0]] + s[1..];
      [s[0]] + Dedup(s[1..])
  }

  /** `sort` followed by `dedup` keeps exactly the values of its input. */
  lemma SortDedupMembers<T>(le: (T, T) -> bool, s: seq<T>)
    ensures forall x :: x in Dedup(Sort(le, s)) <==> x in s
  {
    var sorted := Sort(le, s);
    assert forall x :: x in sorted <==> x in multiset(sorted);
    assert forall x :: x in s <==> x in multiset(s);
    forall x
      ensures x in Dedup(sorted) <==> x in sorted
    {
      if x in sorted {
        var i :| 0 <= i < |sorted| && sorted[i] == x;
      }
      if x in Dedup(sorted) {
        var i :| 0 <= i < |Dedup(sorted)| && Dedup(sorted)[i] == x;
      }
    }
  }

  /** On sorted input `dedup` leaves no repeated element at all, not only no adjacent ones. */
  lemma {:induction false} DedupStrictlySorted<T(!new)>(le: (T, T) -> bool, s: seq<T>)
    requires TotalOrder(le) && Sorted(le, s)
    ensures StrictlySorted(le, Dedup(s))
  {
    if |s| > 1 {
      DedupStrictlySorted(le, s[1..]);
      if s[0] != s[1] {
        var d := Dedup(s[1..]);
        forall k | 0 <= k < |d|
          ensures le(s[0], d[k]) && s[0] != d[k]
        {
          assert d[k] in s[1..];
          var j :| 0 <= j < |s[1..]| && s[1..][j] == d[k];
          assert le(s[0], s[j + 1]);
          if j > 0 {
            assert le(s[1], s[j + 1]);
          }
        }
      }
    }
  }

  /** `Vec::extract_if(.., |e| *e == x)` with the extracted items dropped: every occurrence of
      `x` goes, the rest stay in their order (see RemoveAllConcat). */
  function RemoveAll<T(==)>(s: seq<T>, x: T): (r: seq<T>)
    ensures multiset(r) == multiset(s)[x := 0]
  {
    if |s| == 0 then []
    else
      assert s == [s[0]] + s[1..];
      (if s[0] == x then [] else [s[0]]) + RemoveAll(s[1..], x)
  }

  /** Removal distributes over concatenation: the survivors keep their relative order. */
  lemma {:induction false} RemoveAllConcat<T>(a: seq<T>, b: seq<T>, x: T)
    ensures RemoveAll(a + b, x) == RemoveAll(a, x) + RemoveAll(b, x)
  {
    if |a| > 0 {
      var head := if a[0] == x then [] else [a[0]];
      assert (a + b)[0] == a[0];
      assert (a + b)[1..] == a[1..] + b;
      assert RemoveAll(a + b, x) == head + RemoveAll(a[1..] + b, x);
      assert RemoveAll(a, x) == head + RemoveAll(a[1..], x);
      RemoveAllConcat(a[1..], b, x);
      ConcatAssociative(head, RemoveAll(a[1..], x), RemoveAll(b, x));
    } else {
      assert a + b == b;
    }
  }

  lemma {:induction false} RemoveAllStrictlySorted<T>(le: (T, T) -> bool, s: seq<T>, x: T)
    requires StrictlySorted(le, s)
    ensures StrictlySorted(le, RemoveAll(s, x))
  {
    if |s| > 0 {
      var rest := RemoveAll(s[1..], x);
      RemoveAllStrictlySorted(le, s[1..], x);
      forall k | 0 <= k < |rest|
        ensures le(s[0], rest[k]) && s[0] != rest[k]
      {
        assert rest[k] in multiset(rest);
        assert rest[k] in multiset(s[1..]);
        var j :| 0 <= j < |s[1..]| && s[1..][j] == rest[k];
        assert s[j + 1] == rest[k];
      }
    }
  }

  /** A non-empty sequence is its front followed by its last element. */
  lemma FrontLast<T>(s: seq<T>)
    requires |s| > 0
    ensures s[..|s| - 1] + [s[|s| - 1]] == s
  {
  }

  lemma ConcatAssociative<T>(a: seq<T>, b: seq<T>, c: seq<T>)
    ensures a + (b + c) == (a + b) + c
  {
  }

  lemma HeadIsMember<T>(t: seq<T>)
    ensures |t| > 0 ==> t[0] in t
  {
  }

  /** Two strictly sorted sequences with the same elements are equal. */
  lemma {:induction false} StrictlySortedUnique<T(!new)>(le: (T, T) -> bool, s: seq<T>, t: seq<T>)
    requires TotalOrder(le) && StrictlySorted(le, s) && StrictlySorted(le, t)
    requires forall y :: y in s <==> y in t
    ensures s == t
  {
    if |s| == 0 {
      HeadIsMember(t);
    } else {
      assert s[0] in s;
      assert |t| > 0;
      assert t[0] in t;
      var k :| 0 <= k < |t| && t[k] == s[0];
      var m :| 0 <= m < |s| && s[m] == t[0];
      assert le(t[0], t[k]);
      assert le(s[0], s[m]);
      assert s[0] == t[0];
      forall y
        ensures y in s[1..] <==> y in t[1..]
      {
        if y in s[1..] {
          var i :| 0 <= i < |s[1..]| && s[1..][i] == y;
          assert s[i + 1] == y && s[0] != y;
          assert y in t;
        }
        if y in t[1..] {
          var i :| 0 <= i < |t[1..]| && t[1..][i] == y;
          assert t[i + 1] == y && t[0] != y;
          assert y in s;
        }
      }
      StrictlySortedUnique(le, s[1..], t[1..]);
      assert s == [s[0]] + s[1..];
      assert t == [t[0]] + t[1..];
    }
  }
}
