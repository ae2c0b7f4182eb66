/** Sums and descending orderings of integer sequences. */
module Counts {

  function Sum(s: seq<int>): int {
    if s == [] then 0 else s[0] + Sum(s[1..])
  }

  predicate Descending(s: seq<int>) {
    forall i, j | 0 <= i < j < |s| :: s[i] >= s[j]
  }

  predicate NonNegative(s: seq<int>) {
    forall i | 0 <= i < |s| :: s[i] >= 0
  }

  function InsertDesc(x: int, s: seq<int>): (r: seq<int>)
    requires Descending(s)
    ensures multiset(r) == multiset(s) + multiset{x}
    ensures |r| == |s| + 1 && (r[0] == x || (s != [] && r[0] == s[0]))
    ensures Descending(r)
  {
    if s == [] then [x]
    else if x >= s[0] then
      PrependDescending(x, s);
      [x] + s
    else
      Tail(s);
      var rest := InsertDesc(x, s[1..]);
      PrependDescending(s[0], rest);
      [s[0]] + rest
  }

  lemma PrependDescending(x: int, s: seq<int>)
    requires Descending(s) && (s == [] || s[0] <= x)
    ensures Descending([x] + s)
  {
    forall i, j | 0 <= i < j < |s| + 1
      ensures ([x] + s)[i] >= ([x] + s)[j]
    {
      assert s[0] >= s[j - 1];
    }
  }

  lemma HeadIsLargest(s: seq<int>, x: int)
    requires Descending(s) && x in multiset(s)
    ensures s != [] && x <= s[0]
  {
    assert x in s;
  }

  /** Python's sorted(s, reverse=True). */
  function SortDesc(s: seq<int>): (r: seq<int>)
    ensures multiset(r) == multiset(s)
    ensures Descending(r) && |r| == |s|
  {
    if s == [] then []
    else
      assert s == [s[0]] + s[1..];
      InsertDesc(s[0], SortDesc(s[1..]))
  }

  lemma {:induction false} SumAppend(a: seq<int>, b: seq<int>)
    ensures Sum(a + b) == Sum(a) + Sum(b)
  {
    if a == [] {
      assert a + b == b;
    } else {
      assert (a + b)[1..] == a[1..] + b;
      SumAppend(a[1..], b);
    }
  }

  lemma SumPrefix(s: seq<int>, k: nat)
    requires k < |s|
    ensures Sum(s[..k + 1]) == Sum(s[..k]) + s[k]
  {
    assert s[..k + 1] == s[..k] + [s[k]];
    SumAppend(s[..k], [s[k]]);
    assert [s[k]][1..] == [];
  }

  lemma SplitAt(s: seq<int>, i: nat)
    requires i < |s|
    ensures s == s[..i] + ([s[i]] + s[i + 1..])
  {
  }

  /** Taking the element at `i` out of a sequence. */
  lemma Remove(s: seq<int>, i: nat)
    requires i < |s|
    ensures Sum(s) == s[i] + Sum(s[..i] + s[i + 1..])
    ensures multiset(s) == multiset{s[i]} + multiset(s[..i] + s[i + 1..])
  {
    SplitAt(s, i);
    RemoveMiddle(s[..i], s[i], s[i + 1..]);
  }

  lemma RemoveMiddle(a: seq<int>, x: int, b: seq<int>)
    ensures Sum(a + ([x] + b)) == x + Sum(a + b)
    ensures multiset(a + ([x] + b)) == multiset{x} + multiset(a + b)
  {
    SumAppend(a, [x] + b);
    SumAppend(a, b);
    assert ([x] + b)[1..] == b;
  }

  lemma {:induction false} SumOfPermutation(a: seq<int>, b: seq<int>)
    requires multiset(a) == multiset(b)
    ensures Sum(a) == Sum(b) && |a| == |b|
    decreases |a|
  {
    assert |multiset(a)| == |a| && |multiset(b)| == |b|;
    if a != [] {
      assert a[0] in multiset(b);
      var i :| 0 <= i < |b| && b[i] == a[0];
      Remove(b, i);
      assert a == [a[0]] + a[1..];
      assert multiset(a[1..]) == multiset(a) - multiset{a[0]};
      assert multiset(b[..i] + b[i + 1..]) == multiset(b) - multiset{b[i]};
      SumOfPermutation(a[1..], b[..i] + b[i + 1..]);
    }
  }

  lemma Tail(s: seq<int>)
    requires Descending(s) && s != []
    ensures Descending(s[1..])
    ensures multiset(s) == multiset{s[0]} + multiset(s[1..])
  {
    assert s == [s[0]] + s[1..];
  }

  lemma {:induction false} DescendingIsUnique(a: seq<int>, b: seq<int>)
    requires multiset(a) == multiset(b) && Descending(a) && Descending(b)
    ensures a == b
    decreases |a|
  {
    SameSize(a, b);
    if a != [] {
      SameHead(a, b);
      Tail(a);
      Tail(b);
      CancelHead(a[0], multiset(a[1..]), multiset(b[1..]));
      DescendingIsUnique(a[1..], b[1..]);
      assert a == [a[0]] + a[1..] && b == [b[0]] + b[1..];
    }
  }

  lemma SameSize(a: seq<int>, b: seq<int>)
    requires multiset(a) == multiset(b)
    ensures |a| == |b|
  {
    assert |multiset(a)| == |a| && |multiset(b)| == |b|;
  }

  lemma SameHead(a: seq<int>, b: seq<int>)
    requires multiset(a) == multiset(b) && Descending(a) && Descending(b) && a != [] && b != []
    ensures a[0] == b[0]
  {
    assert a[0] in multiset(a) && b[0] in multiset(b);
    HeadIsLargest(b, a[0]);
    HeadIsLargest(a, b[0]);
  }

  lemma CancelHead(x: int, m: multiset<int>, n: multiset<int>)
    requires multiset{x} + m <= multiset{x} + n
    ensures m <= n
    ensures multiset{x} + m == multiset{x} + n ==> m == n
  {
    assert m == (multiset{x} + m) - multiset{x};
    assert n == (multiset{x} + n) - multiset{x};
    forall y
      ensures m[y] <= n[y]
    {
      assert (multiset{x} + m)[y] <= (multiset{x} + n)[y];
    }
  }

  /** Dropping the largest element never makes a prefix of the same length heavier. */
  lemma {:induction false} PrefixOfTail(s: seq<int>, k: nat)
    requires Descending(s) && k < |s|
    ensures Sum(s[1..][..k]) <= Sum(s[..k])
  {
    if k > 0 {
      PrefixOfTail(s, k - 1);
      SumPrefix(s, k - 1);
      SumPrefix(s[1..], k - 1);
    }
  }

  /** No sub-collection of a descending sequence outweighs the prefix of its size. */
  lemma {:induction false} PrefixIsHeaviest(s: seq<int>, sub: seq<int>)
    requires Descending(s) && multiset(sub) <= multiset(s)
    ensures |sub| <= |s| && Sum(sub) <= Sum(s[..|sub|])
    decreases |s|
  {
    if s == [] {
      assert forall x | x in sub :: x in multiset(sub);
      assert sub == [];
    } else {
      Tail(s);
      if s[0] in sub {
        var i :| 0 <= i < |sub| && sub[i] == s[0];
        var rest := sub[..i] + sub[i + 1..];
        Remove(sub, i);
        CancelHead(s[0], multiset(rest), multiset(s[1..]));
        PrefixIsHeaviest(s[1..], rest);
        assert s[..|sub|][1..] == s[1..][..|rest|];
      } else {
        WithoutHead(s[0], multiset(sub), multiset(s[1..]));
        PrefixIsHeaviest(s[1..], sub);
        PrefixOfTail(s, |sub|);
      }
    }
  }

  lemma WithoutHead(x: int, m: multiset<int>, n: multiset<int>)
    requires m <= multiset{x} + n && x !in m
    ensures m <= n
  {
    forall y
      ensures m[y] <= n[y]
    {
      assert m[y] <= (multiset{x} + n)[y];
    }
  }

  lemma {:induction false} SumNonNegative(s: seq<int>)
    requires NonNegative(s)
    ensures Sum(s) >= 0
  {
    if s != [] {
      SumNonNegative(s[1..]);
    }
  }
}
