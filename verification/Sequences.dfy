/** Facts about finite sequences shared by the cache and proxy models. */
module Sequences {

  ghost predicate Distinct<T>(s: seq<T>) {
    forall i, j :: 0 <= i < j < |s| ==> s[i] != s[j]
  }

  function Elems<T>(s: seq<T>): set<T> {
    set x | x in s
  }

  /** `s` without the first occurrence of `x`: what erasing a list node leaves behind. */
  function Erase<T(==)>(s: seq<T>, x: T): (r: seq<T>)
    ensures x !in s ==> r == s
    ensures |r| == if x in s then |s| - 1 else |s|
  {
    if s == [] then []
    else if s[0] == x then s[1..]
    else [s[0]] + Erase(s[1..], x)
  }

  lemma SplitAt<T>(s: seq<T>, k: nat)
    requires k <= |s|
    ensures s == s[..k] + s[k..]
  {
  }

  lemma LastApart<T>(s: seq<T>)
    requires s != []
    ensures s[..|s| - 1] + [s[|s| - 1]] == s
  {
  }

  /** In a list without duplicates, erasing cuts out exactly the one position holding `x`. */
  lemma {:induction false} EraseAt<T>(s: seq<T>, i: nat)
    requires Distinct(s) && i < |s|
    ensures Erase(s, s[i]) == s[..i] + s[i + 1..]
  {
    if i > 0 {
      EraseAt(s[1..], i - 1);
      assert s[1..][i - 1] == s[i];
      assert [s[0]] + s[1..][..i - 1] == s[..i];
    }
  }

  lemma CutMember<T>(s: seq<T>, i: nat, y: T)
    requires Distinct(s) && i < |s|
    ensures y in s[..i] + s[i + 1..] <==> y in s && y != s[i]
  {
    var cut := s[..i] + s[i + 1..];
    if y in s && y != s[i] {
      var j :| 0 <= j < |s| && s[j] == y;
      assert y == cut[if j < i then j else j - 1];
    }
  }

  lemma CutDistinct<T>(s: seq<T>, i: nat)
    requires Distinct(s) && i < |s|
    ensures Distinct(s[..i] + s[i + 1..])
  {
  }

  lemma EraseKeeps<T>(s: seq<T>, x: T)
    requires Distinct(s)
    ensures Distinct(Erase(s, x))
    ensures forall y :: y in Erase(s, x) <==> y in s && y != x
  {
    if x in s {
      var i :| 0 <= i < |s| && s[i] == x;
      EraseAt(s, i);
      CutDistinct(s, i);
      forall y ensures y in Erase(s, x) <==> y in s && y != x {
        CutMember(s, i, y);
      }
    }
  }

  lemma DistinctConcat<T>(a: seq<T>, b: seq<T>)
    requires Distinct(a) && Distinct(b) && forall x :: x in a ==> x !in b
    ensures Distinct(a + b) && Elems(a + b) == Elems(a) + Elems(b)
  {
    forall i, j | 0 <= i < j < |a + b| ensures (a + b)[i] != (a + b)[j] {
      if i < |a| && |a| <= j {
        assert a[i] in a && b[j - |a|] in b;
      }
    }
  }

  lemma ErasedMember<T>(s: seq<T>, x: T, y: T)
    requires Distinct(s) && y in Erase(s, x)
    ensures y in s && y != x
  {
    EraseKeeps(s, x);
  }

  /** The number of distinct elements of a list without duplicates is its length. */
  lemma {:induction false} DistinctSize<T>(s: seq<T>)
    requires Distinct(s)
    ensures |Elems(s)| == |s|
  {
    if s != [] {
      var t := s[..|s| - 1];
      DistinctSize(t);
      assert s == t + [s[|s| - 1]];
      assert Elems(s) == Elems(t) + {s[|s| - 1]};
    }
  }

  /** `a` is obtained from `b` by leaving elements out, keeping the order. */
  predicate Sub<T(==)>(a: seq<T>, b: seq<T>) {
    if a == [] then true
    else if b == [] then false
    else (a[0] == b[0] && Sub(a[1..], b[1..])) || Sub(a, b[1..])
  }

  lemma {:induction false} SubMember<T>(a: seq<T>, b: seq<T>, x: T)
    requires Sub(a, b) && x in a
    ensures x in b
    decreases |b|
  {
    if a[0] == b[0] && Sub(a[1..], b[1..]) {
      if x != a[0] {
        SubMember(a[1..], b[1..], x);
      }
    } else {
      SubMember(a, b[1..], x);
    }
  }

  lemma {:induction false} SubDropHead<T>(a: seq<T>, b: seq<T>)
    requires Sub(a, b) && a != []
    ensures Sub(a[1..], b) && b != [] && Sub(a[1..], b[1..])
    decreases |b|
  {
    if a[0] == b[0] && Sub(a[1..], b[1..]) {
      SubCons(a[1..], b[1..], b[0]);
      assert [b[0]] + b[1..] == b;
    } else {
      SubDropHead(a, b[1..]);
      SubCons(a[1..], b[1..], b[0]);
      assert [b[0]] + b[1..] == b;
    }
  }

  lemma SubCons<T>(a: seq<T>, b: seq<T>, x: T)
    requires Sub(a, b)
    ensures Sub(a, [x] + b) && Sub([x] + a, [x] + b)
  {
    assert ([x] + b)[1..] == b && ([x] + a)[1..] == a;
  }

  /** One more element at the end of the longer list, or of both. */
  lemma {:induction false} SubAppend<T>(a: seq<T>, b: seq<T>, x: T)
    requires Sub(a, b)
    ensures Sub(a, b + [x]) && Sub(a + [x], b + [x])
    decreases |b|
  {
    if b == [] {
      assert a + [x] == [x] && b + [x] == [x];
    } else {
      assert (b + [x])[1..] == b[1..] + [x];
      if a == [] {
        SubAppend(a, b[1..], x);
        assert a + [x] == [x];
      } else {
        assert (a + [x])[1..] == a[1..] + [x];
        if a[0] == b[0] && Sub(a[1..], b[1..]) {
          SubAppend(a[1..], b[1..], x);
        } else {
          SubAppend(a, b[1..], x);
        }
      }
    }
  }

  lemma {:induction false} SubLength<T>(a: seq<T>, b: seq<T>)
    requires Sub(a, b)
    ensures |a| <= |b|
    decreases |b|
  {
    if a != [] {
      if a[0] == b[0] && Sub(a[1..], b[1..]) {
        SubLength(a[1..], b[1..]);
      } else {
        SubLength(a, b[1..]);
      }
    }
  }

  lemma {:induction false} SubRefl<T>(a: seq<T>)
    ensures Sub(a, a)
  {
    if a != [] {
      SubRefl(a[1..]);
    }
  }

  /** `s` without the element at position `i`. */
  function DropAt<T>(s: seq<T>, i: nat): (r: seq<T>)
    requires i < |s|
    ensures |r| == |s| - 1
    ensures forall j {:trigger r[j]} :: 0 <= j < |r| ==> r[j] == if j < i then s[j] else s[j + 1]
  {
    s[..i] + s[i + 1..]
  }

  lemma {:induction false} DropAtSub<T>(s: seq<T>, i: nat)
    requires i < |s|
    ensures Sub(DropAt(s, i), s)
  {
    if i == 0 {
      SubRefl(s[1..]);
      assert DropAt(s, 0) == s[1..];
      SubCons(s[1..], s[1..], s[0]);
      assert [s[0]] + s[1..] == s;
    } else {
      DropAtSub(s[1..], i - 1);
      assert DropAt(s, i)[1..] == DropAt(s[1..], i - 1);
    }
  }

  lemma {:induction false} SubTransitive<T>(a: seq<T>, b: seq<T>, c: seq<T>)
    requires Sub(a, b) && Sub(b, c)
    ensures Sub(a, c)
    decreases |b| + |c|
  {
    if a != [] {
      if b[0] == c[0] && Sub(b[1..], c[1..]) {
        if a[0] == b[0] && Sub(a[1..], b[1..]) {
          SubTransitive(a[1..], b[1..], c[1..]);
        } else {
          SubTransitive(a, b[1..], c[1..]);
        }
      } else {
        SubTransitive(a, b, c[1..]);
      }
    }
  }

  /** Dropping the last element of both lists keeps the subsequence relation. */
  lemma {:induction false} SubDropLast<T>(a: seq<T>, b: seq<T>)
    requires Sub(a, b) && a != []
    ensures b != [] && Sub(a[..|a| - 1], b[..|b| - 1])
    decreases |b|
  {
    if |a| > 1 {
      var a', b' := a[..|a| - 1], b[..|b| - 1];
      SubLength(a, b);
      assert a'[1..] == a[1..][..|a| - 2] && b'[1..] == b[1..][..|b| - 2];
      if a[0] == b[0] && Sub(a[1..], b[1..]) {
        SubDropLast(a[1..], b[1..]);
      } else {
        SubDropLast(a, b[1..]);
      }
    }
  }

  /** Erasing the same element from both lists keeps the subsequence relation;
      so does erasing from the longer list an element the shorter one lacks. */
  lemma {:induction false} SubErase<T>(a: seq<T>, b: seq<T>, x: T)
    requires Sub(a, b) && Distinct(a) && Distinct(b)
    ensures Sub(Erase(a, x), Erase(b, x))
    decreases |b|
  {
    if a == [] || b == [] {
    } else if b[0] == x {
      if a[0] == x {
        SubDropHead(a, b);
      } else if x in a {
        SubMember(a, b[1..], x);
      }
    } else if a[0] == b[0] && Sub(a[1..], b[1..]) {
      SubErase(a[1..], b[1..], x);
      SubCons(Erase(a[1..], x), Erase(b[1..], x), a[0]);
    } else {
      SubErase(a, b[1..], x);
      SubCons(Erase(a, x), Erase(b[1..], x), b[0]);
    }
  }

  /** How many elements satisfy `p`. */
  function Count<T>(s: seq<T>, p: T -> bool): nat {
    if s == [] then 0 else (if p(s[0]) then 1 else 0) + Count(s[1..], p)
  }

  lemma {:induction false} CountUpdate<T>(s: seq<T>, p: T -> bool, i: nat, x: T)
    requires i < |s|
    ensures Count(s[i := x], p) + (if p(s[i]) then 1 else 0)
         == Count(s, p) + if p(x) then 1 else 0
  {
    if i == 0 {
      assert s[0 := x][1..] == s[1..];
    } else {
      CountUpdate(s[1..], p, i - 1, x);
      assert s[i := x][1..] == s[1..][i - 1 := x];
    }
  }

  lemma {:induction false} CountSame<T>(v: seq<T>, w: seq<T>, p: T -> bool)
    requires |v| == |w| && forall i :: 0 <= i < |v| ==> p(v[i]) == p(w[i])
    ensures Count(v, p) == Count(w, p)
  {
    if v != [] {
      CountSame(v[1..], w[1..], p);
    }
  }

  lemma {:induction false} CountNone<T>(s: seq<T>, p: T -> bool)
    requires forall i :: 0 <= i < |s| ==> !p(s[i])
    ensures Count(s, p) == 0
  {
    if s != [] {
      CountNone(s[1..], p);
    }
  }

  lemma {:induction false} CountAll<T>(s: seq<T>, p: T -> bool)
    ensures Count(s, p) <= |s|
    ensures Count(s, p) == |s| <==> forall i :: 0 <= i < |s| ==> p(s[i])
  {
    if s != [] {
      CountAll(s[1..], p);
      assert forall i :: 1 <= i < |s| ==> s[i] == s[1..][i - 1];
      assert (forall i :: 0 <= i < |s| ==> p(s[i])) ==>
             forall i :: 0 <= i < |s[1..]| ==> p(s[1..][i]);
    }
  }

  /** The sum of `f` over a list. */
  function Total<T>(s: seq<T>, f: T -> nat): nat {
    if s == [] then 0 else f(s[0]) + Total(s[1..], f)
  }

  lemma {:induction false} TotalUpdate<T>(s: seq<T>, f: T -> nat, i: nat, x: T)
    requires i < |s|
    ensures Total(s[i := x], f) + f(s[i]) == Total(s, f) + f(x)
  {
    if i == 0 {
      assert s[0 := x][1..] == s[1..];
    } else {
      TotalUpdate(s[1..], f, i - 1, x);
      assert s[i := x][1..] == s[1..][i - 1 := x];
    }
  }

  lemma {:induction false} TotalAtMost<T>(v: seq<T>, w: seq<T>, f: T -> nat)
    requires |v| == |w| && forall i :: 0 <= i < |v| ==> f(v[i]) <= f(w[i])
    ensures Total(v, f) <= Total(w, f)
  {
    if v != [] {
      TotalAtMost(v[1..], w[1..], f);
    }
  }
}
