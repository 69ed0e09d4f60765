/** Sequence helpers standing in for the `Vec` operations the source uses:
    `contains`, `position`, `remove`, `swap_remove`, `retain`. */
module Seqs {

  /** No element occurs twice. */
  predicate NoDup<X(==)>(s: seq<X>) {
    forall i, j :: 0 <= i < j < |s| ==> s[i] != s[j]
  }

  /** The set of elements of a sequence. */
  function Elems<X(!new)>(s: seq<X>): (r: set<X>)
    ensures forall x :: x in r <==> x in s
  {
    set x | x in s
  }

  lemma ElemsCons<X(!new)>(s: seq<X>)
    requires |s| > 0
    ensures Elems(s) == {s[0]} + Elems(s[1..])
  {
    assert forall x :: x in s <==> x == s[0] || x in s[1..];
  }

  /** Index of the first occurrence of `x` (`iter().position(|p| *p == x)`), or -1. */
  function IndexOf<X(==)>(s: seq<X>, x: X): (r: int)
    ensures -1 <= r < |s|
    ensures r == -1 <==> x !in s
    ensures 0 <= r ==> s[r] == x && x !in s[..r]
  {
    if |s| == 0 then -1
    else if s[0] == x then 0
    else
      var k := IndexOf(s[1..], x);
      assert s[1..][..if k < 0 then 0 else k] == s[1..1 + (if k < 0 then 0 else k)];
      if k == -1 then -1 else k + 1
  }

  /** `Vec::remove(i)`: drops element `i`, keeping the others in order. */
  function RemoveAt<X(==)>(s: seq<X>, i: nat): (r: seq<X>)
    requires i < |s|
    ensures |r| == |s| - 1
    ensures forall j :: 0 <= j < i ==> r[j] == s[j]
    ensures forall j :: i <= j < |r| ==> r[j] == s[j + 1]
    ensures multiset(r) == multiset(s) - multiset{s[i]}
    ensures forall x :: x in r ==> x in s
    ensures forall x :: x in s && x != s[i] ==> x in r
  {
    assert s == s[..i] + [s[i]] + s[i + 1..];
    s[..i] + s[i + 1..]
  }

  /** `remove(i)` followed by `push`: element `i` moves to the end and the
      others keep their order. */
  function MoveToEnd<X(==,!new)>(s: seq<X>, i: nat): (r: seq<X>)
    requires i < |s|
    ensures |r| == |s| && r[|r| - 1] == s[i]
    ensures multiset(r) == multiset(s)
    ensures forall x :: x in r <==> x in s
  {
    var rest := RemoveAt(s, i);
    assert multiset(rest + [s[i]]) == multiset(rest) + multiset{s[i]};
    rest + [s[i]]
  }

  lemma ConcatAssoc<X>(a: seq<X>, b: seq<X>, c: seq<X>)
    ensures a + (b + c) == (a + b) + c
  {
  }

  /** Appending a new element keeps a sequence duplicate-free. */
  lemma NoDupSnoc<X>(s: seq<X>, x: X)
    requires NoDup(s) && x !in s
    ensures NoDup(s + [x])
  {
    forall i, j | 0 <= i < j < |s + [x]| ensures (s + [x])[i] != (s + [x])[j] {
      if j == |s| {
        assert s[i] in s;
      }
    }
  }

  /** `Vec::swap_remove(i)`: the last element takes the place of element `i`. */
  function SwapRemove<X(==)>(s: seq<X>, i: nat): (r: seq<X>)
    requires i < |s|
    ensures |r| == |s| - 1
    ensures forall j :: 0 <= j < |r| ==> r[j] == if j == i then s[|s| - 1] else s[j]
    ensures multiset(r) == multiset(s) - multiset{s[i]}
  {
    var last := |s| - 1;
    var t := s[i := s[last]][..last];
    assert i < last ==> s == t[..i] + [s[i]] + t[i + 1..] + [s[last]];
    assert i == last ==> s == t + [s[i]];
    t
  }

  /** `retain(|x| x in keep)`, in order (see `KeepInAppend`). */
  function KeepIn<X(==,!new)>(s: seq<X>, keep: set<X>): (r: seq<X>)
    ensures |r| <= |s|
    ensures forall x :: x in r <==> x in s && x in keep
    ensures NoDup(s) ==> NoDup(r)
  {
    if |s| == 0 then []
    else
      var t := KeepIn(s[1..], keep);
      assert forall x :: x in s[1..] ==> x in s;
      if s[0] in keep then [s[0]] + t else t
  }

  /** `retain` keeps the order: filtering a concatenation is concatenating
      the filtered parts. */
  lemma {:induction false} KeepInAppend<X(!new)>(a: seq<X>, b: seq<X>, keep: set<X>)
    ensures KeepIn(a + b, keep) == KeepIn(a, keep) + KeepIn(b, keep)
    decreases |a|
  {
    if |a| > 0 {
      var ab := a + b;
      assert ab[0] == a[0] && ab[1..] == a[1..] + b;
      KeepInAppend(a[1..], b, keep);
      var rest := KeepIn(a[1..], keep) + KeepIn(b, keep);
      assert KeepIn(ab, keep) == if a[0] in keep then [a[0]] + rest else rest;
      assert KeepIn(a, keep) == if a[0] in keep then [a[0]] + KeepIn(a[1..], keep) else KeepIn(a[1..], keep);
    } else {
      assert a + b == b;
    }
  }

  /** `retain(|x| x !in drop)`. */
  function KeepOut<X(==,!new)>(s: seq<X>, drop: set<X>): (r: seq<X>)
    ensures |r| <= |s|
    ensures forall x :: x in r <==> x in s && x !in drop
    ensures NoDup(s) ==> NoDup(r)
  {
    if |s| == 0 then []
    else
      var t := KeepOut(s[1..], drop);
      assert forall x :: x in s[1..] ==> x in s;
      if s[0] in drop then t else [s[0]] + t
  }

  /** A duplicate-free sequence has as many distinct elements as entries. */
  lemma {:induction false} NoDupCard<X>(s: seq<X>)
    requires NoDup(s)
    ensures |set x | x in s| == |s|
  {
    if |s| > 0 {
      NoDupCard(s[1..]);
      assert (set x | x in s) == (set x | x in s[1..]) + {s[0]};
      assert s[0] !in s[1..];
    }
  }

  /** `retain` keeps the length exactly when it keeps every element. */
  lemma {:induction false} KeepInAll<X(!new)>(s: seq<X>, keep: set<X>)
    ensures |KeepIn(s, keep)| == |s| <==> forall x :: x in s ==> x in keep
  {
    if |s| > 0 {
      KeepInAll(s[1..], keep);
      assert forall x :: x in s <==> x == s[0] || x in s[1..];
    }
  }

  /** `retain` leaves nothing exactly when no element is kept. */
  lemma {:induction false} KeepInEmpty<X(!new)>(s: seq<X>, keep: set<X>)
    ensures KeepIn(s, keep) == [] <==> forall x :: x in s ==> x !in keep
  {
    if |s| > 0 {
      KeepInEmpty(s[1..], keep);
      assert forall x :: x in s <==> x == s[0] || x in s[1..];
    }
  }

  /** On a duplicate-free sequence, `remove` at the index of `x` is the filter dropping `x`. */
  lemma {:induction false} RemoveAtIsKeepOut<X(!new)>(s: seq<X>, i: nat)
    requires NoDup(s) && i < |s|
    ensures RemoveAt(s, i) == KeepOut(s, {s[i]})
  {
    if i == 0 {
      KeepOutAbsent(s[1..], {s[0]});
    } else {
      assert NoDup(s[1..]);
      RemoveAtIsKeepOut(s[1..], i - 1);
      assert RemoveAt(s, i) == [s[0]] + RemoveAt(s[1..], i - 1);
    }
  }

  /** `swap_remove` on a duplicate-free sequence removes exactly `s[i]`. */
  lemma SwapRemoveNoDup<X>(s: seq<X>, i: nat)
    requires NoDup(s) && i < |s|
    ensures NoDup(SwapRemove(s, i))
    ensures forall x :: x in SwapRemove(s, i) <==> x in s && x != s[i]
  {
    var r := SwapRemove(s, i);
    forall x | x in s && x != s[i] ensures x in r {
      var j :| 0 <= j < |s| && s[j] == x;
      if j == |s| - 1 { assert r[i] == x; } else { assert r[j] == x; }
    }
  }

  /** Appending `x` and then `swap_remove`-ing it gives back the sequence. */
  lemma SwapRemoveLast<X>(s: seq<X>, x: X)
    ensures SwapRemove(s + [x], |s|) == s
  {
  }

  /** Removing every occurrence of a value absent from `s` changes nothing. */
  lemma KeepOutAbsent<X(!new)>(s: seq<X>, drop: set<X>)
    requires forall x :: x in s ==> x !in drop
    ensures KeepOut(s, drop) == s
  {
  }
}
