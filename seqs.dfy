/**
  Sequence operations the task list is built from: the array `filter` of
  JavaScript (Keep), the positions a filter keeps (Positions), and the two
  `splice` forms the drag handler uses (Remove, Insert) with their
  composition (Moved).
 */
module Seqs {

  /** `s.filter(p)`: the elements of `s` that satisfy `p`, left to right. */
  function Keep<T(!new)>(s: seq<T>, p: T -> bool): (r: seq<T>)
    ensures |r| <= |s|
  {
    if s == [] then [] else (if p(s[0]) then [s[0]] else []) + Keep(s[1..], p)
  }

  /**
    A filter keeps every element that satisfies `p`, as many times as it
    occurs, and nothing else.
   */
  lemma {:induction false} KeepMembers<T(!new)>(s: seq<T>, p: T -> bool)
    ensures forall x :: x in Keep(s, p) <==> x in s && p(x)
    ensures forall x :: multiset(Keep(s, p))[x] == if p(x) then multiset(s)[x] else 0
  {
    if s != [] {
      assert s == [s[0]] + s[1..];
      KeepMembers(s[1..], p);
    }
  }

  /** One step of `Keep` on a sequence with a known first element. */
  lemma KeepCons<T(!new)>(x: T, s: seq<T>, p: T -> bool)
    ensures Keep([x] + s, p) == (if p(x) then [x] else []) + Keep(s, p)
  {
    assert ([x] + s)[0] == x && ([x] + s)[1..] == s;
  }

  /** The filter of a three-element sequence, element by element. */
  lemma KeepOfThree<T(!new)>(x: T, y: T, z: T, p: T -> bool)
    ensures Keep([x, y, z], p) == (if p(x) then [x] else []) + (if p(y) then [y] else []) + (if p(z) then [z] else [])
  {
    KeepCons(z, [], p);
    assert [z] + [] == [z];
    KeepCons(y, [z], p);
    assert [y] + [z] == [y, z];
    KeepCons(x, [y, z], p);
    assert [x] + [y, z] == [x, y, z];
  }

  /** The indices `i <= j < |s|` whose elements satisfy `p`, in increasing order. */
  function PositionsFrom<T(!new)>(s: seq<T>, p: T -> bool, i: nat): (r: seq<nat>)
    requires i <= |s|
    ensures forall k :: 0 <= k < |r| ==> i <= r[k] < |s| && p(s[r[k]])
    ensures forall k, m :: 0 <= k < m < |r| ==> r[k] < r[m]
    ensures forall j :: i <= j < |s| && p(s[j]) ==> j in r
    decreases |s| - i
  {
    if i == |s| then []
    else (if p(s[i]) then [i] else []) + PositionsFrom(s, p, i + 1)
  }

  /** The index in `s` of each element of `Keep(s, p)`. */
  function Positions<T(!new)>(s: seq<T>, p: T -> bool): seq<nat>
  {
    PositionsFrom(s, p, 0)
  }

  /** `Keep(s[i..], p)` is exactly the elements of `s` at `PositionsFrom(s, p, i)`. */
  lemma {:induction false} KeepAtPositionsFrom<T(!new)>(s: seq<T>, p: T -> bool, i: nat)
    requires i <= |s|
    ensures |PositionsFrom(s, p, i)| == |Keep(s[i..], p)|
    ensures forall k :: 0 <= k < |Keep(s[i..], p)| ==> Keep(s[i..], p)[k] == s[PositionsFrom(s, p, i)[k]]
    decreases |s| - i
  {
    if i < |s| {
      assert s[i..][0] == s[i] && s[i..][1..] == s[i + 1..];
      KeepAtPositionsFrom(s, p, i + 1);
    }
  }

  /** One step of `Keep` on the slice `s[i..j]`. */
  lemma KeepSliceStep<T(!new)>(s: seq<T>, p: T -> bool, i: nat, j: nat)
    requires i < j <= |s|
    ensures Keep(s[i..j], p) == (if p(s[i]) then [s[i]] else []) + Keep(s[i + 1..j], p)
  {
    var t := s[i..j];
    assert t[0] == s[i] && t[1..] == s[i + 1..j];
  }

  /** The element at the `k`-th kept position is preceded by exactly `k` kept elements. */
  lemma {:induction false} RankAtPositionFrom<T(!new)>(s: seq<T>, p: T -> bool, i: nat, k: nat)
    requires i <= |s| && k < |PositionsFrom(s, p, i)|
    ensures |Keep(s[i..PositionsFrom(s, p, i)[k]], p)| == k
    decreases |s| - i
  {
    var pos := PositionsFrom(s, p, i);
    var rest := PositionsFrom(s, p, i + 1);
    if p(s[i]) {
      assert pos == [i] + rest;
      if k == 0 {
        assert s[i..pos[0]] == [];
      } else {
        assert pos[k] == rest[k - 1];
        RankAtPositionFrom(s, p, i + 1, k - 1);
        KeepSliceStep(s, p, i, pos[k]);
      }
    } else {
      assert pos == rest;
      RankAtPositionFrom(s, p, i + 1, k);
      KeepSliceStep(s, p, i, pos[k]);
    }
  }

  /**
    `Keep(s, p)` is the subsequence of `s` at the strictly increasing indices
    `Positions(s, p)`, and those are exactly the indices whose element satisfies `p`:
    a filter keeps exactly the matching elements, in their original relative order.
   */
  lemma KeepInOrder<T(!new)>(s: seq<T>, p: T -> bool)
    ensures |Positions(s, p)| == |Keep(s, p)|
    ensures forall k :: 0 <= k < |Keep(s, p)| ==> Keep(s, p)[k] == s[Positions(s, p)[k]]
    ensures forall k, m :: 0 <= k < m < |Positions(s, p)| ==> Positions(s, p)[k] < Positions(s, p)[m]
    ensures forall j :: 0 <= j < |s| ==> (p(s[j]) <==> j in Positions(s, p))
  {
    assert s[0..] == s;
    KeepAtPositionsFrom(s, p, 0);
  }

  /** The `k`-th kept element is preceded, in `s`, by exactly `k` kept elements. */
  lemma RankAtPosition<T(!new)>(s: seq<T>, p: T -> bool, k: nat)
    requires k < |Keep(s, p)|
    ensures |Positions(s, p)| == |Keep(s, p)|
    ensures Positions(s, p)[k] < |s| && p(s[Positions(s, p)[k]])
    ensures |Keep(s[..Positions(s, p)[k]], p)| == k
  {
    KeepInOrder(s, p);
    RankAtPositionFrom(s, p, 0, k);
    assert s[0..Positions(s, p)[k]] == s[..Positions(s, p)[k]];
  }

  /** Filtering distributes over concatenation. */
  lemma {:induction false} KeepConcat<T(!new)>(a: seq<T>, b: seq<T>, p: T -> bool)
    ensures Keep(a + b, p) == Keep(a, p) + Keep(b, p)
  {
    if a == [] {
      assert a + b == b;
    } else {
      var head := if p(a[0]) then [a[0]] else [];
      assert (a + b)[0] == a[0] && (a + b)[1..] == a[1..] + b;
      assert Keep(a + b, p) == head + Keep(a[1..] + b, p);
      KeepConcat(a[1..], b, p);
      assert Keep(a, p) == head + Keep(a[1..], p);
    }
  }

  /** Filtering a second time with the same predicate changes nothing. */
  lemma {:induction false} KeepIdempotent<T(!new)>(s: seq<T>, p: T -> bool)
    ensures Keep(Keep(s, p), p) == Keep(s, p)
  {
    if s != [] {
      KeepIdempotent(s[1..], p);
      var r := Keep(s, p);
      if p(s[0]) {
        assert r == [s[0]] + Keep(s[1..], p);
        assert r[0] == s[0] && r[1..] == Keep(s[1..], p);
        assert Keep(r, p) == [r[0]] + Keep(r[1..], p);
      } else {
        assert r == Keep(s[1..], p);
      }
    }
  }

  /** A filter leaves `s` as it is exactly when every element satisfies it. */
  lemma {:induction false} KeepIdentityIff<T(!new)>(s: seq<T>, p: T -> bool)
    ensures Keep(s, p) == s <==> forall k :: 0 <= k < |s| ==> p(s[k])
  {
    if s != [] {
      KeepIdentityIff(s[1..], p);
      if Keep(s, p) == s {
        forall k | 0 <= k < |s| ensures p(s[k]) {
          assert s[k] in Keep(s, p);
        }
      }
      if forall k :: 0 <= k < |s| ==> p(s[k]) {
        assert p(s[0]);
        assert forall k :: 0 <= k < |s[1..]| ==> p(s[1..][k]) by {
          forall k | 0 <= k < |s[1..]| ensures p(s[1..][k]) { assert s[1..][k] == s[k + 1]; }
        }
      }
    }
  }

  /** Two predicates that agree on the elements of `s` keep the same elements. */
  lemma {:induction false} KeepExt<T(!new)>(s: seq<T>, p: T -> bool, q: T -> bool)
    requires forall k :: 0 <= k < |s| ==> p(s[k]) == q(s[k])
    ensures Keep(s, p) == Keep(s, q)
  {
    if s != [] {
      assert p(s[0]) == q(s[0]);
      forall k | 0 <= k < |s[1..]| ensures p(s[1..][k]) == q(s[1..][k]) {
        assert s[1..][k] == s[k + 1];
      }
      KeepExt(s[1..], p, q);
    }
  }

  /** A filter that rejects exactly the element at `k` removes just that element. */
  lemma {:induction false} KeepDropsOne<T(!new)>(s: seq<T>, p: T -> bool, k: nat)
    requires k < |s| && !p(s[k])
    requires forall m :: 0 <= m < |s| && m != k ==> p(s[m])
    ensures Keep(s, p) == Remove(s, k)
  {
    var rest := s[1..];
    if k == 0 {
      assert forall m :: 0 <= m < |rest| ==> p(rest[m]) by {
        forall m | 0 <= m < |rest| ensures p(rest[m]) { assert rest[m] == s[m + 1]; }
      }
      KeepIdentityIff(rest, p);
      assert Remove(s, 0) == rest;
    } else {
      assert forall m :: 0 <= m < |rest| && m != k - 1 ==> p(rest[m]) by {
        forall m | 0 <= m < |rest| && m != k - 1 ensures p(rest[m]) { assert rest[m] == s[m + 1]; }
      }
      KeepDropsOne(rest, p, k - 1);
      assert p(s[0]);
      assert Keep(s, p) == [s[0]] + Remove(rest, k - 1);
      var r, r' := Remove(s, k), [s[0]] + Remove(rest, k - 1);
      forall m | 0 <= m < |r| ensures r[m] == r'[m] {
        if m > 0 { assert r'[m] == Remove(rest, k - 1)[m - 1]; }
      }
    }
  }

  /** A predicate and its complement split `s` into two parts whose multisets add up to `s`'s. */
  lemma KeepPartition<T(!new)>(s: seq<T>, p: T -> bool, q: T -> bool)
    requires forall k :: 0 <= k < |s| ==> q(s[k]) == !p(s[k])
    ensures multiset(Keep(s, p)) + multiset(Keep(s, q)) == multiset(s)
    ensures |Keep(s, p)| + |Keep(s, q)| == |s|
  {
    KeepMembers(s, p);
    KeepMembers(s, q);
    forall x ensures (multiset(Keep(s, p)) + multiset(Keep(s, q)))[x] == multiset(s)[x] {
      if x in s {
        var k :| 0 <= k < |s| && s[k] == x;
        assert q(x) == !p(x);
      }
    }
    assert multiset(Keep(s, p)) + multiset(Keep(s, q)) == multiset(s);
    assert |multiset(Keep(s, p))| + |multiset(Keep(s, q))| == |multiset(s)|;
  }

  /** `s.splice(i, 1)`: `s` without its element at index `i`. */
  function Remove<T>(s: seq<T>, i: nat): (r: seq<T>)
    requires i < |s|
    ensures |r| == |s| - 1
    ensures forall m :: 0 <= m < |r| ==> r[m] == if m < i then s[m] else s[m + 1]
  {
    s[..i] + s[i + 1..]
  }

  /** `s.splice(i, 0, x)`: `s` with `x` inserted so that it lands at index `i`. */
  function Insert<T>(s: seq<T>, i: nat, x: T): (r: seq<T>)
    requires i <= |s|
    ensures |r| == |s| + 1
    ensures forall m :: 0 <= m < |r| ==> r[m] == if m < i then s[m] else if m == i then x else s[m - 1]
  {
    s[..i] + [x] + s[i..]
  }

  /** Removing takes exactly one occurrence of the element out. */
  lemma RemoveMultiset<T>(s: seq<T>, i: nat)
    requires i < |s|
    ensures multiset(Remove(s, i)) + multiset{s[i]} == multiset(s)
  {
    assert s == s[..i] + [s[i]] + s[i + 1..];
  }

  /** Inserting adds exactly one occurrence of the element. */
  lemma InsertMultiset<T>(s: seq<T>, i: nat, x: T)
    requires i <= |s|
    ensures multiset(Insert(s, i, x)) == multiset(s) + multiset{x}
  {
    assert s == s[..i] + s[i..];
  }

  /** The element at `from` taken out and put back at `to`, the others shifted. */
  function Moved<T>(s: seq<T>, from: nat, to: nat): (r: seq<T>)
    requires from < |s| && to < |s|
    ensures |r| == |s|
    ensures multiset(r) == multiset(s)
    ensures r[to] == s[from]
  {
    RemoveMultiset(s, from);
    InsertMultiset(Remove(s, from), to, s[from]);
    Insert(Remove(s, from), to, s[from])
  }

  /** Apart from the moved element, the others keep their relative order. */
  lemma MovedKeepsOthersInOrder<T>(s: seq<T>, from: nat, to: nat)
    requires from < |s| && to < |s|
    ensures Remove(Moved(s, from, to), to) == Remove(s, from)
  {
    var r := Moved(s, from, to);
    var a, b := Remove(r, to), Remove(s, from);
    assert |a| == |b|;
    forall m | 0 <= m < |a| ensures a[m] == b[m] {
      if m < to {
        assert a[m] == r[m];
      } else {
        assert a[m] == r[m + 1];
      }
    }
  }

  /** Moving an element back to where it came from restores the sequence. */
  lemma MovedInverse<T>(s: seq<T>, from: nat, to: nat)
    requires from < |s| && to < |s|
    ensures Moved(Moved(s, from, to), to, from) == s
  {
    var r := Moved(s, from, to);
    MovedKeepsOthersInOrder(s, from, to);
    var back := Moved(r, to, from);
    assert back == Insert(Remove(s, from), from, s[from]);
    forall m | 0 <= m < |s| ensures back[m] == s[m] {
      if m < from {
        assert back[m] == Remove(s, from)[m];
      } else if m > from {
        assert back[m] == Remove(s, from)[m - 1];
      }
    }
  }

  /** A move to the same index leaves the sequence as it is. */
  lemma MovedNowhere<T>(s: seq<T>, i: nat)
    requires i < |s|
    ensures Moved(s, i, i) == s
  {
    var r := Moved(s, i, i);
    forall m | 0 <= m < |s| ensures r[m] == s[m] {
      if m < i {
        assert r[m] == Remove(s, i)[m];
      } else if m > i {
        assert r[m] == Remove(s, i)[m - 1];
      }
    }
  }

  /** Around a kept element, the filtered sequence splits into what is kept before it, the element, and what is kept after it. */
  lemma {:induction false} KeepAroundOne<T(!new)>(s: seq<T>, p: T -> bool, i: nat)
    requires i < |s| && p(s[i])
    ensures Keep(s, p) == Keep(s[..i], p) + [s[i]] + Keep(s[i + 1..], p)
  {
    var rest := s[1..];
    if i == 0 {
      assert s[..0] == [] && s[1..] == rest;
    } else {
      KeepAroundOne(rest, p, i - 1);
      assert rest[i - 1] == s[i] && rest[i..] == s[i + 1..];
      var pre := s[..i];
      assert pre[0] == s[0] && pre[1..] == rest[..i - 1];
      var h := if p(s[0]) then [s[0]] else [];
      assert Keep(pre, p) == h + Keep(rest[..i - 1], p);
      assert Keep(s, p) == h + Keep(rest, p);
    }
  }

  /** Removing a kept element from `s` removes it from the filtered sequence. */
  lemma KeepOfRemove<T(!new)>(s: seq<T>, p: T -> bool, k: nat)
    requires k < |Keep(s, p)|
    ensures |Positions(s, p)| == |Keep(s, p)| && Positions(s, p)[k] < |s|
    ensures Keep(Remove(s, Positions(s, p)[k]), p) == Remove(Keep(s, p), k)
  {
    RankAtPosition(s, p, k);
    var i := Positions(s, p)[k];
    var pre, post := s[..i], s[i + 1..];
    assert Remove(s, i) == pre + post;
    KeepConcat(pre, post, p);
    KeepAroundOne(s, p, i);
    RemoveAtJoin(Keep(pre, p), s[i], Keep(post, p));
  }

  /** Removing the element between `a` and `b` leaves `a + b`. */
  lemma RemoveAtJoin<T>(a: seq<T>, x: T, b: seq<T>)
    ensures Remove(a + [x] + b, |a|) == a + b
  {
    var s := a + [x] + b;
    assert s[..|a|] == a && s[|a| + 1..] == b;
  }

  /**
    Inserting an element that is kept, at a point preceded by `d` kept
    elements, inserts it at index `d` of the filtered sequence.
   */
  lemma KeepOfInsert<T(!new)>(r: seq<T>, p: T -> bool, j: nat, x: T, d: nat)
    requires j <= |r| && p(x) && |Keep(r[..j], p)| == d
    ensures d <= |Keep(r, p)|
    ensures Keep(Insert(r, j, x), p) == Insert(Keep(r, p), d, x)
  {
    var front, back := r[..j], r[j..];
    assert r == front + back;
    KeepConcat(front, back, p);
    assert Insert(r, j, x) == front + ([x] + back);
    KeepConcat(front, [x] + back, p);
    KeepConcat([x], back, p);
    assert Keep([x], p) == [x];
    var w := Keep(r, p);
    assert w[..d] == Keep(front, p) && w[d..] == Keep(back, p);
  }

  /** The kept elements among `s[..j + 1]` are those among `s[..i]`, then `s[i]`, then those among `s[i + 1..j + 1]`. */
  lemma KeepAroundKept<T(!new)>(s: seq<T>, p: T -> bool, i: nat, j: nat)
    requires i < j < |s| && p(s[i]) && p(s[j])
    ensures |Keep(s[..j], p)| + 1 == |Keep(s[..i], p)| + 1 + |Keep(s[i + 1..j + 1], p)|
  {
    assert s[..j + 1] == s[..i] + s[i..j + 1];
    KeepConcat(s[..i], s[i..j + 1], p);
    KeepSliceStep(s, p, i, j + 1);
    assert s[..j + 1] == s[..j] + s[j..j + 1];
    KeepConcat(s[..j], s[j..j + 1], p);
    KeepSliceStep(s, p, j, j + 1);
    assert s[j + 1..j + 1] == [];
  }

  /**
    After the `from`-th kept element is taken out of `s`, the position of the
    `to`-th kept element of `s` is preceded by exactly `to` kept elements.
   */
  lemma RankAfterRemove<T(!new)>(s: seq<T>, p: T -> bool, from: nat, to: nat)
    requires from < |Keep(s, p)| && to < |Keep(s, p)| && from != to
    ensures |Positions(s, p)| == |Keep(s, p)|
    ensures Positions(s, p)[from] < |s| && Positions(s, p)[to] < |s|
    ensures |Keep(Remove(s, Positions(s, p)[from])[..Positions(s, p)[to]], p)| == to
  {
    RankAtPosition(s, p, from);
    RankAtPosition(s, p, to);
    var pos := Positions(s, p);
    var i, j := pos[from], pos[to];
    if from < to {
      RemovePrefix(s, i, j);
      KeepConcat(s[..i], s[i + 1..j + 1], p);
      KeepAroundKept(s, p, i, j);
    } else {
      RemovePrefix(s, i, j);
    }
  }

  /** The first `j` elements of `s` once its element at `i` is removed. */
  lemma RemovePrefix<T>(s: seq<T>, i: nat, j: nat)
    requires i < |s| && j < |s| && i != j
    ensures j < i ==> Remove(s, i)[..j] == s[..j]
    ensures i < j ==> Remove(s, i)[..j] == s[..i] + s[i + 1..j + 1]
  {
    var r := s[..i] + s[i + 1..];
    if i < j {
      assert r[..j] == s[..i] + s[i + 1..][..j - i];
      assert s[i + 1..][..j - i] == s[i + 1..j + 1];
    } else {
      assert r[..j] == s[..i][..j];
    }
  }

  /**
    Moving the `from`-th kept element of `s` to the position of the `to`-th
    kept element moves it from index `from` to index `to` of the filtered
    sequence.
   */
  lemma KeepOfMoveAtPositions<T(!new)>(s: seq<T>, p: T -> bool, from: nat, to: nat)
    requires from < |Keep(s, p)| && to < |Keep(s, p)|
    ensures |Positions(s, p)| == |Keep(s, p)|
    ensures Positions(s, p)[from] < |s| && Positions(s, p)[to] < |s|
    ensures Keep(Moved(s, Positions(s, p)[from], Positions(s, p)[to]), p) == Moved(Keep(s, p), from, to)
  {
    KeepInOrder(s, p);
    var pos := Positions(s, p);
    var i, j := pos[from], pos[to];
    if from == to {
      MovedNowhere(s, i);
      MovedNowhere(Keep(s, p), from);
    } else {
      KeepOfRemove(s, p, from);
      RankAfterRemove(s, p, from, to);
      KeepOfInsert(Remove(s, i), p, j, s[i], to);
    }
  }

  /** When every element is kept, the `k`-th kept element sits at index `k`. */
  lemma PositionsOfAll<T(!new)>(s: seq<T>, p: T -> bool, k: nat)
    requires forall m :: 0 <= m < |s| ==> p(s[m])
    requires k < |s|
    ensures |Keep(s, p)| == |s| && |Positions(s, p)| == |s| && Positions(s, p)[k] == k
  {
    KeepIdentityIff(s, p);
    RankAtPosition(s, p, k);
    var j := Positions(s, p)[k];
    forall m | 0 <= m < |s[..j]| ensures p(s[..j][m]) { assert s[..j][m] == s[m]; }
    KeepIdentityIff(s[..j], p);
  }
}
