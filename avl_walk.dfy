/** Facts about walks along the tree and about the in-order sequence that
 *  the cursor, the descent of insert and the removal of a node rely on:
 *  locating a node, composing zippers, the left spine of a subtree, the
 *  successor of an id in the in-order sequence, and erasing an id from it. */
module AvlWalk {
  import opened AvlShape
  import opened AvlOrder

  /** Plugging into a composed zipper plugs into the inner part first. */
  lemma {:induction false} PlugConcat(Z1: seq<Frame>, Z2: seq<Frame>, S: Tree)
    ensures Plug(Z1 + Z2, S) == Plug(Z2, Plug(Z1, S))
    decreases |Z1|
  {
    if Z1 == [] {
      assert Z1 + Z2 == Z2;
    } else {
      assert (Z1 + Z2)[0] == Z1[0];
      assert (Z1 + Z2)[1..] == Z1[1..] + Z2;
      PlugConcat(Z1[1..], Z2, Attach(Z1[0], S));
    }
  }

  /** Every id of a tree sits at the top of some subtree of it. */
  lemma {:induction false} Locate(T: Tree, t: int) returns (Z: seq<Frame>, S: Tree)
    requires t in Ids(T)
    ensures Plug(Z, S) == T && S.Br? && S.id == t
    decreases T
  {
    if T.id == t {
      Z, S := [], T;
    } else if t in Ids(T.l) {
      var Z1, S1 := Locate(T.l, t);
      Z, S := Z1 + [Frame(T.id, true, T.r)], S1;
      PlugConcat(Z1, [Frame(T.id, true, T.r)], S1);
    } else {
      var Z1, S1 := Locate(T.r, t);
      Z, S := Z1 + [Frame(T.id, false, T.l)], S1;
      PlugConcat(Z1, [Frame(T.id, false, T.l)], S1);
    }
  }

  /** Every frame of `Z` is a left-child frame: the hole lies on a left spine. */
  ghost predicate LeftSpine(Z: seq<Frame>)
  {
    forall i :: 0 <= i < |Z| ==> Z[i].isLeft
  }

  /** Every frame of `Z` is a right-child frame. */
  ghost predicate RightSpine(Z: seq<Frame>)
  {
    forall i :: 0 <= i < |Z| ==> !Z[i].isLeft
  }

  lemma {:induction false} LeftSpineBefore(Z: seq<Frame>)
    requires LeftSpine(Z)
    ensures Before(Z) == []
    decreases |Z|
  {
    if Z != [] {
      LeftSpineBefore(Z[1..]);
    }
  }

  lemma {:induction false} RightSpineAfter(Z: seq<Frame>)
    requires RightSpine(Z)
    ensures After(Z) == []
    decreases |Z|
  {
    if Z != [] {
      RightSpineAfter(Z[1..]);
    }
  }

  // ---------------------------------------------------------------------
  // The successor of an id in a sequence

  /** The element that follows `t` in `s`, or NIL when `t` is last or absent. */
  ghost function Next(s: seq<int>, t: int): int
    decreases |s|
  {
    if |s| < 2 then NIL
    else if s[0] == t then s[1]
    else Next(s[1..], t)
  }

  /** After an id that does not occur earlier comes the first id of the rest. */
  lemma {:induction false} NextSplit(a: seq<int>, t: int, b: seq<int>)
    requires t !in a
    ensures Next(a + [t] + b, t) == if b == [] then NIL else b[0]
    decreases |a|
  {
    if a == [] {
      assert a + [t] + b == [t] + b;
    } else {
      assert (a + [t] + b)[1..] == a[1..] + [t] + b;
      NextSplit(a[1..], t, b);
    }
  }

  /** In a sequence without repetitions, each element is followed by the
   *  next one in line, and the last by NIL. */
  lemma NextAt(s: seq<int>, i: int)
    requires 0 <= i < |s|
    requires forall j, k :: 0 <= j < k < |s| ==> s[j] != s[k]
    ensures Next(s, s[i]) == if i + 1 < |s| then s[i + 1] else NIL
  {
    assert s == s[..i] + [s[i]] + s[i + 1..];
    NextSplit(s[..i], s[i], s[i + 1..]);
  }

  /** The first element of `s`, or NIL when `s` is empty: the node a
   *  walk into a subtree, or out of a hole, arrives at. */
  ghost function First(s: seq<int>): int
  {
    if s == [] then NIL else s[0]
  }

  /** In the tree with `S` in the hole of `Z`, the node after the root of
   *  `S` is the first node of its right subtree when there is one, and
   *  otherwise the first node after the hole. */
  lemma NextInTree(Z: seq<Frame>, S: Tree)
    requires Distinct(Plug(Z, S)) && S.Br?
    ensures Next(InOrder(Plug(Z, S)), S.id) == if S.r.Br? then First(InOrder(S.r)) else First(After(Z))
  {
    var a, b := Before(Z) + InOrder(S.l), InOrder(S.r) + After(Z);
    InOrderAround(Z, S);
    DistinctInOrder(Plug(Z, S));
    NextUnique(a, S.id, b);
    if S.r.Br? {
      assert |InOrder(S.r)| > 0;
    } else {
      assert b == After(Z);
    }
  }

  /** The in-order sequence around the root of the plugged subtree. */
  lemma InOrderAround(Z: seq<Frame>, S: Tree)
    requires S.Br?
    ensures InOrder(Plug(Z, S)) == (Before(Z) + InOrder(S.l)) + [S.id] + (InOrder(S.r) + After(Z))
  {
    InOrderPlug(Z, S);
  }

  /** In a sequence without repetitions, `t` is followed by the first
   *  element of what comes after it. */
  lemma NextUnique(a: seq<int>, t: int, b: seq<int>)
    requires forall i, j :: 0 <= i < j < |a + [t] + b| ==> (a + [t] + b)[i] != (a + [t] + b)[j]
    ensures Next(a + [t] + b, t) == First(b)
  {
    var s := a + [t] + b;
    forall i | 0 <= i < |a|
      ensures a[i] != t
    {
      assert s[i] == a[i] && s[|a|] == t;
    }
    NextSplit(a, t, b);
  }

  /** In an increasing sequence the element after `s[i]` holds the next
   *  larger key: no element holds a key strictly between the two; only
   *  the last element, whose key is the largest, is followed by NIL. */
  lemma NextKey(D: seq<int>, s: seq<int>, i: int)
    requires InBounds(D, s) && Increasing(D, s) && 0 <= i < |s|
    ensures var r := Next(s, s[i]);
            (r == NIL <==> i == |s| - 1) &&
            (r != NIL ==> r in s && D[s[i]] < D[r] &&
                          forall j :: 0 <= j < |s| ==> !(D[s[i]] < D[s[j]] < D[r])) &&
            (r == NIL ==> forall j :: 0 <= j < |s| ==> D[s[j]] <= D[s[i]])
  {
    NextAt(s, i);
    if i + 1 < |s| {
      forall j | 0 <= j < |s|
        ensures !(D[s[i]] < D[s[j]] < D[s[i + 1]])
      {
        if j <= i {
          assert j == i || D[s[j]] < D[s[i]];
        } else {
          assert j == i + 1 || D[s[i + 1]] < D[s[j]];
        }
      }
    } else {
      forall j | 0 <= j < |s|
        ensures D[s[j]] <= D[s[i]]
      {
        assert j == i || D[s[j]] < D[s[i]];
      }
    }
  }

  // ---------------------------------------------------------------------
  // Erasing an id

  /** `s` without its occurrences of `x`. */
  ghost function Erase(s: seq<int>, x: int): seq<int>
    decreases |s|
  {
    if s == [] then []
    else if s[0] == x then Erase(s[1..], x)
    else [s[0]] + Erase(s[1..], x)
  }

  lemma {:induction false} EraseConcat(a: seq<int>, b: seq<int>, x: int)
    ensures Erase(a + b, x) == Erase(a, x) + Erase(b, x)
    decreases |a|
  {
    if a == [] {
      assert a + b == b;
    } else {
      assert (a + b)[0] == a[0];
      assert (a + b)[1..] == a[1..] + b;
      EraseConcat(a[1..], b, x);
    }
  }

  lemma {:induction false} EraseAbsent(s: seq<int>, x: int)
    requires x !in s
    ensures Erase(s, x) == s
    decreases |s|
  {
    if s != [] {
      EraseAbsent(s[1..], x);
      assert s == [s[0]] + s[1..];
    }
  }

  /** Erasing `x` from `a + [x] + b` where `x` occurs nowhere else. */
  lemma EraseMiddle(a: seq<int>, x: int, b: seq<int>)
    requires x !in a && x !in b
    ensures Erase(a + [x] + b, x) == a + b
  {
    var ax := a + [x];
    EraseConcat(ax, b, x);
    EraseConcat(a, [x], x);
    EraseAbsent(a, x);
    EraseAbsent(b, x);
    assert Erase([x], x) == Erase([], x) by {
      assert [x][1..] == [];
    }
    assert Erase(ax, x) == a;
  }

  /** Erasing keeps the relative order: an increasing sequence stays increasing,
   *  and every id left was there before. */
  lemma {:induction false} EraseSub(D: seq<int>, s: seq<int>, x: int)
    requires InBounds(D, s) && Increasing(D, s)
    ensures forall i :: 0 <= i < |Erase(s, x)| ==> Erase(s, x)[i] in s
    ensures InBounds(D, Erase(s, x)) && Increasing(D, Erase(s, x))
    decreases |s|
  {
    if s != [] {
      assert InBounds(D, s[1..]) && Increasing(D, s[1..]);
      EraseSub(D, s[1..], x);
      var e := Erase(s[1..], x);
      assert forall i :: 0 <= i < |e| ==> e[i] in s[1..];
      if s[0] != x {
        var r := [s[0]] + e;
        forall i | 0 <= i < |r| ensures r[i] in s {
          if i > 0 { assert r[i] == e[i - 1]; }
        }
        forall i, j | 0 <= i < j < |r| ensures D[r[i]] < D[r[j]] {
          assert r[j] == e[j - 1];
          if i == 0 {
            var k :| 0 <= k < |s[1..]| && s[1..][k] == e[j - 1];
            assert s[k + 1] == r[j];
          } else {
            assert r[i] == e[i - 1];
          }
        }
      }
    }
  }

  /** Erasing the id of a key removes exactly that key from an ordered
   *  sequence of ids. */
  lemma KeysErase(D: seq<int>, s: seq<int>, x: int)
    requires InBounds(D, s) && Increasing(D, s) && x in s
    ensures KeysOf(D, Erase(s, x)) == KeysOf(D, s) - {D[x]}
  {
    var i :| 0 <= i < |s| && s[i] == x;
    var a, b := s[..i], s[i + 1..];
    assert s == a + [x] + b;
    assert x !in a && x !in b && D[x] !in KeysOf(D, a) && D[x] !in KeysOf(D, b) by {
      assert Below(D, a, D[x]) && Above(D, b, D[x]) by {
        forall j | 0 <= j < |a| ensures D[a[j]] < D[x] { assert a[j] == s[j]; }
        forall j | 0 <= j < |b| ensures D[x] < D[b[j]] { assert b[j] == s[i + 1 + j]; }
      }
      KeysOfBelow(D, a, D[x]);
      KeysOfAbove(D, b, D[x]);
    }
    EraseMiddle(a, x, b);
    KeysMiddle(D, a, x, b);
  }

  lemma KeysMiddle(D: seq<int>, a: seq<int>, x: int, b: seq<int>)
    requires 0 <= x < |D| && D[x] !in KeysOf(D, a) && D[x] !in KeysOf(D, b)
    ensures KeysOf(D, a + b) == KeysOf(D, a + [x] + b) - {D[x]}
  {
    KeysOfConcat(D, a + [x], b);
    KeysOfConcat(D, a, [x]);
    KeysOfConcat(D, a, b);
    KeysOfSingle(D, x);
  }

  /** An increasing sequence holds as many keys as ids. */
  lemma {:induction false} KeysOfCard(D: seq<int>, s: seq<int>)
    requires InBounds(D, s) && Increasing(D, s)
    ensures |KeysOf(D, s)| == |s|
    decreases |s|
  {
    if s != [] {
      var n := |s| - 1;
      assert s == s[..n] + [s[n]];
      IncreasingSplit(D, s[..n], [s[n]]);
      KeysOfCard(D, s[..n]);
      KeysOfBelow(D, s[..n], D[s[n]]);
    }
  }

  /** The number of nodes of an ordered subtree is the number of its keys. */
  lemma CountKeys(D: seq<int>, T: Tree)
    requires Ordered(D, T)
    ensures |Keys(D, T)| == Count(T)
  {
    IdsInOrder(T);
    KeysOfCard(D, InOrder(T));
  }
}
