/** Search-tree order: keys read off the in-order sequence of ids strictly
 *  increase. Keys are `int` (the container is instantiated with `int` in
 *  its only client, and insanity's default bounds are `min = max = 0`). */
module AvlOrder {
  import opened AvlShape

  /** Every id of `s` indexes the key arena `D`. */
  ghost predicate InBounds(D: seq<int>, s: seq<int>)
  {
    forall i :: 0 <= i < |s| ==> 0 <= s[i] < |D|
  }

  /** The keys of the ids in `s` strictly increase. */
  ghost predicate Increasing(D: seq<int>, s: seq<int>)
    requires InBounds(D, s)
  {
    forall i, j :: 0 <= i < j < |s| ==> D[s[i]] < D[s[j]]
  }

  /** The binary-search-tree property of the subtree `T`. */
  ghost predicate Ordered(D: seq<int>, T: Tree)
  {
    InBounds(D, InOrder(T)) && Increasing(D, InOrder(T))
  }

  /** Every key of the ids in `s` is below `x`. */
  ghost predicate Below(D: seq<int>, s: seq<int>, x: int)
    requires InBounds(D, s)
  {
    forall i :: 0 <= i < |s| ==> D[s[i]] < x
  }

  /** Every key of the ids in `s` is above `x`. */
  ghost predicate Above(D: seq<int>, s: seq<int>, x: int)
    requires InBounds(D, s)
  {
    forall i :: 0 <= i < |s| ==> x < D[s[i]]
  }

  /** `x` belongs in the hole of `Z`: it lies strictly between the keys
   *  before the hole and the keys after it. */
  ghost predicate Fits(D: seq<int>, Z: seq<Frame>, x: int)
  {
    InBounds(D, Before(Z)) && InBounds(D, After(Z)) &&
    Below(D, Before(Z), x) && Above(D, After(Z), x)
  }

  /** The keys held by the ids of `s`. */
  ghost function KeysOf(D: seq<int>, s: seq<int>): set<int>
    decreases |s|
  {
    if s == [] then {}
    else KeysOf(D, s[..|s| - 1]) + (if 0 <= s[|s| - 1] < |D| then {D[s[|s| - 1]]} else {})
  }

  /** The keys held by a subtree. */
  ghost function Keys(D: seq<int>, T: Tree): set<int>
  {
    KeysOf(D, InOrder(T))
  }

  // ---------------------------------------------------------------------

  lemma {:induction false} KeysOfConcat(D: seq<int>, a: seq<int>, b: seq<int>)
    ensures KeysOf(D, a + b) == KeysOf(D, a) + KeysOf(D, b)
    decreases |b|
  {
    if b == [] {
      assert a + b == a;
    } else {
      var n := |b| - 1;
      assert (a + b)[..|a + b| - 1] == a + b[..n];
      KeysOfConcat(D, a, b[..n]);
    }
  }

  lemma KeysOfSingle(D: seq<int>, i: int)
    requires 0 <= i < |D|
    ensures KeysOf(D, [i]) == {D[i]}
  {
    assert [i][..0] == [];
  }

  /** The key of every listed id is among the keys. */
  lemma KeysOfIndex(D: seq<int>, s: seq<int>, i: int)
    requires 0 <= i < |s| && 0 <= s[i] < |D|
    ensures D[s[i]] in KeysOf(D, s)
  {
    assert s == s[..i] + [s[i]] + s[i + 1..];
    KeysOfConcat(D, s[..i] + [s[i]], s[i + 1..]);
    KeysOfConcat(D, s[..i], [s[i]]);
    KeysOfSingle(D, s[i]);
  }

  /** Keys outside the hole's neighbourhood: the keys of a whole tree are
   *  those before the hole, those of the plugged subtree and those after. */
  lemma KeysPlug(D: seq<int>, Z: seq<Frame>, S: Tree)
    ensures Keys(D, Plug(Z, S)) == KeysOf(D, Before(Z)) + Keys(D, S) + KeysOf(D, After(Z))
  {
    InOrderPlug(Z, S);
    KeysOfConcat(D, Before(Z) + InOrder(S), After(Z));
    KeysOfConcat(D, Before(Z), InOrder(S));
  }

  lemma KeysBr(D: seq<int>, l: Tree, id: int, r: Tree)
    requires 0 <= id < |D|
    ensures Keys(D, Br(l, id, r)) == Keys(D, l) + {D[id]} + Keys(D, r)
  {
    KeysOfConcat(D, InOrder(l) + [id], InOrder(r));
    KeysOfConcat(D, InOrder(l), [id]);
    KeysOfSingle(D, id);
  }

  lemma {:induction false} KeysOfBelow(D: seq<int>, s: seq<int>, x: int)
    requires InBounds(D, s) && Below(D, s, x)
    ensures x !in KeysOf(D, s)
    decreases |s|
  {
    if s != [] {
      KeysOfBelow(D, s[..|s| - 1], x);
    }
  }

  lemma {:induction false} KeysOfAbove(D: seq<int>, s: seq<int>, x: int)
    requires InBounds(D, s) && Above(D, s, x)
    ensures x !in KeysOf(D, s)
    decreases |s|
  {
    if s != [] {
      KeysOfAbove(D, s[..|s| - 1], x);
    }
  }

  /** A key that fits the hole is in the whole tree exactly when it is in
   *  the plugged subtree. */
  lemma FitsKeys(D: seq<int>, Z: seq<Frame>, S: Tree, x: int)
    requires Fits(D, Z, x)
    ensures x in Keys(D, Plug(Z, S)) <==> x in Keys(D, S)
  {
    KeysPlug(D, Z, S);
    KeysOfBelow(D, Before(Z), x);
    KeysOfAbove(D, After(Z), x);
  }

  /** Both halves of an increasing sequence increase, and every key of the
   *  first half is below every key of the second. */
  lemma IncreasingSplit(D: seq<int>, a: seq<int>, b: seq<int>)
    requires InBounds(D, a + b) && Increasing(D, a + b)
    ensures InBounds(D, a) && InBounds(D, b) && Increasing(D, a) && Increasing(D, b)
    ensures forall i, j :: 0 <= i < |a| && 0 <= j < |b| ==> D[a[i]] < D[b[j]]
  {
    var s := a + b;
    assert forall i :: 0 <= i < |a| ==> s[i] == a[i];
    assert forall j :: 0 <= j < |b| ==> s[|a| + j] == b[j];
    forall i, j | 0 <= i < |a| && 0 <= j < |b| ensures D[a[i]] < D[b[j]] {
      assert s[i] == a[i] && s[|a| + j] == b[j];
    }
    forall i, j | 0 <= i < j < |b| ensures D[b[i]] < D[b[j]] {
      assert s[|a| + i] == b[i] && s[|a| + j] == b[j];
    }
  }

  /** An ordered tree stays ordered in each part around a hole: the plugged
   *  subtree is ordered. */
  lemma OrderedPlug(D: seq<int>, Z: seq<Frame>, S: Tree)
    requires Ordered(D, Plug(Z, S))
    ensures InBounds(D, Before(Z)) && InBounds(D, After(Z)) && Ordered(D, S)
    ensures Increasing(D, Before(Z)) && Increasing(D, After(Z))
  {
    InOrderPlug(Z, S);
    IncreasingSplit(D, Before(Z) + InOrder(S), After(Z));
    IncreasingSplit(D, Before(Z), InOrder(S));
  }

  /** Stepping from an ordered node to its left child, a key smaller than
   *  the node's still fits the new hole. */
  lemma FitsLeft(D: seq<int>, Z: seq<Frame>, S: Tree, x: int)
    requires S.Br? && Ordered(D, Plug(Z, S)) && Fits(D, Z, x)
    requires 0 <= S.id < |D| && x < D[S.id]
    ensures Fits(D, [Frame(S.id, true, S.r)] + Z, x)
  {
    var Z2 := [Frame(S.id, true, S.r)] + Z;
    assert Z2[1..] == Z;
    assert Plug(Z2, S.l) == Plug(Z, S);
    InOrderPlug(Z2, S.l);
    IncreasingSplit(D, Before(Z2) + InOrder(S.l), After(Z2));
    assert After(Z2)[0] == S.id;
    FirstBound(D, After(Z2), x);
  }

  /** Mirror image of `FitsLeft`. */
  lemma FitsRight(D: seq<int>, Z: seq<Frame>, S: Tree, x: int)
    requires S.Br? && Ordered(D, Plug(Z, S)) && Fits(D, Z, x)
    requires 0 <= S.id < |D| && D[S.id] < x
    ensures Fits(D, [Frame(S.id, false, S.l)] + Z, x)
  {
    var Z2 := [Frame(S.id, false, S.l)] + Z;
    assert Z2[1..] == Z;
    assert Plug(Z2, S.r) == Plug(Z, S);
    InOrderPlug(Z2, S.r);
    Associate(Before(Z2), InOrder(S.r), After(Z2));
    IncreasingSplit(D, Before(Z2), InOrder(S.r) + After(Z2));
    assert Before(Z2)[|Before(Z2)| - 1] == S.id;
    LastBound(D, Before(Z2), x);
  }

  /** In an increasing sequence every key is at most the last one. */
  lemma LastBound(D: seq<int>, s: seq<int>, x: int)
    requires InBounds(D, s) && Increasing(D, s) && s != [] && D[s[|s| - 1]] < x
    ensures Below(D, s, x)
  {
    forall i | 0 <= i < |s| - 1
      ensures D[s[i]] < x
    {
      assert D[s[i]] < D[s[|s| - 1]];
    }
  }

  /** In an increasing sequence every key is at least the first one. */
  lemma FirstBound(D: seq<int>, s: seq<int>, x: int)
    requires InBounds(D, s) && Increasing(D, s) && s != [] && x < D[s[0]]
    ensures Above(D, s, x)
  {
    forall i | 0 < i < |s|
      ensures x < D[s[i]]
    {
      assert D[s[0]] < D[s[i]];
    }
  }

  /** Appending a key to the arena leaves the keys of the old ids alone. */
  lemma {:induction false} KeysOfExtend(D: seq<int>, s: seq<int>, x: int)
    requires InBounds(D, s)
    ensures KeysOf(D + [x], s) == KeysOf(D, s)
    decreases |s|
  {
    if s != [] {
      KeysOfExtend(D, s[..|s| - 1], x);
    }
  }

  /** Two increasing runs with `x` strictly between them, and `x` stored
   *  in a new last id: the run through the new id increases. */
  lemma IncreasingInsert(D: seq<int>, a: seq<int>, b: seq<int>, x: int)
    requires InBounds(D, a) && InBounds(D, b) && Increasing(D, a) && Increasing(D, b)
    requires Below(D, a, x) && Above(D, b, x)
    ensures InBounds(D + [x], a + [|D|] + b) && Increasing(D + [x], a + [|D|] + b)
  {
    var D2, s := D + [x], a + [|D|] + b;
    forall i | 0 <= i < |s|
      ensures 0 <= s[i] < |D2|
      ensures D2[s[i]] == (if i < |a| then D[a[i]] else if i == |a| then x else D[b[i - |a| - 1]])
    {
      if i < |a| {
        assert s[i] == a[i];
      } else if i > |a| {
        assert s[i] == b[i - |a| - 1];
      }
    }
  }

  /** A key that fits the hole of `Z`, stored in a new last node `|D|` of
   *  the arena and hung in the hole: the tree stays ordered and holds one
   *  more key, `x`. */
  lemma OrderedAttach(D: seq<int>, Z: seq<Frame>, x: int)
    requires Ordered(D, Plug(Z, Nil)) && Fits(D, Z, x)
    ensures var T := Plug(Z, Br(Nil, |D|, Nil));
            Ordered(D + [x], T) && Keys(D + [x], T) == Keys(D, Plug(Z, Nil)) + {x}
  {
    var n, D2 := |D|, D + [x];
    var a, b := Before(Z), After(Z);
    InOrderPlug(Z, Nil);
    InOrderPlug(Z, Br(Nil, n, Nil));
    OrderedPlug(D, Z, Nil);
    assert InOrder(Plug(Z, Br(Nil, n, Nil))) == a + [n] + b;
    assert InOrder(Plug(Z, Nil)) == a + b;
    IncreasingInsert(D, a, b, x);
    KeysOfConcat(D2, a + [n], b);
    KeysOfConcat(D2, a, [n]);
    KeysOfSingle(D2, n);
    KeysOfExtend(D, a, x);
    KeysOfExtend(D, b, x);
    KeysOfConcat(D, a, b);
  }
}
