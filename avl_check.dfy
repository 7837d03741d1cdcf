/** The tree's self-check, insanity(): a recursive walk over the child links
 *  that counts every node it visits and returns the depth of the deepest
 *  node below `t`, or -1 as soon as some node has a wrong parent link, a
 *  key out of order, or a tag that differs from its subtrees' difference
 *  of depths (or lies outside -1..+1). */
module AvlCheck {
  import opened AvlShape
  import opened AvlOrder
  import opened AvlBalance

  /** The child links below pointer `t` spell the finite tree `T`; parent
   *  links are not consulted. The walk ends because `T` is finite. */
  ghost predicate Spells(L: seq<int>, R: seq<int>, T: Tree, t: int)
  {
    match T
    case Nil => t == NIL
    case Br(l, id, r) =>
      t == id && 0 <= id < |L| && id < |R| && Spells(L, R, l, L[id]) && Spells(L, R, r, R[id])
  }

  /** The arguments of a call of insanity(): the arena's sequences have
   *  one length, the child links below `t` spell `T`, and `p` (the node
   *  the walk came from) is NIL only at the root. */
  ghost predicate Walk(D: seq<int>, B: seq<int>, L: seq<int>, R: seq<int>, P: seq<int>,
                       root: int, t: int, p: int, T: Tree)
  {
    |B| == |D| && |L| == |D| && |R| == |D| && |P| == |D| && Spells(L, R, T, t) &&
    (p == NIL ==> t == root) && (p == NIL || 0 <= p < |D|)
  }

  /** The bound a call hands down: equal `min` and `max` stand for the
   *  one-sided bound "below `min`" on a left child and "above `min`" on a
   *  right child; otherwise every key lies strictly between them. */
  ghost predicate Admitted(D: seq<int>, s: seq<int>, min: int, max: int, isLeft: bool)
    requires InBounds(D, s)
  {
    if min == max then (if isLeft then Below(D, s, min) else Above(D, s, min))
    else Above(D, s, min) && Below(D, s, max)
  }

  /** The BST test of node `t` and the bounds it hands to its children,
   *  as (isBST, lnewmin, lnewmax, rnewmin, rnewmax). The key of `t`'s
   *  parent is read at `p`. */
  function ChildBounds(D: seq<int>, root: int, t: int, p: int, min: int, max: int, isLeft: bool)
    : (res: (bool, int, int, int, int))
    requires 0 <= t < |D|
    requires p == NIL ==> t == root
    requires p == NIL || 0 <= p < |D|
    ensures res.1 == D[t] || res.2 == D[t]
    ensures res.3 == D[t] || res.4 == D[t]
  {
    if t == root then (true, D[t], D[t], D[t], D[t])
    else if min == max then
      if isLeft then (D[t] < D[p], D[t], D[t], D[t], max)
      else (D[t] > D[p], min, D[t], D[t], D[t])
    else (D[t] > min && D[t] < max, min, D[t], D[t], max)
  }

  /** insanity(t, n, depth, p, min, max, isleft): the depth reached (or
   *  -1) and the counter `n` after the walk. The counter grows by one for
   *  every node of the subtree, whether or not a check fails on the way,
   *  and a successful walk reports `depth` plus the subtree's height. */
  function Insanity(D: seq<int>, B: seq<int>, L: seq<int>, R: seq<int>, P: seq<int>, root: int,
                    t: int, n: int, depth: int, p: int, min: int, max: int, isLeft: bool,
                    ghost T: Tree): (res: (int, int))
    requires Walk(D, B, L, R, P, root, t, p, T)
    ensures res.1 == n + Count(T)
    ensures res.0 == -1 || res.0 == depth + Height(T)
    decreases T
  {
    if t == NIL then (depth - 1, n)
    else
      var isParent := P[t] == p;
      var k := ChildBounds(D, root, t, p, min, max, isLeft);
      var l := Insanity(D, B, L, R, P, root, L[t], n + 1, depth + 1, t, k.1, k.2, true, T.l);
      var r := Insanity(D, B, L, R, P, root, R[t], l.1, depth + 1, t, k.3, k.4, false, T.r);
      (Verdict(l.0, r.0, k.0, isParent, B[t]), r.1)
  }

  /** The verdict on one node from its children's depths `l` and `r`: the
   *  deeper of the two when every requirement holds, otherwise -1. */
  function Verdict(l: int, r: int, isBST: bool, isParent: bool, balance: int): (res: int)
    ensures res >= 0 <==> r - l <= 1 && r - l >= -1 && l >= 0 && r >= 0 && isBST && isParent && r - l == balance
    ensures res >= 0 ==> res == Max(l, r)
  {
    var imb := r - l;
    var imbCheck := imb == balance;
    if imb <= 1 && imb >= -1 && l >= 0 && r >= 0 && isBST && isParent && imbCheck then
      (if l >= r then l else r)
    else -1
  }

  /** sanity(): an empty tree is sane exactly when the cached size is 0;
   *  otherwise the walk from the root must succeed and count `size` nodes. */
  function Sanity(D: seq<int>, B: seq<int>, L: seq<int>, R: seq<int>, P: seq<int>, root: int,
                  size: int, ghost T: Tree): (ok: bool)
    requires |B| == |D| && |L| == |D| && |R| == |D| && |P| == |D|
    requires Spells(L, R, T, root)
    ensures ok <==> Rep(L, R, P, T, root, NIL) && Distinct(T) && Ordered(D, T) && AVL(B, T) &&
                    size == Count(T)
  {
    if root == NIL then
      0 == size
    else
      RootOnce(L, R, T, root);
      InsanityMeaning(D, B, L, R, P, root, root, 0, 0, NIL, 0, 0, false, T);
      OrderedDistinct(D, T);
      var res := Insanity(D, B, L, R, P, root, root, 0, 0, NIL, 0, 0, false, T);
      res.0 >= 0 && res.1 == size
  }

  // ---------------------------------------------------------------------
  // What one call decides

  /** The BST tests of a whole walk, one node at a time, with the bounds
   *  each node hands down; `p` is the node the walk came from. */
  ghost predicate BoundsHold(D: seq<int>, root: int, T: Tree, p: int, min: int, max: int, isLeft: bool)
    decreases T
  {
    match T
    case Nil => true
    case Br(l, id, r) =>
      0 <= id < |D| && (p == NIL ==> id == root) && (p == NIL || 0 <= p < |D|) &&
      var k := ChildBounds(D, root, id, p, min, max, isLeft);
      k.0 && BoundsHold(D, root, l, id, k.1, k.2, true) && BoundsHold(D, root, r, id, k.3, k.4, false)
  }

  /** A call on the subtree below `t` succeeds exactly when that subtree is
   *  linked under `p`, ordered, balanced with correct tags, and (unless
   *  `t` is the root) within the bounds the call was handed. */
  lemma InsanityMeaning(D: seq<int>, B: seq<int>, L: seq<int>, R: seq<int>, P: seq<int>,
                        root: int, t: int, n: int, depth: int, p: int,
                        min: int, max: int, isLeft: bool, T: Tree)
    requires Walk(D, B, L, R, P, root, t, p, T)
    requires depth >= 1 || (depth == 0 && t != NIL)
    requires t != root && min == max ==> p != NIL && min == D[p]
    requires T.Br? ==> root !in Ids(T.l) && root !in Ids(T.r)
    ensures Insanity(D, B, L, R, P, root, t, n, depth, p, min, max, isLeft, T).0 >= 0 <==>
            Rep(L, R, P, T, t, p) && Ordered(D, T) && AVL(B, T) &&
            (t == root || Admitted(D, InOrder(T), min, max, isLeft))
  {
    InsanityChecks(D, B, L, R, P, root, t, n, depth, p, min, max, isLeft, T);
    BoundsMeaningAll(D, root, T, p, min, max, isLeft);
  }

  /** The walk succeeds exactly when the links, the tags and the BST tests
   *  all hold. */
  lemma {:induction false} InsanityChecks(D: seq<int>, B: seq<int>, L: seq<int>, R: seq<int>, P: seq<int>,
                                         root: int, t: int, n: int, depth: int, p: int,
                                         min: int, max: int, isLeft: bool, T: Tree)
    requires Walk(D, B, L, R, P, root, t, p, T)
    requires depth >= 1 || (depth == 0 && t != NIL)
    ensures Insanity(D, B, L, R, P, root, t, n, depth, p, min, max, isLeft, T).0 >= 0 <==>
            Rep(L, R, P, T, t, p) && AVL(B, T) && BoundsHold(D, root, T, p, min, max, isLeft)
    decreases T
  {
    if T.Br? {
      var k := ChildBounds(D, root, t, p, min, max, isLeft);
      var l := Insanity(D, B, L, R, P, root, L[t], n + 1, depth + 1, t, k.1, k.2, true, T.l);
      var r := Insanity(D, B, L, R, P, root, R[t], l.1, depth + 1, t, k.3, k.4, false, T.r);
      InsanityChecks(D, B, L, R, P, root, L[t], n + 1, depth + 1, t, k.1, k.2, true, T.l);
      InsanityChecks(D, B, L, R, P, root, R[t], l.1, depth + 1, t, k.3, k.4, false, T.r);
      assert Insanity(D, B, L, R, P, root, t, n, depth, p, min, max, isLeft, T).0 ==
             Verdict(l.0, r.0, k.0, P[t] == p, B[t]);
      VerdictMeaning(l.0, r.0, depth + 1 + Height(T.l), depth + 1 + Height(T.r), k.0, P[t] == p, B[t],
                     Rep(L, R, P, T.l, L[t], t) && AVL(B, T.l) && BoundsHold(D, root, T.l, t, k.1, k.2, true),
                     Rep(L, R, P, T.r, R[t], t) && AVL(B, T.r) && BoundsHold(D, root, T.r, t, k.3, k.4, false));
      RepLevel(L, R, P, T, t, p);
      AVLLevel(B, T);
      BoundsLevel(D, root, T, p, min, max, isLeft);
    }
  }

  /** One level of each of the three properties the walk tests. */
  lemma AVLLevel(B: seq<int>, T: Tree)
    requires T.Br? && 0 <= T.id < |B|
    ensures AVL(B, T) <==> B[T.id] == Height(T.r) - Height(T.l) && -1 <= B[T.id] <= 1 && AVL(B, T.l) && AVL(B, T.r)
  {
  }

  lemma RepLevel(L: seq<int>, R: seq<int>, P: seq<int>, T: Tree, t: int, p: int)
    requires T.Br? && t == T.id && 0 <= t < |L| && t < |R| && t < |P|
    ensures Rep(L, R, P, T, t, p) <==> P[t] == p && Rep(L, R, P, T.l, L[t], t) && Rep(L, R, P, T.r, R[t], t)
  {
  }

  lemma BoundsLevel(D: seq<int>, root: int, T: Tree, p: int, min: int, max: int, isLeft: bool)
    requires T.Br? && 0 <= T.id < |D|
    requires p == NIL ==> T.id == root
    requires p == NIL || 0 <= p < |D|
    ensures var k := ChildBounds(D, root, T.id, p, min, max, isLeft);
            BoundsHold(D, root, T, p, min, max, isLeft) <==>
            k.0 && BoundsHold(D, root, T.l, T.id, k.1, k.2, true) && BoundsHold(D, root, T.r, T.id, k.3, k.4, false)
  {
  }

  /** One node's verdict: it passes exactly when both children pass, the
   *  node's own tests hold, and its tag is the difference of the
   *  children's heights and lies in -1..+1. */
  lemma VerdictMeaning(l: int, r: int, hl: int, hr: int, isBST: bool, isParent: bool, tag: int,
                       okL: bool, okR: bool)
    requires l >= 0 <==> okL
    requires r >= 0 <==> okR
    requires l >= 0 ==> l == hl
    requires r >= 0 ==> r == hr
    ensures Verdict(l, r, isBST, isParent, tag) >= 0 <==>
            okL && okR && isBST && isParent && tag == hr - hl && -1 <= tag <= 1
  {
  }

  /** The BST tests of a walk say exactly that the subtree is ordered and
   *  (unless it hangs from the root pointer) within the bounds handed to
   *  it. */
  lemma {:induction false} BoundsMeaningAll(D: seq<int>, root: int, T: Tree, p: int,
                                           min: int, max: int, isLeft: bool)
    requires T.Br? && p == NIL ==> T.id == root
    requires p == NIL || 0 <= p < |D|
    requires Ptr(T) != root && min == max ==> p != NIL && min == D[p]
    requires T.Br? ==> root !in Ids(T.l) && root !in Ids(T.r)
    ensures BoundsHold(D, root, T, p, min, max, isLeft) <==>
            Ordered(D, T) && (Ptr(T) == root || Admitted(D, InOrder(T), min, max, isLeft))
    decreases T
  {
    if T.Br? && 0 <= T.id < |D| {
      var t := T.id;
      var k := ChildBounds(D, root, t, p, min, max, isLeft);
      assert T.l.Br? ==> T.l.id in Ids(T.l);
      assert T.r.Br? ==> T.r.id in Ids(T.r);
      BoundsMeaningAll(D, root, T.l, t, k.1, k.2, true);
      BoundsMeaningAll(D, root, T.r, t, k.3, k.4, false);
      var a, b := InOrder(T.l), InOrder(T.r);
      assert InOrder(T) == a + [t] + b;
      OrderedBr(D, T.l, t, T.r);
      if Ordered(D, T.l) && Ordered(D, T.r) {
        BoundsMeaning(D, a, t, b, root, p, min, max, isLeft);
      }
    } else if T.Br? {
      OrderedBr(D, T.l, T.id, T.r);
    }
  }

  /** The BST test of one node together with its children's bounds says
   *  exactly: left keys below, right keys above, and the whole subtree
   *  within the node's own bounds. */
  lemma BoundsMeaning(D: seq<int>, a: seq<int>, t: int, b: seq<int>,
                      root: int, p: int, min: int, max: int, isLeft: bool)
    requires InBounds(D, a) && InBounds(D, b) && 0 <= t < |D|
    requires p == NIL ==> t == root
    requires p == NIL || 0 <= p < |D|
    requires t != root && min == max ==> p != NIL && min == D[p]
    ensures InBounds(D, a + [t] + b)
    ensures var k := ChildBounds(D, root, t, p, min, max, isLeft);
            (k.0 && Admitted(D, a, k.1, k.2, true) && Admitted(D, b, k.3, k.4, false)) <==>
            (Below(D, a, D[t]) && Above(D, b, D[t]) &&
             (t == root || Admitted(D, a + [t] + b, min, max, isLeft)))
  {
    var s := a + [t] + b;
    BoundSplit(D, a, t, b);
    var x := D[t];
    if t == root {
    } else if min == max {
      if isLeft {
        if x < min {
          assert Below(D, a, x) ==> Below(D, a, min);
        }
      } else {
        if min < x {
          assert Above(D, b, x) ==> Above(D, b, min);
        }
      }
    } else {
      if min < x < max {
        assert Below(D, a, x) ==> Below(D, a, max);
        assert Above(D, b, x) ==> Above(D, b, min);
      }
    }
  }

  /** Bounds on `a + [t] + b` are bounds on each part. */
  lemma BoundSplit(D: seq<int>, a: seq<int>, t: int, b: seq<int>)
    requires InBounds(D, a) && InBounds(D, b) && 0 <= t < |D|
    ensures InBounds(D, a + [t] + b)
    ensures forall x :: Below(D, a + [t] + b, x) <==> Below(D, a, x) && D[t] < x && Below(D, b, x)
    ensures forall x :: Above(D, a + [t] + b, x) <==> Above(D, a, x) && x < D[t] && Above(D, b, x)
  {
    var s := a + [t] + b;
    assert forall i :: 0 <= i < |a| ==> s[i] == a[i];
    assert s[|a|] == t;
    assert forall j :: 0 <= j < |b| ==> s[|a| + 1 + j] == b[j];
    assert forall i :: 0 <= i < |s| ==> i < |a| || i == |a| || s[i] == b[i - |a| - 1];
  }

  /** A node's subtree is ordered exactly when both child subtrees are and
   *  the node's key lies between them. */
  lemma OrderedBr(D: seq<int>, l: Tree, t: int, r: Tree)
    ensures Ordered(D, Br(l, t, r)) <==>
            0 <= t < |D| && Ordered(D, l) && Ordered(D, r) &&
            Below(D, InOrder(l), D[t]) && Above(D, InOrder(r), D[t])
  {
    var a, b := InOrder(l), InOrder(r);
    if Ordered(D, Br(l, t, r)) {
      OrderedParts(D, a, t, b);
    }
    if 0 <= t < |D| && Ordered(D, l) && Ordered(D, r) && Below(D, a, D[t]) && Above(D, b, D[t]) {
      IncreasingJoin(D, a, t, b);
    }
  }

  lemma OrderedParts(D: seq<int>, a: seq<int>, t: int, b: seq<int>)
    requires InBounds(D, a + [t] + b) && Increasing(D, a + [t] + b)
    ensures 0 <= t < |D| && InBounds(D, a) && InBounds(D, b) && Increasing(D, a) && Increasing(D, b)
    ensures Below(D, a, D[t]) && Above(D, b, D[t])
  {
    IncreasingSplit(D, a + [t], b);
    IncreasingSplit(D, a, [t]);
    var c := a + [t];
    assert c[|a|] == t;
  }

  /** Two increasing runs with the key of `t` strictly between them: the
   *  run through `t` increases. */
  lemma IncreasingJoin(D: seq<int>, a: seq<int>, t: int, b: seq<int>)
    requires InBounds(D, a) && InBounds(D, b) && Increasing(D, a) && Increasing(D, b) && 0 <= t < |D|
    requires Below(D, a, D[t]) && Above(D, b, D[t])
    ensures InBounds(D, a + [t] + b) && Increasing(D, a + [t] + b)
  {
    var s := a + [t] + b;
    forall i | 0 <= i < |s|
      ensures 0 <= s[i] < |D|
      ensures D[s[i]] == (if i < |a| then D[a[i]] else if i == |a| then D[t] else D[b[i - |a| - 1]])
    {
      if i < |a| {
        assert s[i] == a[i];
      } else if i > |a| {
        assert s[i] == b[i - |a| - 1];
      }
    }
  }

  // ---------------------------------------------------------------------
  // Shape facts the walk relies on

  /** Two trees spelled from the same pointer are the same tree. */
  lemma {:induction false} SpellsUnique(L: seq<int>, R: seq<int>, T1: Tree, T2: Tree, t: int)
    requires Spells(L, R, T1, t) && Spells(L, R, T2, t)
    ensures T1 == T2
    decreases T1
  {
    if T1.Br? {
      SpellsUnique(L, R, T1.l, T2.l, L[t]);
      SpellsUnique(L, R, T1.r, T2.r, R[t]);
    }
  }

  /** Every node of a spelled tree spells a subtree no larger than it. */
  lemma {:induction false} SpellsSub(L: seq<int>, R: seq<int>, T: Tree, t: int, x: int) returns (S: Tree)
    requires Spells(L, R, T, t) && x in Ids(T)
    ensures Spells(L, R, S, x) && Count(S) <= Count(T)
    decreases T
  {
    if x == T.id {
      S := T;
    } else if x in Ids(T.l) {
      S := SpellsSub(L, R, T.l, L[t], x);
    } else {
      S := SpellsSub(L, R, T.r, R[t], x);
    }
  }

  /** The walk from the root never meets the root again: a finite tree
   *  holds no copy of itself. */
  lemma RootOnce(L: seq<int>, R: seq<int>, T: Tree, root: int)
    requires Spells(L, R, T, root)
    ensures T.Br? ==> root !in Ids(T.l) && root !in Ids(T.r)
  {
    if T.Br? {
      if root in Ids(T.l) {
        var S := SpellsSub(L, R, T.l, L[root], root);
        SpellsUnique(L, R, S, T, root);
      }
      if root in Ids(T.r) {
        var S := SpellsSub(L, R, T.r, R[root], root);
        SpellsUnique(L, R, S, T, root);
      }
    }
  }

  /** Linked subtrees are spelled by their child links. */
  lemma {:induction false} RepSpells(L: seq<int>, R: seq<int>, P: seq<int>, T: Tree, t: int, p: int)
    requires Rep(L, R, P, T, t, p)
    ensures Spells(L, R, T, t)
    decreases T
  {
    if T.Br? {
      RepSpells(L, R, P, T.l, L[t], t);
      RepSpells(L, R, P, T.r, R[t], t);
    }
  }

  /** Strictly increasing keys never repeat a node. */
  lemma {:induction false} OrderedDistinct(D: seq<int>, T: Tree)
    ensures Ordered(D, T) ==> Distinct(T)
    decreases T
  {
    if T.Br? && Ordered(D, T) {
      OrderedBr(D, T.l, T.id, T.r);
      OrderedDistinct(D, T.l);
      OrderedDistinct(D, T.r);
      IdsInOrder(T.l);
      IdsInOrder(T.r);
      var a, b := InOrder(T.l), InOrder(T.r);
      forall i | i in Ids(T.l) ensures 0 <= i < |D| && D[i] < D[T.id] {
        var u :| 0 <= u < |a| && a[u] == i;
      }
      forall i | i in Ids(T.r) ensures 0 <= i < |D| && D[T.id] < D[i] {
        var v :| 0 <= v < |b| && b[v] == i;
      }
      Apart(D, Ids(T.l), Ids(T.r), T.id);
    }
  }

  /** Keys below and keys above a node's key belong to different nodes. */
  lemma Apart(D: seq<int>, X: set<int>, Y: set<int>, t: int)
    requires 0 <= t < |D|
    requires forall i :: i in X ==> 0 <= i < |D| && D[i] < D[t]
    requires forall i :: i in Y ==> 0 <= i < |D| && D[t] < D[i]
    ensures t !in X && t !in Y && X !! Y
  {
    forall i | i in X ensures i !in Y {
    }
  }
}
