/** The rebalancing steps on the whole node state: each lemma takes the
 *  links and the tags of a tree that holds `S` in the hole of `Z`, and
 *  states what the links functions of AvlLinks and the tags of
 *  AvlBalance give for one branch of handle_subtree_growth or
 *  handle_subtree_shrink: the shape the new links spell, that the in-order
 *  sequence of nodes is kept, and that the new tags are AVL. */
module AvlSteps {
  import opened AvlShape
  import opened AvlBalance
  import opened AvlOrder
  import opened AvlLinks
  import opened AvlRebalance

  /** The tags handle_subtree_growth reads are in range and take one of
   *  the three AVL values. */
  lemma GrowthTags(B: seq<int>, Z: seq<Frame>, S: Tree)
    requires Z != [] && S.Br? && Grown(B, Z, S)
    ensures 0 <= Z[0].pid < |B| && -1 <= B[Z[0].pid] <= 1
    ensures 0 <= S.id < |B| && -1 <= B[S.id] <= 1
    ensures Distinct(Plug(Z, S)) ==> Z[0].pid != S.id
  {
    CtxHead(B, Z, Height(S) - 1);
    if Distinct(Plug(Z, S)) {
      FrameFacts(Z, S);
      assert S.id in Ids(S);
    }
  }

  /** handle_subtree_growth(t, p, sign) when `p` and `t` both lean toward
   *  `sign`: after rotate(p, -sign) and both tags set to EH, the links
   *  spell the rotated tree, the node order is kept and the whole tree is
   *  AVL. */
  lemma GrowthRotation(L: seq<int>, R: seq<int>, P: seq<int>, B: seq<int>, Z: seq<Frame>, S: Tree,
                       root: int, t: int, p: int, sign: int)
    requires |L| == |R| == |P| && Rep(L, R, P, Plug(Z, S), root, NIL) && Distinct(Plug(Z, S))
    requires Z != [] && S.Br? && t == S.id && p == Z[0].pid && sign == GrowSign(Z[0])
    requires Grown(B, Z, S) && 0 <= p < |B| && 0 <= t < |B| && B[p] == sign && B[t] == sign
    ensures RotateReady(L, R, P, p, -sign) && ChildOf(L, R, p, sign) == t
    ensures var k, T := Rotation(L, R, P, root, p, -sign), Plug(Z[1..], Rotated(Attach(Z[0], S), -sign));
            Rep(k.0, k.1, k.2, T, k.3, NIL) && Distinct(T) &&
            InOrder(T) == InOrder(Plug(Z, S)) && AVL(B[p := EH][t := EH], T)
  {
    var A := Attach(Z[0], S);
    var T := Rotated(A, -sign);
    GrowRotated(B, Z, S);
    RotationShape(L, R, P, Z[1..], A, -sign, root);
    AVLPlug(SingleTags(B, p, t, sign), Z[1..], T);
    RotatedKeeps(A, -sign);
    InOrderPlug(Z[1..], A);
    InOrderPlug(Z[1..], T);
  }

  /** handle_subtree_growth(t, p, sign) when `p` leans toward `sign` and
   *  `t` away from it: after double_rotate(t, p, -sign) the links spell
   *  the doubly rotated tree, the node order is kept and the whole tree
   *  with the tags double_rotate writes is AVL. */
  lemma GrowthDoubleRotation(L: seq<int>, R: seq<int>, P: seq<int>, B: seq<int>, Z: seq<Frame>, S: Tree,
                             root: int, t: int, p: int, sign: int)
    requires |L| == |R| == |P| == |B| && Rep(L, R, P, Plug(Z, S), root, NIL) && Distinct(Plug(Z, S))
    requires Z != [] && S.Br? && t == S.id && p == Z[0].pid && sign == GrowSign(Z[0])
    requires Grown(B, Z, S) && 0 <= p < |B| && 0 <= t < |B| && B[p] == sign && B[t] == -sign
    ensures DoubleRotateReady(L, R, P, t, p, -sign) && ChildOf(L, R, p, sign) == t
    ensures var e := ChildOf(L, R, t, -sign);
            var k, T := DoubleRotation(L, R, P, root, t, p, -sign), Plug(Z[1..], DoubleRotated(Attach(Z[0], S), -sign));
            Rep(k.0, k.1, k.2, T, k.3, NIL) && Distinct(T) &&
            InOrder(T) == InOrder(Plug(Z, S)) && AVL(DoubleTags(B, p, t, e, -sign), T)
  {
    var A := Attach(Z[0], S);
    var T := DoubleRotated(A, -sign);
    GrowDoubleRotated(B, Z, S);
    DoubleRotationShape(L, R, P, Z[1..], A, -sign, root);
    AVLPlug(DoubleTags(B, p, t, Sub(S, -sign).id, -sign), Z[1..], T);
    DoubleRotatedKeeps(A, -sign);
    InOrderPlug(Z[1..], A);
    InOrderPlug(Z[1..], T);
  }

  /** Trees that list the same nodes in the same order, as a tree before
   *  and after rebalancing does, are ordered alike, hold the same keys and
   *  count the same nodes. */
  lemma SameSequence(D: seq<int>, T1: Tree, T2: Tree)
    requires InOrder(T1) == InOrder(T2)
    ensures (Ordered(D, T1) <==> Ordered(D, T2)) && Keys(D, T1) == Keys(D, T2) && Count(T1) == Count(T2)
  {
    IdsInOrder(T1);
    IdsInOrder(T2);
  }

  // ---------------------------------------------------------------------
  // insert(t, x): the descent and the new leaf

  /** The links at the root of `S`, the subtree in the hole of `Z`: they
   *  point at the subtrees of `S` and at the hole's parent, and the hole
   *  one level down on either side plugs back into the same tree. */
  lemma Children(L: seq<int>, R: seq<int>, P: seq<int>, Z: seq<Frame>, S: Tree, root: int)
    requires Rep(L, R, P, Plug(Z, S), root, NIL) && Distinct(Plug(Z, S)) && S.Br?
    ensures InArena(L, R, P, S.id) && L[S.id] == Ptr(S.l) && R[S.id] == Ptr(S.r) && P[S.id] == Up(Z, NIL)
    ensures (S.l == Nil <==> L[S.id] == NIL) && (S.r == Nil <==> R[S.id] == NIL)
    ensures Site(L, R, P, Z, S.id, root)
    ensures Plug([Frame(S.id, true, S.r)] + Z, S.l) == Plug(Z, S)
    ensures Plug([Frame(S.id, false, S.l)] + Z, S.r) == Plug(Z, S)
  {
    SiteOf(L, R, P, Z, S, root);
    RepKids(L, R, P, S, S.id, Up(Z, NIL));
    if S.l.Br? {
      RepKids(L, R, P, S.l, L[S.id], S.id);
    }
    if S.r.Br? {
      RepKids(L, R, P, S.r, R[S.id], S.id);
    }
    assert ([Frame(S.id, true, S.r)] + Z)[1..] == Z;
    assert ([Frame(S.id, false, S.l)] + Z)[1..] == Z;
  }

  /** One step of the descent of insert(t, x) at the root of `S`, where
   *  `x` fits the hole `Z`: the node's links point at the subtrees of `S`;
   *  an equal key is already in the tree; otherwise `x` fits the hole one
   *  level down on the side the comparison picks. */
  lemma Descend(L: seq<int>, R: seq<int>, P: seq<int>, D: seq<int>, Z: seq<Frame>, S: Tree, root: int, x: int)
    requires Rep(L, R, P, Plug(Z, S), root, NIL) && Distinct(Plug(Z, S)) && S.Br?
    requires |D| == |L| && Ordered(D, Plug(Z, S)) && Fits(D, Z, x)
    ensures 0 <= S.id < |L| && S.id < |R| && L[S.id] == Ptr(S.l) && R[S.id] == Ptr(S.r)
    ensures (S.l == Nil <==> L[S.id] == NIL) && (S.r == Nil <==> R[S.id] == NIL)
    ensures x == D[S.id] ==> x in Keys(D, Plug(Z, S))
    ensures x < D[S.id] ==> Fits(D, [Frame(S.id, true, S.r)] + Z, x) &&
                            Plug([Frame(S.id, true, S.r)] + Z, S.l) == Plug(Z, S)
    ensures x > D[S.id] ==> Fits(D, [Frame(S.id, false, S.l)] + Z, x) &&
                            Plug([Frame(S.id, false, S.l)] + Z, S.r) == Plug(Z, S)
  {
    SiteOf(L, R, P, Z, S, root);
    RepKids(L, R, P, S, S.id, Up(Z, NIL));
    if S.l.Br? {
      RepKids(L, R, P, S.l, L[S.id], S.id);
    }
    if S.r.Br? {
      RepKids(L, R, P, S.r, R[S.id], S.id);
    }
    if x == D[S.id] {
      FitsKeys(D, Z, S, x);
      KeysBr(D, S.l, S.id, S.r);
    } else if x < D[S.id] {
      FitsLeft(D, Z, S, x);
      assert ([Frame(S.id, true, S.r)] + Z)[1..] == Z;
    } else {
      FitsRight(D, Z, S, x);
      assert ([Frame(S.id, false, S.l)] + Z)[1..] == Z;
    }
  }

  /** `child(t, sign) = new node(x, t)` at the empty hole `Z` whose parent
   *  is `t`: the links with the new last node `n` spell the tree with the
   *  leaf `n` in the hole. */
  lemma AttachLeafLinks(L: seq<int>, R: seq<int>, P: seq<int>, Z: seq<Frame>, root: int, sign: int)
    requires |L| == |R| == |P|
    requires Rep(L, R, P, Plug(Z, Nil), root, NIL) && Distinct(Plug(Z, Nil)) && Z != []
    requires sign == (if Z[0].isLeft then -1 else 1)
    ensures 0 <= Z[0].pid < |L|
    ensures var n, t, T := |L|, Z[0].pid, Plug(Z, Br(Nil, |L|, Nil));
            var L2 := if sign < 0 then (L + [NIL])[t := n] else L + [NIL];
            var R2 := if sign < 0 then R + [NIL] else (R + [NIL])[t := n];
            Rep(L2, R2, P + [t], T, root, NIL) && Distinct(T)
  {
    var n, t := |L|, Z[0].pid;
    Hole(L, R, P, Z, Nil, root);
    var L2 := if sign < 0 then (L + [NIL])[t := n] else L + [NIL];
    var R2 := if sign < 0 then R + [NIL] else (R + [NIL])[t := n];
    var P2 := P + [t];
    assert Unchanged(L, R, P, L2, R2, P2, {t});
    assert Redirected(L, R, P, L2, R2, P2, Z, n);
    AttachRep(L, R, P, L2, R2, P2, Z, root, n);
  }

  /** The same leaf seen through the keys and the tags: the tree is
   *  ordered, holds the old keys plus `x` (which was absent), counts one
   *  more node, and the tags are those of the old tree plus EH for the
   *  leaf. */
  lemma AttachLeafKeys(B: seq<int>, D: seq<int>, Z: seq<Frame>, x: int)
    requires |B| == |D| && Ordered(D, Plug(Z, Nil)) && Fits(D, Z, x) && AVL(B, Plug(Z, Nil))
    ensures var T := Plug(Z, Br(Nil, |D|, Nil));
            Ordered(D + [x], T) && Keys(D + [x], T) == Keys(D, Plug(Z, Nil)) + {x} &&
            x !in Keys(D, Plug(Z, Nil)) && Count(T) == Count(Plug(Z, Nil)) + 1 &&
            CtxAVL(B + [EH], Z, -1)
  {
    OrderedAttach(D, Z, x);
    FitsKeys(D, Z, Nil, x);
    CountPlug(Z, Nil, Br(Nil, |D|, Nil));
    AVLPlug(B, Z, Nil);
    CtxAVLExtend(B, Z, -1, EH);
  }

  /** The first node of an empty tree: a single linked, ordered, balanced
   *  leaf holding `x`. */
  lemma FirstLeaf(L: seq<int>, R: seq<int>, P: seq<int>, B: seq<int>, D: seq<int>, x: int)
    requires |L| == |R| == |P| == |B| == |D|
    ensures var n, T := |L|, Br(Nil, |L|, Nil);
            Rep(L + [NIL], R + [NIL], P + [NIL], T, n, NIL) && Distinct(T) &&
            Ordered(D + [x], T) && Keys(D + [x], T) == {x} && AVL(B + [EH], T) && Count(T) == 1
  {
    var n := |L|;
    KeysOfSingle(D + [x], n);
    assert InOrder(Br(Nil, n, Nil)) == [n];
  }

  // ---------------------------------------------------------------------
  // handle_subtree_shrink: the branches that rotate

  /** The node handle_subtree_shrink inspects when `p` already leaned away
   *  from the side that shrank: t = child(p, sign), the root of the taller
   *  sibling subtree, whose tag is one of the three AVL values. */
  lemma ShrinkChild(L: seq<int>, R: seq<int>, P: seq<int>, B: seq<int>, Z: seq<Frame>, C: Tree, root: int)
    requires Rep(L, R, P, Plug(Z, C), root, NIL) && Distinct(Plug(Z, C))
    requires Z != [] && Shrunk(B, Z, C) && 0 <= Z[0].pid < |B| && B[Z[0].pid] == ShrinkSign(Z[0])
    ensures Z[0].sib.Br? && 0 <= Z[0].pid < |L| && Z[0].pid < |R|
    ensures ChildOf(L, R, Z[0].pid, ShrinkSign(Z[0])) == Z[0].sib.id
    ensures 0 <= Z[0].sib.id < |B| && -1 <= B[Z[0].sib.id] <= 1 && Z[0].pid != Z[0].sib.id
  {
    var A := Attach(Z[0], C);
    ShrinkFrame(B, Z, C);
    assert Z[0].sib.id in Ids(Z[0].sib);
    assert Plug(Z[1..], A) == Plug(Z, C);
    SiteOf(L, R, P, Z[1..], A, root);
    RepKids(L, R, P, A, A.id, Up(Z[1..], NIL));
  }

  /** handle_subtree_shrink(p, sign) when the taller sibling t leans toward
   *  its own side or not at all: after rotate(p, -sign) the links spell the
   *  rotated tree and the node order is kept. When t was EH only t's tag
   *  changes (to -sign) and the whole tree is AVL; otherwise both tags
   *  become EH and the rotated subtree is one level lower. */
  lemma ShrinkRotation(L: seq<int>, R: seq<int>, P: seq<int>, B: seq<int>, Z: seq<Frame>, C: Tree,
                       root: int, p: int, t: int, sign: int)
    requires |L| == |R| == |P| && Rep(L, R, P, Plug(Z, C), root, NIL) && Distinct(Plug(Z, C))
    requires Z != [] && p == Z[0].pid && sign == ShrinkSign(Z[0]) && Shrunk(B, Z, C)
    requires 0 <= p < |B| && B[p] == sign
    requires Z[0].sib.Br? && t == Z[0].sib.id && 0 <= t < |B| && (B[t] == sign || B[t] == EH)
    ensures RotateReady(L, R, P, p, -sign)
    ensures var k, N := Rotation(L, R, P, root, p, -sign), Rotated(Attach(Z[0], C), -sign);
            N.Br? && N.id == t && Rep(k.0, k.1, k.2, Plug(Z[1..], N), k.3, NIL) && Distinct(Plug(Z[1..], N)) &&
            InOrder(Plug(Z[1..], N)) == InOrder(Plug(Z, C)) &&
            (B[t] == EH ==> AVL(B[t := -sign], Plug(Z[1..], N))) &&
            (B[t] == sign ==> Shrunk(B[p := EH][t := EH], Z[1..], N))
  {
    var A := Attach(Z[0], C);
    var N := Rotated(A, -sign);
    ShrinkFrame(B, Z, C);
    assert Plug(Z[1..], A) == Plug(Z, C);
    RotationShape(L, R, P, Z[1..], A, -sign, root);
    if B[t] == EH {
      ShrinkRotatedStop(B, Z, C);
      SingleTagsStop(B, p, t, sign);
      AVLPlug(B[t := -sign], Z[1..], N);
    } else {
      ShrinkRotated(B, Z, C);
    }
    RotatedKeeps(A, -sign);
    InOrderPlug(Z[1..], A);
    InOrderPlug(Z[1..], N);
  }

  /** handle_subtree_shrink(p, sign) when the taller sibling t leans toward
   *  p's shrunk side: after double_rotate(t, p, -sign) the links spell the
   *  doubly rotated tree, the node order is kept, and with the tags
   *  double_rotate writes the subtree is AVL and one level lower. */
  lemma ShrinkDoubleRotation(L: seq<int>, R: seq<int>, P: seq<int>, B: seq<int>, Z: seq<Frame>, C: Tree,
                             root: int, p: int, t: int, sign: int)
    requires |L| == |R| == |P| == |B| && Rep(L, R, P, Plug(Z, C), root, NIL) && Distinct(Plug(Z, C))
    requires Z != [] && p == Z[0].pid && sign == ShrinkSign(Z[0]) && Shrunk(B, Z, C)
    requires 0 <= p < |B| && B[p] == sign
    requires Z[0].sib.Br? && t == Z[0].sib.id && 0 <= t < |B| && B[t] == -sign
    ensures DoubleRotateReady(L, R, P, t, p, -sign)
    ensures var e, N := ChildOf(L, R, t, -sign), DoubleRotated(Attach(Z[0], C), -sign);
            var k := DoubleRotation(L, R, P, root, t, p, -sign);
            N.Br? && N.id == e && Rep(k.0, k.1, k.2, Plug(Z[1..], N), k.3, NIL) && Distinct(Plug(Z[1..], N)) &&
            InOrder(Plug(Z[1..], N)) == InOrder(Plug(Z, C)) &&
            Shrunk(DoubleTags(B, p, t, e, -sign), Z[1..], N)
  {
    var A := Attach(Z[0], C);
    var N := DoubleRotated(A, -sign);
    ShrinkFrame(B, Z, C);
    ShrinkDoubleRotated(B, Z, C);
    assert Plug(Z[1..], A) == Plug(Z, C);
    DoubleRotationShape(L, R, P, Z[1..], A, -sign, root);
    DoubleRotatedKeeps(A, -sign);
    InOrderPlug(Z[1..], A);
    InOrderPlug(Z[1..], N);
  }
}
