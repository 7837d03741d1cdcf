/** Balance tags and the AVL invariant: every node's tag is the height of its
 *  right subtree minus that of its left, and lies in {-1, 0, +1}. */
module AvlBalance {
  import opened AvlShape

  /** The balance tags of the source (left-high, equal-high, right-high);
   *  -2 and +2 never reach the arena, as the rebalancing code only computes
   *  them in locals. */
  const LH: int := -1
  const EH: int := 0
  const RH: int := 1

  /** adjust_balance: moves a tag one step toward `sign`. */
  function AdjustBalance(b: int, sign: int): int { b + sign }

  /** negate_balance. */
  function NegateBalance(b: int): int { -b }

  /** The tags the rebalancing code leaves after rotating node `a` away
   *  from its `s`-side child `t`: both EH, unless `t` was EH (possible only
   *  after a removal), when `a` keeps leaning toward `s` and `t` leans back. */
  function SingleTags(B: seq<int>, a: int, t: int, s: int): seq<int>
    requires 0 <= a < |B| && 0 <= t < |B|
  {
    if B[t] == EH then B[a := s][t := -s] else B[a := EH][t := EH]
  }

  /** The tags double_rotate(b, a, sign) writes, from the inner node e's
   *  old tag: a gets EH unless e leaned toward `-sign`, b gets EH unless e
   *  leaned toward `sign`, and e gets EH. */
  function DoubleTags(B: seq<int>, a: int, b: int, e: int, sign: int): seq<int>
    requires 0 <= a < |B| && 0 <= b < |B| && 0 <= e < |B|
  {
    var x := B[e];
    B[a := if sign * x >= 0 then EH else NegateBalance(x)]
     [b := if sign * x <= 0 then EH else NegateBalance(x)]
     [e := EH]
  }

  /** When the tall child was EH the rotated node keeps its tag, so only
   *  the child's tag changes. */
  lemma SingleTagsStop(B: seq<int>, a: int, t: int, s: int)
    requires 0 <= a < |B| && 0 <= t < |B| && B[a] == s && B[t] == EH
    ensures SingleTags(B, a, t, s) == B[t := -s]
  {
  }

  ghost predicate AVL(B: seq<int>, T: Tree)
  {
    match T
    case Nil => true
    case Br(l, id, r) =>
      0 <= id < |B| && B[id] == Height(r) - Height(l) && -1 <= B[id] <= 1 &&
      AVL(B, l) && AVL(B, r)
  }

  /** The tag the node of frame `f` must carry when the hole has height `h`. */
  ghost function Tag(f: Frame, h: int): int
  {
    if f.isLeft then Height(f.sib) - h else h - Height(f.sib)
  }

  /** Every node of the context carries the right tag, given that the hole
   *  holds a subtree of height `h`. */
  ghost predicate CtxAVL(B: seq<int>, Z: seq<Frame>, h: int)
    decreases |Z|
  {
    Z == [] ||
    (0 <= Z[0].pid < |B| && AVL(B, Z[0].sib) &&
     B[Z[0].pid] == Tag(Z[0], h) && -1 <= B[Z[0].pid] <= 1 &&
     CtxAVL(B, Z[1..], 1 + Max(h, Height(Z[0].sib))))
  }

  lemma HeightAttach(f: Frame, S: Tree)
    ensures Height(Attach(f, S)) == 1 + Max(Height(S), Height(f.sib))
  {
  }

  lemma {:induction false} AVLPlug(B: seq<int>, Z: seq<Frame>, S: Tree)
    ensures AVL(B, Plug(Z, S)) <==> AVL(B, S) && CtxAVL(B, Z, Height(S))
    decreases |Z|
  {
    if Z != [] {
      AVLPlug(B, Z[1..], Attach(Z[0], S));
      HeightAttach(Z[0], S);
    }
  }

  /** The tags of a composed context: the inner part for the hole's
   *  height, then the outer part for the height of the inner part plugged
   *  with a subtree of that height. */
  lemma {:induction false} CtxAVLConcat(B: seq<int>, Z1: seq<Frame>, Z2: seq<Frame>, S: Tree)
    ensures CtxAVL(B, Z1 + Z2, Height(S)) <==> CtxAVL(B, Z1, Height(S)) && CtxAVL(B, Z2, Height(Plug(Z1, S)))
    decreases |Z1|
  {
    if Z1 == [] {
      assert Z1 + Z2 == Z2;
    } else {
      assert (Z1 + Z2)[0] == Z1[0];
      assert (Z1 + Z2)[1..] == Z1[1..] + Z2;
      HeightAttach(Z1[0], S);
      CtxAVLConcat(B, Z1[1..], Z2, Attach(Z1[0], S));
    }
  }

  /** Tags that did not change keep a subtree AVL. */
  lemma {:induction false} AVLFrame(B: seq<int>, B2: seq<int>, T: Tree)
    requires AVL(B, T)
    requires forall i :: i in Ids(T) && 0 <= i < |B| ==> 0 <= i < |B2| && B2[i] == B[i]
    ensures AVL(B2, T)
    decreases T
  {
    if T.Br? {
      assert T.id in Ids(T);
      AVLFrame(B, B2, T.l);
      AVLFrame(B, B2, T.r);
    }
  }

  lemma {:induction false} CtxAVLFrame(B: seq<int>, B2: seq<int>, Z: seq<Frame>, h: int)
    requires CtxAVL(B, Z, h)
    requires forall i :: i in CtxIds(Z) && 0 <= i < |B| ==> 0 <= i < |B2| && B2[i] == B[i]
    ensures CtxAVL(B2, Z, h)
    decreases |Z|
  {
    if Z != [] {
      assert Z[0].pid in CtxIds(Z);
      AVLFrame(B, B2, Z[0].sib);
      CtxAVLFrame(B, B2, Z[1..], 1 + Max(h, Height(Z[0].sib)));
    }
  }

  /** Retagging two nodes outside T leaves T's tags intact. */
  lemma AVLRetag2(B: seq<int>, T: Tree, a: int, va: int, b: int, vb: int)
    requires AVL(B, T) && 0 <= a < |B| && 0 <= b < |B|
    requires a !in Ids(T) && b !in Ids(T)
    ensures AVL(B[a := va][b := vb], T)
  {
    AVLFrame(B, B[a := va][b := vb], T);
  }

  /** A node over two AVL subtrees, tagged with their height difference,
   *  heads an AVL subtree one level taller than its taller child. */
  lemma JoinAVL(B: seq<int>, l: Tree, id: int, r: Tree)
    requires AVL(B, l) && AVL(B, r) && 0 <= id < |B|
    requires B[id] == Height(r) - Height(l) && -1 <= B[id] <= 1
    ensures AVL(B, Br(l, id, r)) && Height(Br(l, id, r)) == 1 + Max(Height(l), Height(r))
  {
  }

  /** Clockwise rotation of A = Br(Br(D, b, E), a, C) whose left child is two
   *  levels taller than C and not right-heavy. */
  lemma ClockwiseAVL(B: seq<int>, D: Tree, b: int, E: Tree, a: int, C: Tree)
    requires Distinct(Br(Br(D, b, E), a, C))
    requires AVL(B, Br(D, b, E)) && AVL(B, C) && 0 <= a < |B|
    requires Height(Br(D, b, E)) == Height(C) + 2
    requires B[b] == LH || B[b] == EH
    ensures AVL(SingleTags(B, a, b, -1), Br(D, b, Br(E, a, C))) &&
            Height(Br(D, b, Br(E, a, C))) == Height(C) + 2 + (if B[b] == EH then 1 else 0)
  {
    var va, vb := if B[b] == EH then LH else EH, if B[b] == EH then RH else EH;
    var B2 := SingleTags(B, a, b, -1);
    assert B2 == B[a := va][b := vb];
    assert Ids(Br(D, b, E)) == Ids(D) + {b} + Ids(E);
    assert Distinct(Br(D, b, E));
    AVLRetag2(B, D, a, va, b, vb);
    AVLRetag2(B, E, a, va, b, vb);
    AVLRetag2(B, C, a, va, b, vb);
    var h := Height(C);
    assert Height(D) == h + 1 && Height(E) == (if B[b] == EH then h + 1 else h);
    JoinAVL(B2, E, a, C);
    JoinAVL(B2, D, b, Br(E, a, C));
  }

  /** Mirror image: counterclockwise rotation of A = Br(C, a, Br(E, b, D)). */
  lemma CounterclockwiseAVL(B: seq<int>, C: Tree, a: int, E: Tree, b: int, D: Tree)
    requires Distinct(Br(C, a, Br(E, b, D)))
    requires AVL(B, Br(E, b, D)) && AVL(B, C) && 0 <= a < |B|
    requires Height(Br(E, b, D)) == Height(C) + 2
    requires B[b] == RH || B[b] == EH
    ensures AVL(SingleTags(B, a, b, 1), Br(Br(C, a, E), b, D)) &&
            Height(Br(Br(C, a, E), b, D)) == Height(C) + 2 + (if B[b] == EH then 1 else 0)
  {
    var va, vb := if B[b] == EH then RH else EH, if B[b] == EH then LH else EH;
    var B2 := SingleTags(B, a, b, 1);
    assert B2 == B[a := va][b := vb];
    assert Ids(Br(E, b, D)) == Ids(E) + {b} + Ids(D);
    assert Distinct(Br(E, b, D));
    AVLRetag2(B, D, a, va, b, vb);
    AVLRetag2(B, E, a, va, b, vb);
    AVLRetag2(B, C, a, va, b, vb);
    var h := Height(C);
    assert Height(D) == h + 1 && Height(E) == (if B[b] == EH then h + 1 else h);
    JoinAVL(B2, C, a, E);
    JoinAVL(B2, Br(C, a, E), b, D);
  }

  /** Single rotation toward the light side of a node whose `s`-side subtree
   *  is two levels taller and not inner-heavy: with the tags the rebalancing
   *  code assigns, the rotated subtree is AVL again; it keeps the height of
   *  the tall child, or gains one level when that child was equal-high. */
  lemma SingleRotationAVL(B: seq<int>, A: Tree, s: int)
    requires s == 1 || s == -1
    requires A.Br? && Sub(A, s).Br? && Distinct(A)
    requires AVL(B, A.l) && AVL(B, A.r) && 0 <= A.id < |B|
    requires Height(Sub(A, s)) == Height(Sub(A, -s)) + 2
    requires B[Sub(A, s).id] == s || B[Sub(A, s).id] == EH
    ensures var t := Sub(A, s);
            AVL(SingleTags(B, A.id, t.id, s), Rotated(A, -s)) &&
            Height(Rotated(A, -s)) == if B[t.id] == EH then Height(t) + 1 else Height(t)
  {
    if s < 0 {
      var t := A.l;
      assert Sub(A, s) == t && Sub(A, -s) == A.r;
      assert Rotated(A, -s) == Br(t.l, t.id, Br(t.r, A.id, A.r));
      ClockwiseAVL(B, t.l, t.id, t.r, A.id, A.r);
    } else {
      var t := A.r;
      assert Sub(A, s) == t && Sub(A, -s) == A.l;
      assert Rotated(A, -s) == Br(Br(A.l, A.id, t.l), t.id, t.r);
      CounterclockwiseAVL(B, A.l, A.id, t.l, t.id, t.r);
    }
  }

  /** Heights inside a subtree of height h + 2 whose inner child E = Br(F, e, G)
   *  is the taller one (tag `side` at b): E has height h + 1 and each of F, G
   *  is one lower than that exactly when E leans the other way. */
  lemma InnerHeights(B: seq<int>, X: Tree, b: int, F: Tree, e: int, G: Tree, h: int, side: int)
    requires side == RH || side == LH
    requires 0 <= b < |B| && 0 <= e < |B| && B[b] == side && AVL(B, Br(F, e, G)) && AVL(B, X)
    requires B[b] == (if side == RH then Height(Br(F, e, G)) - Height(X) else Height(X) - Height(Br(F, e, G)))
    requires 1 + Max(Height(X), Height(Br(F, e, G))) == h + 2
    ensures Height(X) == h
    ensures Height(F) == h - (if B[e] == RH then 1 else 0)
    ensures Height(G) == h - (if B[e] == LH then 1 else 0)
  {
  }

  /** Retagging three nodes outside T leaves T's tags intact. */
  lemma AVLRetag3(B: seq<int>, T: Tree, a: int, va: int, b: int, vb: int, e: int, ve: int)
    requires AVL(B, T) && 0 <= a < |B| && 0 <= b < |B| && 0 <= e < |B|
    requires a !in Ids(T) && b !in Ids(T) && e !in Ids(T)
    ensures AVL(B[a := va][b := vb][e := ve], T)
  {
    AVLFrame(B, B[a := va][b := vb][e := ve], T);
  }

  /** Double rotation of A = Br(Br(D, b, Br(F, e, G)), a, C) whose left
   *  child is two levels taller than C and right-heavy. */
  lemma LeftRightAVL(B: seq<int>, D: Tree, b: int, F: Tree, e: int, G: Tree, a: int, C: Tree)
    requires Distinct(Br(Br(D, b, Br(F, e, G)), a, C))
    requires AVL(B, Br(D, b, Br(F, e, G))) && AVL(B, C) && 0 <= a < |B|
    requires Height(Br(D, b, Br(F, e, G))) == Height(C) + 2
    requires B[b] == RH && 0 <= e < |B|
    ensures AVL(DoubleTags(B, a, b, e, 1), Br(Br(D, b, F), e, Br(G, a, C))) &&
            Height(Br(Br(D, b, F), e, Br(G, a, C))) == Height(C) + 2
  {
    var t := B[e];
    var na := if t >= 0 then EH else NegateBalance(t);
    var nb := if t <= 0 then EH else NegateBalance(t);
    var B2 := DoubleTags(B, a, b, e, 1);
    assert B2 == B[a := na][b := nb][e := EH];
    var E := Br(F, e, G);
    assert Ids(Br(D, b, E)) == Ids(D) + {b} + Ids(E);
    assert Ids(E) == Ids(F) + {e} + Ids(G);
    assert Distinct(Br(D, b, E)) && Distinct(E);
    InnerHeights(B, D, b, F, e, G, Height(C), RH);
    AVLRetag3(B, D, a, na, b, nb, e, EH);
    AVLRetag3(B, F, a, na, b, nb, e, EH);
    AVLRetag3(B, G, a, na, b, nb, e, EH);
    AVLRetag3(B, C, a, na, b, nb, e, EH);
    assert B2[a] == na && B2[b] == nb && B2[e] == EH;
    JoinAVL(B2, D, b, F);
    JoinAVL(B2, G, a, C);
    JoinAVL(B2, Br(D, b, F), e, Br(G, a, C));
  }

  /** Mirror image: A = Br(C, a, Br(Br(G, e, F), b, D)), right child left-heavy. */
  lemma RightLeftAVL(B: seq<int>, C: Tree, a: int, G: Tree, e: int, F: Tree, b: int, D: Tree)
    requires Distinct(Br(C, a, Br(Br(G, e, F), b, D)))
    requires AVL(B, Br(Br(G, e, F), b, D)) && AVL(B, C) && 0 <= a < |B|
    requires Height(Br(Br(G, e, F), b, D)) == Height(C) + 2
    requires B[b] == LH && 0 <= e < |B|
    ensures AVL(DoubleTags(B, a, b, e, -1), Br(Br(C, a, G), e, Br(F, b, D))) &&
            Height(Br(Br(C, a, G), e, Br(F, b, D))) == Height(C) + 2
  {
    var t := B[e];
    var na := if -t >= 0 then EH else NegateBalance(t);
    var nb := if -t <= 0 then EH else NegateBalance(t);
    var B2 := DoubleTags(B, a, b, e, -1);
    assert B2 == B[a := na][b := nb][e := EH];
    var E := Br(G, e, F);
    assert Ids(Br(E, b, D)) == Ids(E) + {b} + Ids(D);
    assert Ids(E) == Ids(G) + {e} + Ids(F);
    assert Distinct(Br(E, b, D)) && Distinct(E);
    InnerHeights(B, D, b, G, e, F, Height(C), LH);
    AVLRetag3(B, D, a, na, b, nb, e, EH);
    AVLRetag3(B, F, a, na, b, nb, e, EH);
    AVLRetag3(B, G, a, na, b, nb, e, EH);
    AVLRetag3(B, C, a, na, b, nb, e, EH);
    assert B2[a] == na && B2[b] == nb && B2[e] == EH;
    JoinAVL(B2, C, a, G);
    JoinAVL(B2, F, b, D);
    JoinAVL(B2, Br(C, a, G), e, Br(F, b, D));
  }

  /** Double rotation of a node whose `s`-side subtree is two levels taller
   *  and inner-heavy: with the tags double_rotate assigns (from the inner
   *  node's old tag e), the result is AVL and as tall as the tall child. */
  lemma DoubleRotationAVL(B: seq<int>, A: Tree, s: int)
    requires s == 1 || s == -1
    requires A.Br? && Sub(A, s).Br? && Sub(Sub(A, s), -s).Br? && Distinct(A)
    requires AVL(B, A.l) && AVL(B, A.r) && 0 <= A.id < |B|
    requires Height(Sub(A, s)) == Height(Sub(A, -s)) + 2
    requires 0 <= Sub(Sub(A, s), -s).id < |B| && B[Sub(A, s).id] == -s
    ensures var t := Sub(A, s); var E := Sub(t, -s);
            AVL(DoubleTags(B, A.id, t.id, E.id, -s), DoubleRotated(A, -s)) &&
            Height(DoubleRotated(A, -s)) == Height(t)
  {
    if s < 0 {
      var t := A.l;
      var E := t.r;
      assert Sub(A, s) == t && Sub(A, -s) == A.r && Sub(t, -s) == E;
      assert DoubleRotated(A, -s) == Br(Br(t.l, t.id, E.l), E.id, Br(E.r, A.id, A.r));
      LeftRightAVL(B, t.l, t.id, E.l, E.id, E.r, A.id, A.r);
    } else {
      var t := A.r;
      var E := t.l;
      assert Sub(A, s) == t && Sub(A, -s) == A.l && Sub(t, -s) == E;
      assert DoubleRotated(A, -s) == Br(Br(A.l, A.id, E.l), E.id, Br(E.r, t.id, t.r));
      RightLeftAVL(B, A.l, A.id, E.l, E.id, E.r, t.id, t.r);
    }
  }

  /** Appending a node to the arena keeps the tags of a tree valid. */
  lemma {:induction false} AVLExtend(B: seq<int>, T: Tree, v: int)
    requires AVL(B, T)
    ensures AVL(B + [v], T)
    decreases T
  {
    if T.Br? {
      AVLExtend(B, T.l, v);
      AVLExtend(B, T.r, v);
    }
  }

  /** ... and the tags of a context. */
  lemma {:induction false} CtxAVLExtend(B: seq<int>, Z: seq<Frame>, h: int, v: int)
    requires CtxAVL(B, Z, h)
    ensures CtxAVL(B + [v], Z, h)
    decreases |Z|
  {
    if Z != [] {
      AVLExtend(B, Z[0].sib, v);
      CtxAVLExtend(B, Z[1..], 1 + Max(h, Height(Z[0].sib)), v);
    }
  }
}
