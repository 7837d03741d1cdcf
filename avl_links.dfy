/** Pointer surgery on the arena: which link updates turn a linked tree into
 *  the linked tree of the new shape. Each lemma takes the arena before
 *  (`L`, `R`, `P`) and after (`L2`, `R2`, `P2`) one of the tree's
 *  restructuring steps, the nodes that step may touch, and the new values
 *  of their links, and concludes that the new links spell the new shape. */
module AvlLinks {
  import opened AvlShape

  /** child(n, sign): the left child for a negative sign, otherwise the right. */
  function ChildOf(L: seq<int>, R: seq<int>, n: int, sign: int): int
    requires 0 <= n < |L| && n < |R|
  {
    if sign < 0 then L[n] else R[n]
  }

  /** Nodes outside `X` kept all three links. */
  ghost predicate Unchanged(L: seq<int>, R: seq<int>, P: seq<int>,
                            L2: seq<int>, R2: seq<int>, P2: seq<int>, X: set<int>)
  {
    forall i :: InArena(L, R, P, i) && i !in X ==> SameLinks(L, R, P, L2, R2, P2, i)
  }

  /** replace_child was done on the hole's parent: its pointer to the hole
   *  now holds `c`, and its other links are as before. */
  ghost predicate Redirected(L: seq<int>, R: seq<int>, P: seq<int>,
                             L2: seq<int>, R2: seq<int>, P2: seq<int>, Z: seq<Frame>, c: int)
  {
    Z != [] ==>
      var u := Z[0].pid;
      InArena(L, R, P, u) && InArena(L2, R2, P2, u) && P2[u] == P[u] &&
      (if Z[0].isLeft then L2[u] == c && R2[u] == R[u] else R2[u] == c && L2[u] == L[u])
  }

  /** Node `i` kept its child links and now has parent link `p2`. */
  ghost predicate Kept(L: seq<int>, R: seq<int>, P: seq<int>,
                       L2: seq<int>, R2: seq<int>, P2: seq<int>, i: int, p2: int)
  {
    InArena(L, R, P, i) && InArena(L2, R2, P2, i) && L2[i] == L[i] && R2[i] == R[i] && P2[i] == p2
  }

  /** Unfolding a linked subtree one level. */
  lemma RepKids(L: seq<int>, R: seq<int>, P: seq<int>, T: Tree, t: int, p: int)
    requires Rep(L, R, P, T, t, p) && T.Br?
    ensures t == T.id && InArena(L, R, P, t) && P[t] == p
    ensures L[t] == Ptr(T.l) && R[t] == Ptr(T.r)
    ensures Rep(L, R, P, T.l, Ptr(T.l), t) && Rep(L, R, P, T.r, Ptr(T.r), t)
  {
    RepPtr(L, R, P, T.l, L[t], t);
    RepPtr(L, R, P, T.r, R[t], t);
  }

  lemma RepKeep(L: seq<int>, R: seq<int>, P: seq<int>, L2: seq<int>, R2: seq<int>, P2: seq<int>,
                X: set<int>, T: Tree, t: int, p: int)
    requires Rep(L, R, P, T, t, p) && Unchanged(L, R, P, L2, R2, P2, X) && Ids(T) !! X
    ensures Rep(L2, R2, P2, T, t, p)
  {
    RepInArena(L, R, P, T, t, p);
    RepFrame(L, R, P, L2, R2, P2, T, t, p);
  }

  lemma RepMove(L: seq<int>, R: seq<int>, P: seq<int>, L2: seq<int>, R2: seq<int>, P2: seq<int>,
                X: set<int>, T: Tree, t: int, p: int, p2: int)
    requires Rep(L, R, P, T, t, p) && Distinct(T) && Unchanged(L, R, P, L2, R2, P2, X)
    requires (Ids(T) - {t}) !! X
    requires T.Br? ==> Kept(L, R, P, L2, R2, P2, t, p2)
    ensures Rep(L2, R2, P2, T, t, p2)
  {
    RepInArena(L, R, P, T, t, p);
    RepReparent(L, R, P, L2, R2, P2, T, t, p, p2);
  }

  /** What a linked tree says about the subtree in one of its holes. */
  lemma Hole(L: seq<int>, R: seq<int>, P: seq<int>, Z: seq<Frame>, S: Tree, root: int)
    requires Rep(L, R, P, Plug(Z, S), root, NIL) && Distinct(Plug(Z, S))
    ensures Rep(L, R, P, S, Ptr(S), Up(Z, NIL)) && RepCtx(L, R, P, Z, Ptr(S), NIL)
    ensures Distinct(S) && DistinctCtx(Z) && Ids(S) !! CtxIds(Z)
    ensures forall i :: i in Ids(S) ==> InArena(L, R, P, i)
    ensures forall i :: i in CtxIds(Z) ==> InArena(L, R, P, i)
    ensures NIL !in Ids(S) && NIL !in CtxIds(Z) && Up(Z, NIL) !in Ids(S)
    ensures Z == [] ==> root == Ptr(S)
    ensures Z != [] ==> Z[0].pid in CtxIds(Z) && InArena(L, R, P, Z[0].pid) && root == Z[|Z| - 1].pid
    ensures Z != [] && S.Br? ==> (Z[0].isLeft <==> L[Z[0].pid] == S.id)
  {
    RepPlug(L, R, P, Z, S, root, NIL);
    DistinctPlug(Z, S);
    IdsPlug(Z, S);
    RepInArena(L, R, P, Plug(Z, S), root, NIL);
    if Z != [] {
      assert Z[0].pid in CtxIds(Z);
      PtrPlug(Z, S, S);
      if S.Br? && !Z[0].isLeft {
        var sib := Z[0].sib;
        assert S.id in Ids(S);
        assert Ids(sib) <= CtxIds(Z);
        RepPtr(L, R, P, sib, L[Z[0].pid], Z[0].pid);
        if sib.Br? {
          assert sib.id in Ids(sib);
        }
      }
    }
  }

  /** Replacing the subtree in a hole, with the nodes in `X` touched: only
   *  the hole's parent may be among them in the context. */
  lemma ReplaceIn(L: seq<int>, R: seq<int>, P: seq<int>, L2: seq<int>, R2: seq<int>, P2: seq<int>,
                  X: set<int>, Z: seq<Frame>, S: Tree, S2: Tree, root: int)
    requires Rep(L, R, P, Plug(Z, S), root, NIL) && Distinct(Plug(Z, S))
    requires Unchanged(L, R, P, L2, R2, P2, X)
    requires forall i :: i in X && i != Up(Z, NIL) ==> i !in CtxIds(Z)
    requires Rep(L2, R2, P2, S2, Ptr(S2), Up(Z, NIL)) && Distinct(S2) && Ids(S2) !! CtxIds(Z)
    requires Redirected(L, R, P, L2, R2, P2, Z, Ptr(S2))
    ensures Rep(L2, R2, P2, Plug(Z, S2), Ptr(Plug(Z, S2)), NIL) && Distinct(Plug(Z, S2))
  {
    Hole(L, R, P, Z, S, root);
    forall i | i in CtxIds(Z) && i != Up(Z, NIL)
      ensures SameLinks(L, R, P, L2, R2, P2, i)
    {
      assert InArena(L, R, P, i) && i !in X;
    }
    Replace(L, R, P, L2, R2, P2, Z, S, S2, root);
  }

  /** The facts about the subtree in a hole that local surgery needs. */
  lemma HoleLocal(L: seq<int>, R: seq<int>, P: seq<int>, Z: seq<Frame>, S: Tree, root: int)
    requires Rep(L, R, P, Plug(Z, S), root, NIL) && Distinct(Plug(Z, S))
    ensures Rep(L, R, P, S, Ptr(S), Up(Z, NIL)) && Distinct(S)
    ensures NIL !in Ids(S) && Up(Z, NIL) !in Ids(S)
    ensures forall i :: i in Ids(S) ==> i in Ids(Plug(Z, S))
  {
    Hole(L, R, P, Z, S, root);
    IdsPlug(Z, S);
  }

  /** `ReplaceIn` with the side conditions stated on the subtrees alone:
   *  every touched node is the hole's parent, NIL, inside the old subtree
   *  or not in the tree at all, and so is every node of the new subtree. */
  lemma ReplaceSub(L: seq<int>, R: seq<int>, P: seq<int>, L2: seq<int>, R2: seq<int>, P2: seq<int>,
                   X: set<int>, Z: seq<Frame>, S: Tree, S2: Tree, root: int)
    requires Rep(L, R, P, Plug(Z, S), root, NIL) && Distinct(Plug(Z, S))
    requires Unchanged(L, R, P, L2, R2, P2, X)
    requires forall i :: i in X ==> i == Up(Z, NIL) || i == NIL || i in Ids(S) || i !in Ids(Plug(Z, S))
    requires Rep(L2, R2, P2, S2, Ptr(S2), Up(Z, NIL)) && Distinct(S2)
    requires forall i :: i in Ids(S2) ==> i in Ids(S) || i !in Ids(Plug(Z, S))
    requires Redirected(L, R, P, L2, R2, P2, Z, Ptr(S2))
    ensures Rep(L2, R2, P2, Plug(Z, S2), Ptr(Plug(Z, S2)), NIL) && Distinct(Plug(Z, S2))
  {
    Hole(L, R, P, Z, S, root);
    IdsPlug(Z, S);
    forall i | i in X && i != Up(Z, NIL)
      ensures i !in CtxIds(Z)
    {
    }
    forall i | i in Ids(S2)
      ensures i !in CtxIds(Z)
    {
    }
    ReplaceIn(L, R, P, L2, R2, P2, X, Z, S, S2, root);
  }

  /** Where a subtree whose top is `x` hangs: from the tree's root pointer
   *  (no frames) or from the innermost frame's node, through the child link
   *  on the frame's side. */
  ghost predicate Site(L: seq<int>, R: seq<int>, P: seq<int>, Z: seq<Frame>, x: int, root: int)
  {
    (Z == [] <==> Up(Z, NIL) == NIL) &&
    (Z == [] ==> root == x) &&
    (Z != [] ==> InArena(L, R, P, Z[0].pid) && root == Z[|Z| - 1].pid &&
                 (Z[0].isLeft <==> L[Z[0].pid] == x))
  }

  lemma SiteOf(L: seq<int>, R: seq<int>, P: seq<int>, Z: seq<Frame>, S: Tree, root: int)
    requires Rep(L, R, P, Plug(Z, S), root, NIL) && Distinct(Plug(Z, S)) && S.Br?
    ensures Site(L, R, P, Z, S.id, root) && InArena(L, R, P, S.id) && P[S.id] == Up(Z, NIL)
    ensures Up(Z, NIL) !in Ids(S) && NIL !in Ids(S) && Distinct(S)
    ensures Rep(L, R, P, S, S.id, Up(Z, NIL))
  {
    Hole(L, R, P, Z, S, root);
  }

  /** The nodes rotate(A, sign) touches, read off the links. */
  lemma RotateSite(L: seq<int>, R: seq<int>, P: seq<int>, Z: seq<Frame>, S: Tree, sign: int, root: int)
    requires sign == 1 || sign == -1
    requires Rep(L, R, P, Plug(Z, S), root, NIL) && Distinct(Plug(Z, S))
    requires S.Br? && Sub(S, -sign).Br?
    ensures var a, b, e, up := S.id, Sub(S, -sign).id, Ptr(Sub(Sub(S, -sign), sign)), Up(Z, NIL);
            InArena(L, R, P, a) && InArena(L, R, P, b) && P[a] == up &&
            ChildOf(L, R, a, -sign) == b && ChildOf(L, R, b, sign) == e &&
            ChildOf(L, R, a, sign) == Ptr(Sub(S, sign)) &&
            ChildOf(L, R, b, -sign) == Ptr(Sub(Sub(S, -sign), -sign)) &&
            a != b && a != e && b != e && up != a && up != b &&
            (e != NIL ==> InArena(L, R, P, e) && e != up) &&
            Site(L, R, P, Z, a, root)
  {
    SiteOf(L, R, P, Z, S, root);
    var t := Sub(S, -sign);
    RepKids(L, R, P, S, S.id, Up(Z, NIL));
    RepKids(L, R, P, t, t.id, S.id);
    assert t.id in Ids(S) && Ids(t) <= Ids(S);
    var E := Sub(t, sign);
    assert Ids(E) <= Ids(t) && t.id !in Ids(E) && S.id !in Ids(t);
    if E.Br? {
      assert E.id in Ids(E);
      RepKids(L, R, P, E, E.id, t.id);
    }
  }

  /** The nodes double_rotate(B, A, sign) touches, read off the links. */
  lemma DoubleRotateSite(L: seq<int>, R: seq<int>, P: seq<int>, Z: seq<Frame>, S: Tree, sign: int, root: int)
    requires sign == 1 || sign == -1
    requires Rep(L, R, P, Plug(Z, S), root, NIL) && Distinct(Plug(Z, S))
    requires S.Br? && Sub(S, -sign).Br? && Sub(Sub(S, -sign), sign).Br?
    ensures var a, t := S.id, Sub(S, -sign); var b, E := t.id, Sub(t, sign);
            var e, f, g, up := E.id, Ptr(Sub(E, -sign)), Ptr(Sub(E, sign)), Up(Z, NIL);
            InArena(L, R, P, a) && InArena(L, R, P, b) && InArena(L, R, P, e) && P[a] == up &&
            ChildOf(L, R, a, -sign) == b && ChildOf(L, R, b, sign) == e &&
            ChildOf(L, R, e, -sign) == f && ChildOf(L, R, e, sign) == g &&
            ChildOf(L, R, a, sign) == Ptr(Sub(S, sign)) && ChildOf(L, R, b, -sign) == Ptr(Sub(t, -sign)) &&
            a != b && a != e && b != e && up != a && up != b && up != e &&
            (f != NIL ==> InArena(L, R, P, f) && f != up && f != a && f != b && f != e) &&
            (g != NIL ==> InArena(L, R, P, g) && g != up && g != a && g != b && g != e && g != f) &&
            Site(L, R, P, Z, a, root)
  {
    SiteOf(L, R, P, Z, S, root);
    var t := Sub(S, -sign);
    var E := Sub(t, sign);
    RepKids(L, R, P, S, S.id, Up(Z, NIL));
    RepKids(L, R, P, t, t.id, S.id);
    RepKids(L, R, P, E, E.id, t.id);
    assert t.id in Ids(S) && Ids(t) <= Ids(S) && S.id !in Ids(t) && Distinct(t);
    assert E.id in Ids(t) && Ids(E) <= Ids(t) && t.id !in Ids(E) && Distinct(E);
    var F, G := Sub(E, -sign), Sub(E, sign);
    assert Ids(F) <= Ids(E) && Ids(G) <= Ids(E) && E.id !in Ids(F) && E.id !in Ids(G) && Ids(F) !! Ids(G);
    if F.Br? {
      assert F.id in Ids(F);
      RepKids(L, R, P, F, F.id, E.id);
    }
    if G.Br? {
      assert G.id in Ids(G);
      RepKids(L, R, P, G, G.id, E.id);
    }
  }

  /** rotate(A, sign): B = child(A, -sign) takes A's place, A becomes B's
   *  `sign` child and takes B's inner subtree E. */
  lemma RotateRep(L: seq<int>, R: seq<int>, P: seq<int>, L2: seq<int>, R2: seq<int>, P2: seq<int>,
                  Z: seq<Frame>, S: Tree, sign: int, root: int)
    requires sign == 1 || sign == -1
    requires Rep(L, R, P, Plug(Z, S), root, NIL) && Distinct(Plug(Z, S))
    requires S.Br? && Sub(S, -sign).Br?
    requires Unchanged(L, R, P, L2, R2, P2,
                       {S.id, Sub(S, -sign).id, Ptr(Sub(Sub(S, -sign), sign)), Up(Z, NIL)})
    requires var a, b, e := S.id, Sub(S, -sign).id, Ptr(Sub(Sub(S, -sign), sign));
             InArena(L2, R2, P2, a) && InArena(L2, R2, P2, b) &&
             ChildOf(L2, R2, a, -sign) == e && ChildOf(L2, R2, a, sign) == Ptr(Sub(S, sign)) &&
             P2[a] == b &&
             ChildOf(L2, R2, b, sign) == a && ChildOf(L2, R2, b, -sign) == Ptr(Sub(Sub(S, -sign), -sign)) &&
             P2[b] == Up(Z, NIL) &&
             (e != NIL ==> Kept(L, R, P, L2, R2, P2, e, a))
    requires Redirected(L, R, P, L2, R2, P2, Z, Sub(S, -sign).id)
    ensures Rep(L2, R2, P2, Plug(Z, Rotated(S, sign)), Ptr(Plug(Z, Rotated(S, sign))), NIL)
    ensures Distinct(Plug(Z, Rotated(S, sign)))
  {
    var up := Up(Z, NIL);
    var X := {S.id, Sub(S, -sign).id, Ptr(Sub(Sub(S, -sign), sign)), up};
    HoleLocal(L, R, P, Z, S, root);
    RotateLocal(L, R, P, L2, R2, P2, X, S, sign, up);
    assert S.id in Ids(S) && Sub(S, -sign).id in Ids(S) && Ids(Sub(Sub(S, -sign), sign)) <= Ids(S);
    assert Ptr(Sub(Sub(S, -sign), sign)) == NIL || Ptr(Sub(Sub(S, -sign), sign)) in Ids(S);
    ReplaceSub(L, R, P, L2, R2, P2, X, Z, S, Rotated(S, sign), root);
  }

  /** The rotated subtree on its own: linked from B, under A's old parent. */
  lemma RotateLocal(L: seq<int>, R: seq<int>, P: seq<int>, L2: seq<int>, R2: seq<int>, P2: seq<int>,
                    X: set<int>, S: Tree, sign: int, up: int)
    requires sign == 1 || sign == -1
    requires S.Br? && Sub(S, -sign).Br? && Rep(L, R, P, S, S.id, up) && Distinct(S)
    requires up !in Ids(S) && NIL !in Ids(S)
    requires Unchanged(L, R, P, L2, R2, P2, X)
    requires X == {S.id, Sub(S, -sign).id, Ptr(Sub(Sub(S, -sign), sign)), up}
    requires var a, b, e := S.id, Sub(S, -sign).id, Ptr(Sub(Sub(S, -sign), sign));
             InArena(L2, R2, P2, a) && InArena(L2, R2, P2, b) &&
             ChildOf(L2, R2, a, -sign) == e && ChildOf(L2, R2, a, sign) == Ptr(Sub(S, sign)) &&
             P2[a] == b &&
             ChildOf(L2, R2, b, sign) == a && ChildOf(L2, R2, b, -sign) == Ptr(Sub(Sub(S, -sign), -sign)) &&
             P2[b] == up &&
             (e != NIL ==> Kept(L, R, P, L2, R2, P2, e, a))
    ensures Rep(L2, R2, P2, Rotated(S, sign), Sub(S, -sign).id, up) && Distinct(Rotated(S, sign))
    ensures forall i :: i in Ids(Rotated(S, sign)) ==> i in Ids(S)
  {
    RotatedKeeps(S, sign);
    var t := Sub(S, -sign);
    if sign > 0 {
      RotateRightLinks(L, R, P, L2, R2, P2, X, t.l, t.id, t.r, S.id, S.r, up);
    } else {
      RotateLeftLinks(L, R, P, L2, R2, P2, X, S.l, S.id, t.l, t.id, t.r, up);
    }
  }

  /** rotate(A, +1): A = Br(Br(D, b, E), a, C) becomes Br(D, b, Br(E, a, C)). */
  lemma RotateRightLinks(L: seq<int>, R: seq<int>, P: seq<int>, L2: seq<int>, R2: seq<int>, P2: seq<int>,
                         X: set<int>, D: Tree, b: int, E: Tree, a: int, C: Tree, up: int)
    requires Rep(L, R, P, Br(Br(D, b, E), a, C), a, up) && Distinct(Br(Br(D, b, E), a, C))
    requires up !in Ids(Br(Br(D, b, E), a, C)) && NIL !in Ids(Br(Br(D, b, E), a, C))
    requires Unchanged(L, R, P, L2, R2, P2, X) && X == {a, b, Ptr(E), up}
    requires InArena(L2, R2, P2, a) && InArena(L2, R2, P2, b)
    requires L2[a] == Ptr(E) && R2[a] == Ptr(C) && P2[a] == b
    requires R2[b] == a && L2[b] == Ptr(D) && P2[b] == up
    requires E.Br? ==> Kept(L, R, P, L2, R2, P2, E.id, a)
    ensures Rep(L2, R2, P2, Br(D, b, Br(E, a, C)), b, up)
  {
    var T := Br(D, b, E);
    RepKids(L, R, P, Br(T, a, C), a, up);
    RepKids(L, R, P, T, b, a);
    assert Ids(Br(T, a, C)) == Ids(D) + {b} + Ids(E) + {a} + Ids(C);
    assert E.Br? ==> E.id in Ids(E);
    RepKeep(L, R, P, L2, R2, P2, X, D, Ptr(D), b);
    RepMove(L, R, P, L2, R2, P2, X, E, Ptr(E), b, a);
    RepKeep(L, R, P, L2, R2, P2, X, C, Ptr(C), a);
  }

  /** rotate(A, -1): A = Br(C, a, Br(E, b, D)) becomes Br(Br(C, a, E), b, D). */
  lemma RotateLeftLinks(L: seq<int>, R: seq<int>, P: seq<int>, L2: seq<int>, R2: seq<int>, P2: seq<int>,
                        X: set<int>, C: Tree, a: int, E: Tree, b: int, D: Tree, up: int)
    requires Rep(L, R, P, Br(C, a, Br(E, b, D)), a, up) && Distinct(Br(C, a, Br(E, b, D)))
    requires up !in Ids(Br(C, a, Br(E, b, D))) && NIL !in Ids(Br(C, a, Br(E, b, D)))
    requires Unchanged(L, R, P, L2, R2, P2, X) && X == {a, b, Ptr(E), up}
    requires InArena(L2, R2, P2, a) && InArena(L2, R2, P2, b)
    requires R2[a] == Ptr(E) && L2[a] == Ptr(C) && P2[a] == b
    requires L2[b] == a && R2[b] == Ptr(D) && P2[b] == up
    requires E.Br? ==> Kept(L, R, P, L2, R2, P2, E.id, a)
    ensures Rep(L2, R2, P2, Br(Br(C, a, E), b, D), b, up)
  {
    var T := Br(E, b, D);
    RepKids(L, R, P, Br(C, a, T), a, up);
    RepKids(L, R, P, T, b, a);
    assert Ids(Br(C, a, T)) == Ids(C) + {a} + Ids(E) + {b} + Ids(D);
    assert E.Br? ==> E.id in Ids(E);
    RepKeep(L, R, P, L2, R2, P2, X, D, Ptr(D), b);
    RepMove(L, R, P, L2, R2, P2, X, E, Ptr(E), b, a);
    RepKeep(L, R, P, L2, R2, P2, X, C, Ptr(C), a);
  }

  /** `if (c) c->parent = v`: the parent link of a possibly null node. */
  function ReParent(P: seq<int>, c: int, v: int): seq<int>
    requires c == NIL || 0 <= c < |P|
  {
    if c == NIL then P else P[c := v]
  }

  /** What replace_child(t, oldChild, newChild) leaves: the root pointer
   *  when `t` is null, otherwise the child link of `t` that held
   *  `oldChild` (the right one when the left one does not). */
  ghost predicate ReplacedChild(L: seq<int>, R: seq<int>, L2: seq<int>, R2: seq<int>,
                                root: int, root2: int, t: int, oldChild: int, newChild: int)
  {
    (t == NIL ==> root2 == newChild && L2 == L && R2 == R) &&
    (t != NIL ==> root2 == root && 0 <= t < |L| && t < |R| &&
                  if oldChild == L[t] then L2 == L[t := newChild] && R2 == R
                  else R2 == R[t := newChild] && L2 == L)
  }

  /** replace_child(t, old, new) on the links: with a null `t` the root
   *  becomes `newChild`; otherwise the left link of `t` when it held
   *  `oldChild`, else the right link, now holds `newChild`. */
  function ReplaceChild(L: seq<int>, R: seq<int>, root: int, t: int, oldChild: int, newChild: int)
    : (k: (seq<int>, seq<int>, int))
    requires t == NIL || (0 <= t < |L| && t < |R|)
    ensures ReplacedChild(L, R, k.0, k.1, root, k.2, t, oldChild, newChild)
    ensures |k.0| == |L| && |k.1| == |R|
  {
    if t == NIL then (L, R, newChild)
    else if oldChild == L[t] then (L[t := newChild], R, root)
    else (L, R[t := newChild], root)
  }

  /** replace_child(t, oldChild, newChild) where `oldChild` is the root of
   *  the subtree in a hole and `t` its parent: the new child lands in the
   *  link of `t` that held the old one (the left link exactly when the hole
   *  is a left hole), the other link stays, and at the top the root
   *  pointer becomes the new child. */
  lemma ReplaceChildSlot(L: seq<int>, R: seq<int>, P: seq<int>, Z: seq<Frame>, S: Tree, root: int, n: int)
    requires Rep(L, R, P, Plug(Z, S), root, NIL) && Distinct(Plug(Z, S)) && S.Br?
    ensures Up(Z, NIL) == NIL || (0 <= Up(Z, NIL) < |L| && Up(Z, NIL) < |R|)
    ensures var k := ReplaceChild(L, R, root, Up(Z, NIL), S.id, n);
            (Z == [] ==> k == (L, R, n)) &&
            (Z != [] ==> k.2 == root && Redirected(L, R, P, k.0, k.1, P, Z, n) &&
                         (Z[0].isLeft ==> k.1 == R) && (!Z[0].isLeft ==> k.0 == L))
  {
    SiteOf(L, R, P, Z, S, root);
  }

  /** `n` is null or one of the `size` nodes of the arena. */
  predicate Slot(n: int, size: int)
  {
    n == NIL || 0 <= n < size
  }

  /** The nodes rotate(a, sign) reads are there: `a`, its `-sign` child `b`,
   *  then `b`'s `sign` child and `a`'s parent, which may be null. */
  predicate RotateReady(L: seq<int>, R: seq<int>, P: seq<int>, a: int, sign: int)
  {
    |L| == |R| == |P| && 0 <= a < |L| && 0 <= ChildOf(L, R, a, -sign) < |L| &&
    Slot(ChildOf(L, R, ChildOf(L, R, a, -sign), sign), |L|) && Slot(P[a], |L|)
  }

  /** The links (left, right, parent, root) after rotate(a, sign):
   *  b = child(a, -sign) takes the place of `a`, `a` becomes the `sign`
   *  child of `b`, and e, the old `sign` child of `b`, moves under `a`. */
  function Rotation(L: seq<int>, R: seq<int>, P: seq<int>, root: int, a: int, sign: int)
    : (k: (seq<int>, seq<int>, seq<int>, int))
    requires sign == 1 || sign == -1
    requires RotateReady(L, R, P, a, sign)
    ensures |k.0| == |k.1| == |k.2| == |L|
  {
    var b := ChildOf(L, R, a, -sign);
    var e := ChildOf(L, R, b, sign);
    var up := P[a];
    var L1 := if sign > 0 then L[a := e] else L[b := a];
    var R1 := if sign > 0 then R[b := a] else R[a := e];
    var k := ReplaceChild(L1, R1, root, up, a, b);
    (k.0, k.1, ReParent(P[a := b][b := up], e, a), k.2)
  }

  /** The nodes double_rotate(b, a, sign) reads are there: `a`, `b`, the
   *  `sign` child e of `b`, then the two children of e and the parent of
   *  `a`, which may be null. */
  predicate DoubleRotateReady(L: seq<int>, R: seq<int>, P: seq<int>, b: int, a: int, sign: int)
  {
    |L| == |R| == |P| && 0 <= a < |L| && 0 <= b < |L| && 0 <= ChildOf(L, R, b, sign) < |L| &&
    Slot(ChildOf(L, R, ChildOf(L, R, b, sign), -sign), |L|) &&
    Slot(ChildOf(L, R, ChildOf(L, R, b, sign), sign), |L|) && Slot(P[a], |L|)
  }

  /** The links after double_rotate(b, a, sign): e = child(b, sign) takes
   *  the place of `a` with `b` and `a` as its `-sign` and `sign` children;
   *  the old children f and g of e move under `b` and `a`. */
  function DoubleRotation(L: seq<int>, R: seq<int>, P: seq<int>, root: int, b: int, a: int, sign: int)
    : (k: (seq<int>, seq<int>, seq<int>, int))
    requires sign == 1 || sign == -1
    requires DoubleRotateReady(L, R, P, b, a, sign)
    ensures |k.0| == |k.1| == |k.2| == |L|
  {
    var e := ChildOf(L, R, b, sign);
    var f := ChildOf(L, R, e, -sign);
    var g := ChildOf(L, R, e, sign);
    var up := P[a];
    var L1 := if sign > 0 then L[a := g][e := b] else L[b := f][e := a];
    var R1 := if sign > 0 then R[b := f][e := a] else R[a := g][e := b];
    var k := ReplaceChild(L1, R1, root, up, a, e);
    (k.0, k.1, ReParent(ReParent(P[a := e][b := e][e := up], g, a), f, b), k.2)
  }

  /** The six writes of rotate(a, sign), in the source's order, then
   *  replace_child(up, a, b): the links spell the rotated shape. */
  lemma RotateWrites(L: seq<int>, R: seq<int>, P: seq<int>, L1: seq<int>, R1: seq<int>, P1: seq<int>,
                     L2: seq<int>, R2: seq<int>, Z: seq<Frame>, S: Tree, sign: int, root: int, root2: int)
    requires sign == 1 || sign == -1
    requires Rep(L, R, P, Plug(Z, S), root, NIL) && Distinct(Plug(Z, S))
    requires S.Br? && Sub(S, -sign).Br?
    requires var a, b, e, up := S.id, Sub(S, -sign).id, Ptr(Sub(Sub(S, -sign), sign)), Up(Z, NIL);
             0 <= a < |L| == |R| == |P| && 0 <= b < |P| && (e == NIL || 0 <= e < |P|) &&
             L1 == (if sign > 0 then L[a := e] else L[b := a]) &&
             R1 == (if sign > 0 then R[b := a] else R[a := e]) &&
             P1 == ReParent(P[a := b][b := up], e, a) &&
             ReplacedChild(L1, R1, L2, R2, root, root2, up, a, b)
    ensures Rep(L2, R2, P1, Plug(Z, Rotated(S, sign)), root2, NIL)
    ensures Distinct(Plug(Z, Rotated(S, sign)))
  {
    RotateSite(L, R, P, Z, S, sign, root);
    var a, b, e, up := S.id, Sub(S, -sign).id, Ptr(Sub(Sub(S, -sign), sign)), Up(Z, NIL);
    var X := {a, b, e, up};
    assert Unchanged(L, R, P, L2, R2, P1, X);
    assert Redirected(L, R, P, L2, R2, P1, Z, b);
    RotateRep(L, R, P, L2, R2, P1, Z, S, sign, root);
    if Z != [] {
      PtrPlug(Z, S, Rotated(S, sign));
    }
  }

  /** The writes of double_rotate(b, a, sign) to the links, in the
   *  source's order, then replace_child(up, a, e). */
  lemma DoubleRotateWrites(L: seq<int>, R: seq<int>, P: seq<int>, L1: seq<int>, R1: seq<int>, P1: seq<int>,
                           L2: seq<int>, R2: seq<int>, Z: seq<Frame>, S: Tree, sign: int, root: int, root2: int)
    requires sign == 1 || sign == -1
    requires Rep(L, R, P, Plug(Z, S), root, NIL) && Distinct(Plug(Z, S))
    requires S.Br? && Sub(S, -sign).Br? && Sub(Sub(S, -sign), sign).Br?
    requires var a, t := S.id, Sub(S, -sign); var b, E := t.id, Sub(t, sign);
             var e, f, g, up := E.id, Ptr(Sub(E, -sign)), Ptr(Sub(E, sign)), Up(Z, NIL);
             0 <= a < |L| == |R| == |P| && 0 <= b < |P| && 0 <= e < |P| &&
             (f == NIL || 0 <= f < |P|) && (g == NIL || 0 <= g < |P|) &&
             L1 == (if sign > 0 then L[a := g][e := b] else L[b := f][e := a]) &&
             R1 == (if sign > 0 then R[b := f][e := a] else R[a := g][e := b]) &&
             P1 == ReParent(ReParent(P[a := e][b := e][e := up], g, a), f, b) &&
             ReplacedChild(L1, R1, L2, R2, root, root2, up, a, e)
    ensures Rep(L2, R2, P1, Plug(Z, DoubleRotated(S, sign)), root2, NIL)
    ensures Distinct(Plug(Z, DoubleRotated(S, sign)))
  {
    var a, t := S.id, Sub(S, -sign);
    var b, E := t.id, Sub(t, sign);
    var e, f, g, up := E.id, Ptr(Sub(E, -sign)), Ptr(Sub(E, sign)), Up(Z, NIL);
    assert a != b && a != e && b != e && up != a && up != b && up != e &&
           (f != NIL ==> f != up && f != a && f != b && f != e) &&
           (g != NIL ==> g != up && g != a && g != b && g != e && g != f) &&
           Site(L, R, P, Z, a, root) &&
           ChildOf(L, R, a, sign) == Ptr(Sub(S, sign)) && ChildOf(L, R, b, -sign) == Ptr(Sub(t, -sign)) by {
      DoubleRotateSite(L, R, P, Z, S, sign, root);
    }
    DoubleRotateFrame(L, R, P, L1, R1, P1, L2, R2, a, b, e, f, g, up, sign, root, root2);
    assert Redirected(L, R, P, L2, R2, P1, Z, e);
    DoubleRotateRep(L, R, P, L2, R2, P1, Z, S, sign, root);
    if Z != [] {
      PtrPlug(Z, S, DoubleRotated(S, sign));
    }
  }

  /** The same writes, on node ids alone: which links changed and to what. */
  lemma DoubleRotateFrame(L: seq<int>, R: seq<int>, P: seq<int>, L1: seq<int>, R1: seq<int>, P1: seq<int>,
                          L2: seq<int>, R2: seq<int>, a: int, b: int, e: int, f: int, g: int, up: int,
                          sign: int, root: int, root2: int)
    requires sign == 1 || sign == -1
    requires 0 <= a < |L| == |R| == |P| && 0 <= b < |P| && 0 <= e < |P| &&
             (f == NIL || 0 <= f < |P|) && (g == NIL || 0 <= g < |P|)
    requires a != b && a != e && b != e && up != a && up != b && up != e
    requires f != NIL ==> f != up && f != a && f != b && f != e
    requires g != NIL ==> g != up && g != a && g != b && g != e && g != f
    requires L1 == (if sign > 0 then L[a := g][e := b] else L[b := f][e := a])
    requires R1 == (if sign > 0 then R[b := f][e := a] else R[a := g][e := b])
    requires P1 == ReParent(ReParent(P[a := e][b := e][e := up], g, a), f, b)
    requires ReplacedChild(L1, R1, L2, R2, root, root2, up, a, e)
    ensures |L2| == |R2| == |P1| == |P|
    ensures Unchanged(L, R, P, L2, R2, P1, {a, b, e, f, g, up})
    ensures ChildOf(L2, R2, a, -sign) == g && ChildOf(L2, R2, a, sign) == ChildOf(L, R, a, sign) && P1[a] == e
    ensures ChildOf(L2, R2, b, sign) == f && ChildOf(L2, R2, b, -sign) == ChildOf(L, R, b, -sign) && P1[b] == e
    ensures ChildOf(L2, R2, e, sign) == a && ChildOf(L2, R2, e, -sign) == b && P1[e] == up
    ensures f != NIL ==> Kept(L, R, P, L2, R2, P1, f, b)
    ensures g != NIL ==> Kept(L, R, P, L2, R2, P1, g, a)
    ensures up != NIL ==> (P1[up] == P[up] &&
                           (L[up] == a ==> L2[up] == e && R2[up] == R[up]) &&
                           (L[up] != a ==> R2[up] == e && L2[up] == L[up]))
  {
    DoubleRotateParents(P, P1, a, b, e, f, g, up);
    DoubleRotateChildren(L, R, L1, R1, L2, R2, a, b, e, f, g, up, sign, root, root2);
  }

  lemma DoubleRotateParents(P: seq<int>, P1: seq<int>, a: int, b: int, e: int, f: int, g: int, up: int)
    requires 0 <= a < |P| && 0 <= b < |P| && 0 <= e < |P| &&
             (f == NIL || 0 <= f < |P|) && (g == NIL || 0 <= g < |P|)
    requires a != b && a != e && b != e
    requires f != NIL ==> f != a && f != b && f != e
    requires g != NIL ==> g != a && g != b && g != e && g != f
    requires P1 == ReParent(ReParent(P[a := e][b := e][e := up], g, a), f, b)
    ensures |P1| == |P| && P1[a] == e && P1[b] == e && P1[e] == up
    ensures (f != NIL ==> P1[f] == b) && (g != NIL ==> P1[g] == a)
    ensures forall i :: 0 <= i < |P| && i != a && i != b && i != e && i != f && i != g ==> P1[i] == P[i]
  {
  }

  lemma DoubleRotateChildren(L: seq<int>, R: seq<int>, L1: seq<int>, R1: seq<int>, L2: seq<int>, R2: seq<int>,
                             a: int, b: int, e: int, f: int, g: int, up: int, sign: int, root: int, root2: int)
    requires sign == 1 || sign == -1
    requires 0 <= a < |L| == |R| && 0 <= b < |L| && 0 <= e < |L|
    requires a != b && a != e && b != e && up != a && up != b && up != e
    requires L1 == (if sign > 0 then L[a := g][e := b] else L[b := f][e := a])
    requires R1 == (if sign > 0 then R[b := f][e := a] else R[a := g][e := b])
    requires ReplacedChild(L1, R1, L2, R2, root, root2, up, a, e)
    ensures |L2| == |R2| == |L|
    ensures ChildOf(L2, R2, a, -sign) == g && ChildOf(L2, R2, a, sign) == ChildOf(L, R, a, sign)
    ensures ChildOf(L2, R2, b, sign) == f && ChildOf(L2, R2, b, -sign) == ChildOf(L, R, b, -sign)
    ensures ChildOf(L2, R2, e, sign) == a && ChildOf(L2, R2, e, -sign) == b
    ensures forall i :: 0 <= i < |L| && i != a && i != b && i != e && i != up ==> L2[i] == L[i] && R2[i] == R[i]
    ensures up != NIL ==> ((L[up] == a ==> L2[up] == e && R2[up] == R[up]) &&
                           (L[up] != a ==> R2[up] == e && L2[up] == L[up]))
  {
    if up == NIL {
      assert L2 == L1 && R2 == R1;
    } else if L1[up] == a {
      assert L2 == L1[up := e] && R2 == R1;
    } else {
      assert R2 == R1[up := e] && L2 == L1;
    }
  }

  /** double_rotate(B, A, sign): E = child(B, sign) takes A's place with B
   *  and A as its children; B takes E's inner subtree F and A takes G. */
  lemma DoubleRotateRep(L: seq<int>, R: seq<int>, P: seq<int>, L2: seq<int>, R2: seq<int>, P2: seq<int>,
                        Z: seq<Frame>, S: Tree, sign: int, root: int)
    requires sign == 1 || sign == -1
    requires Rep(L, R, P, Plug(Z, S), root, NIL) && Distinct(Plug(Z, S))
    requires S.Br? && Sub(S, -sign).Br? && Sub(Sub(S, -sign), sign).Br?
    requires var t := Sub(S, -sign); var E := Sub(t, sign);
             Unchanged(L, R, P, L2, R2, P2,
                       {S.id, t.id, E.id, Ptr(Sub(E, -sign)), Ptr(Sub(E, sign)), Up(Z, NIL)})
    requires var a, t := S.id, Sub(S, -sign); var b, E := t.id, Sub(t, sign);
             var e, f, g := E.id, Ptr(Sub(E, -sign)), Ptr(Sub(E, sign));
             InArena(L2, R2, P2, a) && InArena(L2, R2, P2, b) && InArena(L2, R2, P2, e) &&
             ChildOf(L2, R2, a, -sign) == g && ChildOf(L2, R2, a, sign) == Ptr(Sub(S, sign)) && P2[a] == e &&
             ChildOf(L2, R2, b, sign) == f && ChildOf(L2, R2, b, -sign) == Ptr(Sub(t, -sign)) && P2[b] == e &&
             ChildOf(L2, R2, e, sign) == a && ChildOf(L2, R2, e, -sign) == b && P2[e] == Up(Z, NIL) &&
             (f != NIL ==> Kept(L, R, P, L2, R2, P2, f, b)) &&
             (g != NIL ==> Kept(L, R, P, L2, R2, P2, g, a))
    requires Redirected(L, R, P, L2, R2, P2, Z, Sub(Sub(S, -sign), sign).id)
    ensures Rep(L2, R2, P2, Plug(Z, DoubleRotated(S, sign)), Ptr(Plug(Z, DoubleRotated(S, sign))), NIL)
    ensures Distinct(Plug(Z, DoubleRotated(S, sign)))
  {
    var t := Sub(S, -sign);
    var E := Sub(t, sign);
    var up := Up(Z, NIL);
    var X := {S.id, t.id, E.id, Ptr(Sub(E, -sign)), Ptr(Sub(E, sign)), up};
    HoleLocal(L, R, P, Z, S, root);
    DoubleRotateLocal(L, R, P, L2, R2, P2, X, S, sign, up);
    assert S.id in Ids(S) && t.id in Ids(S) && E.id in Ids(S);
    assert Ptr(Sub(E, -sign)) == NIL || Ptr(Sub(E, -sign)) in Ids(S);
    assert Ptr(Sub(E, sign)) == NIL || Ptr(Sub(E, sign)) in Ids(S);
    ReplaceSub(L, R, P, L2, R2, P2, X, Z, S, DoubleRotated(S, sign), root);
  }

  lemma DoubleRotateLocal(L: seq<int>, R: seq<int>, P: seq<int>, L2: seq<int>, R2: seq<int>, P2: seq<int>,
                          X: set<int>, S: Tree, sign: int, up: int)
    requires sign == 1 || sign == -1
    requires S.Br? && Sub(S, -sign).Br? && Sub(Sub(S, -sign), sign).Br?
    requires Rep(L, R, P, S, S.id, up) && Distinct(S) && up !in Ids(S) && NIL !in Ids(S)
    requires var t := Sub(S, -sign); var E := Sub(t, sign);
             Unchanged(L, R, P, L2, R2, P2, X) &&
             X == {S.id, t.id, E.id, Ptr(Sub(E, -sign)), Ptr(Sub(E, sign)), up}
    requires var a, t := S.id, Sub(S, -sign); var b, E := t.id, Sub(t, sign);
             var e, f, g := E.id, Ptr(Sub(E, -sign)), Ptr(Sub(E, sign));
             InArena(L2, R2, P2, a) && InArena(L2, R2, P2, b) && InArena(L2, R2, P2, e) &&
             ChildOf(L2, R2, a, -sign) == g && ChildOf(L2, R2, a, sign) == Ptr(Sub(S, sign)) && P2[a] == e &&
             ChildOf(L2, R2, b, sign) == f && ChildOf(L2, R2, b, -sign) == Ptr(Sub(t, -sign)) && P2[b] == e &&
             ChildOf(L2, R2, e, sign) == a && ChildOf(L2, R2, e, -sign) == b && P2[e] == up &&
             (f != NIL ==> Kept(L, R, P, L2, R2, P2, f, b)) &&
             (g != NIL ==> Kept(L, R, P, L2, R2, P2, g, a))
    ensures Rep(L2, R2, P2, DoubleRotated(S, sign), Ptr(DoubleRotated(S, sign)), up)
    ensures Distinct(DoubleRotated(S, sign)) && Ids(DoubleRotated(S, sign)) == Ids(S)
  {
    DoubleRotatedKeeps(S, sign);
    var t := Sub(S, -sign);
    var E := Sub(t, sign);
    if sign > 0 {
      var D, b, F, e, G, a, C := t.l, t.id, E.l, E.id, E.r, S.id, S.r;
      assert S == Br(Br(D, b, Br(F, e, G)), a, C);
      LeftRightLocal(L, R, P, L2, R2, P2, X, D, b, F, e, G, a, C, up);
    } else {
      var C, a, G, e, F, b, D := S.l, S.id, E.l, E.id, E.r, t.id, t.r;
      assert S == Br(C, a, Br(Br(G, e, F), b, D));
      RightLeftLocal(L, R, P, L2, R2, P2, X, C, a, G, e, F, b, D, up);
    }
  }

  /** double_rotate on a left-heavy node whose left child leans right. */
  lemma LeftRightLocal(L: seq<int>, R: seq<int>, P: seq<int>, L2: seq<int>, R2: seq<int>, P2: seq<int>,
                       X: set<int>, D: Tree, b: int, F: Tree, e: int, G: Tree, a: int, C: Tree, up: int)
    requires var S := Br(Br(D, b, Br(F, e, G)), a, C);
             Rep(L, R, P, S, a, up) && Distinct(S) && up !in Ids(S) && NIL !in Ids(S)
    requires Unchanged(L, R, P, L2, R2, P2, X) && X == {a, b, e, Ptr(F), Ptr(G), up}
    requires InArena(L2, R2, P2, a) && InArena(L2, R2, P2, b) && InArena(L2, R2, P2, e)
    requires L2[a] == Ptr(G) && R2[a] == Ptr(C) && P2[a] == e
    requires L2[b] == Ptr(D) && R2[b] == Ptr(F) && P2[b] == e
    requires L2[e] == b && R2[e] == a && P2[e] == up
    requires F.Br? ==> Kept(L, R, P, L2, R2, P2, F.id, b)
    requires G.Br? ==> Kept(L, R, P, L2, R2, P2, G.id, a)
    ensures Rep(L2, R2, P2, Br(Br(D, b, F), e, Br(G, a, C)), e, up)
  {
    var S := Br(Br(D, b, Br(F, e, G)), a, C);
    RepKids(L, R, P, S, a, up);
    RepKids(L, R, P, S.l, b, a);
    RepKids(L, R, P, S.l.r, e, b);
    assert Ids(S) == Ids(D) + {b} + Ids(F) + {e} + Ids(G) + {a} + Ids(C);
    assert Distinct(S.l) && Distinct(S.l.r);
    RepKeep(L, R, P, L2, R2, P2, X, D, Ptr(D), b);
    RepMove(L, R, P, L2, R2, P2, X, F, Ptr(F), e, b);
    RepMove(L, R, P, L2, R2, P2, X, G, Ptr(G), e, a);
    RepKeep(L, R, P, L2, R2, P2, X, C, Ptr(C), a);
  }

  /** Mirror image of `LeftRightLocal`. */
  lemma RightLeftLocal(L: seq<int>, R: seq<int>, P: seq<int>, L2: seq<int>, R2: seq<int>, P2: seq<int>,
                       X: set<int>, C: Tree, a: int, G: Tree, e: int, F: Tree, b: int, D: Tree, up: int)
    requires var S := Br(C, a, Br(Br(G, e, F), b, D));
             Rep(L, R, P, S, a, up) && Distinct(S) && up !in Ids(S) && NIL !in Ids(S)
    requires Unchanged(L, R, P, L2, R2, P2, X) && X == {a, b, e, Ptr(F), Ptr(G), up}
    requires InArena(L2, R2, P2, a) && InArena(L2, R2, P2, b) && InArena(L2, R2, P2, e)
    requires L2[a] == Ptr(C) && R2[a] == Ptr(G) && P2[a] == e
    requires L2[b] == Ptr(F) && R2[b] == Ptr(D) && P2[b] == e
    requires L2[e] == a && R2[e] == b && P2[e] == up
    requires F.Br? ==> Kept(L, R, P, L2, R2, P2, F.id, b)
    requires G.Br? ==> Kept(L, R, P, L2, R2, P2, G.id, a)
    ensures Rep(L2, R2, P2, Br(Br(C, a, G), e, Br(F, b, D)), e, up)
  {
    var S := Br(C, a, Br(Br(G, e, F), b, D));
    RepKids(L, R, P, S, a, up);
    RepKids(L, R, P, S.r, b, a);
    RepKids(L, R, P, S.r.l, e, b);
    assert Ids(S) == Ids(C) + {a} + Ids(G) + {e} + Ids(F) + {b} + Ids(D);
    assert Distinct(S.r) && Distinct(S.r.l);
    RepKeep(L, R, P, L2, R2, P2, X, D, Ptr(D), b);
    RepMove(L, R, P, L2, R2, P2, X, F, Ptr(F), e, b);
    RepMove(L, R, P, L2, R2, P2, X, G, Ptr(G), e, a);
    RepKeep(L, R, P, L2, R2, P2, X, C, Ptr(C), a);
  }

  /** The descent of insert hung a fresh node `n`, with no children, in the
   *  empty hole of `Z`. */
  lemma AttachRep(L: seq<int>, R: seq<int>, P: seq<int>, L2: seq<int>, R2: seq<int>, P2: seq<int>,
                  Z: seq<Frame>, root: int, n: int)
    requires Rep(L, R, P, Plug(Z, Nil), root, NIL) && Distinct(Plug(Z, Nil)) && Z != []
    requires n == |L| && n == |R| && n == |P|
    requires Unchanged(L, R, P, L2, R2, P2, {Z[0].pid})
    requires InArena(L2, R2, P2, n) && L2[n] == NIL && R2[n] == NIL && P2[n] == Z[0].pid
    requires Redirected(L, R, P, L2, R2, P2, Z, n)
    ensures Rep(L2, R2, P2, Plug(Z, Br(Nil, n, Nil)), root, NIL) && Distinct(Plug(Z, Br(Nil, n, Nil)))
  {
    Hole(L, R, P, Z, Nil, root);
    assert n !in CtxIds(Z);
    ReplaceIn(L, R, P, L2, R2, P2, {Z[0].pid}, Z, Nil, Br(Nil, n, Nil), root);
    PtrPlug(Z, Nil, Br(Nil, n, Nil));
  }

  /** remove of a node `x` with at most one child C: C takes x's place. */
  lemma UnlinkRep(L: seq<int>, R: seq<int>, P: seq<int>, L2: seq<int>, R2: seq<int>, P2: seq<int>,
                  Z: seq<Frame>, S: Tree, C: Tree, root: int)
    requires Rep(L, R, P, Plug(Z, S), root, NIL) && Distinct(Plug(Z, S))
    requires S.Br? && (S.l.Nil? || S.r.Nil?) && C == (if S.l.Br? then S.l else S.r)
    requires Unchanged(L, R, P, L2, R2, P2, {S.id, Ptr(C), Up(Z, NIL)})
    requires C.Br? ==> Kept(L, R, P, L2, R2, P2, C.id, Up(Z, NIL))
    requires Redirected(L, R, P, L2, R2, P2, Z, Ptr(C))
    ensures Rep(L2, R2, P2, Plug(Z, C), Ptr(Plug(Z, C)), NIL) && Distinct(Plug(Z, C))
  {
    Hole(L, R, P, Z, S, root);
    var X := {S.id, Ptr(C), Up(Z, NIL)};
    assert S.id in Ids(S);
    assert Ids(C) <= Ids(S);
    RepMove(L, R, P, L2, R2, P2, X, C, Ptr(C), S.id, Up(Z, NIL));
    ReplaceIn(L, R, P, L2, R2, P2, X, Z, S, C, root);
  }

  /** swap_with_successor when the successor is x's right child C (which
   *  has no left child): C takes x's place and x's left subtree A. */
  lemma SwapNextRep(L: seq<int>, R: seq<int>, P: seq<int>, L2: seq<int>, R2: seq<int>, P2: seq<int>,
                    Z: seq<Frame>, A: Tree, x: int, C: Tree, root: int)
    requires Rep(L, R, P, Plug(Z, Br(A, x, C)), root, NIL) && Distinct(Plug(Z, Br(A, x, C)))
    requires C.Br? && C.l.Nil?
    requires Unchanged(L, R, P, L2, R2, P2, {x, C.id, Ptr(A), Up(Z, NIL)})
    requires InArena(L, R, P, C.id) && InArena(L2, R2, P2, C.id)
    requires L2[C.id] == Ptr(A) && R2[C.id] == R[C.id] && P2[C.id] == Up(Z, NIL)
    requires A.Br? ==> Kept(L, R, P, L2, R2, P2, A.id, C.id)
    requires Redirected(L, R, P, L2, R2, P2, Z, C.id)
    ensures Rep(L2, R2, P2, Plug(Z, Br(A, C.id, C.r)), Ptr(Plug(Z, Br(A, C.id, C.r))), NIL)
    ensures Distinct(Plug(Z, Br(A, C.id, C.r)))
  {
    var S := Br(A, x, C);
    var X := {x, C.id, Ptr(A), Up(Z, NIL)};
    HoleLocal(L, R, P, Z, S, root);
    SwapNextLocal(L, R, P, L2, R2, P2, X, A, x, C, Up(Z, NIL));
    assert x in Ids(S) && C.id in Ids(S) && Ids(A) <= Ids(S);
    assert Ptr(A) == NIL || Ptr(A) in Ids(S);
    ReplaceSub(L, R, P, L2, R2, P2, X, Z, S, Br(A, C.id, C.r), root);
  }

  lemma SwapNextLocal(L: seq<int>, R: seq<int>, P: seq<int>, L2: seq<int>, R2: seq<int>, P2: seq<int>,
                      X: set<int>, A: Tree, x: int, C: Tree, up: int)
    requires Rep(L, R, P, Br(A, x, C), x, up) && Distinct(Br(A, x, C)) && C.Br? && C.l.Nil?
    requires up !in Ids(Br(A, x, C)) && NIL !in Ids(Br(A, x, C))
    requires Unchanged(L, R, P, L2, R2, P2, X) && X == {x, C.id, Ptr(A), up}
    requires InArena(L, R, P, C.id) && InArena(L2, R2, P2, C.id)
    requires L2[C.id] == Ptr(A) && R2[C.id] == R[C.id] && P2[C.id] == up
    requires A.Br? ==> Kept(L, R, P, L2, R2, P2, A.id, C.id)
    ensures Rep(L2, R2, P2, Br(A, C.id, C.r), C.id, up) && Distinct(Br(A, C.id, C.r))
    ensures Ids(Br(A, C.id, C.r)) <= Ids(Br(A, x, C))
  {
    RepKids(L, R, P, Br(A, x, C), x, up);
    RepKids(L, R, P, C, C.id, x);
    assert Ids(C.r) <= Ids(C);
    RepMove(L, R, P, L2, R2, P2, X, A, Ptr(A), x, C.id);
    RepKeep(L, R, P, L2, R2, P2, X, C.r, Ptr(C.r), C.id);
  }

  /** The last step of swap_with_successor when the successor y lies deeper:
   *  y, already unlinked, takes x's place with both of x's subtrees. */
  lemma SwapDeepRep(L: seq<int>, R: seq<int>, P: seq<int>, L2: seq<int>, R2: seq<int>, P2: seq<int>,
                    Z: seq<Frame>, A: Tree, x: int, C: Tree, y: int, root: int)
    requires Rep(L, R, P, Plug(Z, Br(A, x, C)), root, NIL) && Distinct(Plug(Z, Br(A, x, C)))
    requires InArena(L, R, P, y) && y !in Ids(Plug(Z, Br(A, x, C)))
    requires Unchanged(L, R, P, L2, R2, P2, {x, y, Ptr(A), Ptr(C), Up(Z, NIL)})
    requires InArena(L2, R2, P2, y) && L2[y] == Ptr(A) && R2[y] == Ptr(C) && P2[y] == Up(Z, NIL)
    requires A.Br? ==> Kept(L, R, P, L2, R2, P2, A.id, y)
    requires C.Br? ==> Kept(L, R, P, L2, R2, P2, C.id, y)
    requires Redirected(L, R, P, L2, R2, P2, Z, y)
    ensures Rep(L2, R2, P2, Plug(Z, Br(A, y, C)), Ptr(Plug(Z, Br(A, y, C))), NIL)
    ensures Distinct(Plug(Z, Br(A, y, C)))
  {
    var S := Br(A, x, C);
    var X := {x, y, Ptr(A), Ptr(C), Up(Z, NIL)};
    HoleLocal(L, R, P, Z, S, root);
    SwapDeepLocal(L, R, P, L2, R2, P2, X, A, x, C, y, Up(Z, NIL));
    assert x in Ids(S) && Ids(A) <= Ids(S) && Ids(C) <= Ids(S);
    assert Ptr(A) == NIL || Ptr(A) in Ids(S);
    assert Ptr(C) == NIL || Ptr(C) in Ids(S);
    ReplaceSub(L, R, P, L2, R2, P2, X, Z, S, Br(A, y, C), root);
  }

  lemma SwapDeepLocal(L: seq<int>, R: seq<int>, P: seq<int>, L2: seq<int>, R2: seq<int>, P2: seq<int>,
                      X: set<int>, A: Tree, x: int, C: Tree, y: int, up: int)
    requires Rep(L, R, P, Br(A, x, C), x, up) && Distinct(Br(A, x, C))
    requires up !in Ids(Br(A, x, C)) && y !in Ids(Br(A, x, C)) && NIL !in Ids(Br(A, x, C))
    requires Unchanged(L, R, P, L2, R2, P2, X) && X == {x, y, Ptr(A), Ptr(C), up}
    requires InArena(L2, R2, P2, y) && L2[y] == Ptr(A) && R2[y] == Ptr(C) && P2[y] == up
    requires A.Br? ==> Kept(L, R, P, L2, R2, P2, A.id, y)
    requires C.Br? ==> Kept(L, R, P, L2, R2, P2, C.id, y)
    ensures Rep(L2, R2, P2, Br(A, y, C), y, up) && Distinct(Br(A, y, C))
    ensures Ids(Br(A, y, C)) == Ids(Br(A, x, C)) - {x} + {y}
  {
    RepKids(L, R, P, Br(A, x, C), x, up);
    RepMove(L, R, P, L2, R2, P2, X, A, Ptr(A), x, y);
    RepMove(L, R, P, L2, R2, P2, X, C, Ptr(C), x, y);
  }

  /** rotate(a, sign) applied to links that spell Plug(Z, S), with `a` the
   *  root of S and a `-sign` child under it: the new links spell
   *  Plug(Z, Rotated(S, sign)), still without a node reached twice. */
  lemma RotationShape(L: seq<int>, R: seq<int>, P: seq<int>, Z: seq<Frame>, S: Tree, sign: int, root: int)
    requires sign == 1 || sign == -1
    requires |L| == |R| == |P| && Rep(L, R, P, Plug(Z, S), root, NIL) && Distinct(Plug(Z, S))
    requires S.Br? && Sub(S, -sign).Br?
    ensures RotateReady(L, R, P, S.id, sign) && ChildOf(L, R, S.id, -sign) == Sub(S, -sign).id
    ensures var k := Rotation(L, R, P, root, S.id, sign);
            Rep(k.0, k.1, k.2, Plug(Z, Rotated(S, sign)), k.3, NIL) && Distinct(Plug(Z, Rotated(S, sign)))
  {
    RotateSite(L, R, P, Z, S, sign, root);
    var a, b, e := S.id, Sub(S, -sign).id, Ptr(Sub(Sub(S, -sign), sign));
    var L1 := if sign > 0 then L[a := e] else L[b := a];
    var R1 := if sign > 0 then R[b := a] else R[a := e];
    var k := Rotation(L, R, P, root, a, sign);
    RotateWrites(L, R, P, L1, R1, k.2, k.0, k.1, Z, S, sign, root, k.3);
  }

  /** double_rotate(b, a, sign) applied to links that spell Plug(Z, S),
   *  with `a` the root of S, `b` its `-sign` child and a `sign` child e
   *  under `b`: the new links spell Plug(Z, DoubleRotated(S, sign)). */
  lemma DoubleRotationShape(L: seq<int>, R: seq<int>, P: seq<int>, Z: seq<Frame>, S: Tree, sign: int, root: int)
    requires sign == 1 || sign == -1
    requires |L| == |R| == |P| && Rep(L, R, P, Plug(Z, S), root, NIL) && Distinct(Plug(Z, S))
    requires S.Br? && Sub(S, -sign).Br? && Sub(Sub(S, -sign), sign).Br?
    ensures DoubleRotateReady(L, R, P, Sub(S, -sign).id, S.id, sign)
    ensures ChildOf(L, R, S.id, -sign) == Sub(S, -sign).id
    ensures ChildOf(L, R, Sub(S, -sign).id, sign) == Sub(Sub(S, -sign), sign).id
    ensures var k := DoubleRotation(L, R, P, root, Sub(S, -sign).id, S.id, sign);
            Rep(k.0, k.1, k.2, Plug(Z, DoubleRotated(S, sign)), k.3, NIL) &&
            Distinct(Plug(Z, DoubleRotated(S, sign)))
  {
    DoubleRotateSite(L, R, P, Z, S, sign, root);
    var a, b := S.id, Sub(S, -sign).id;
    var E := Sub(Sub(S, -sign), sign);
    var e, f, g := E.id, Ptr(Sub(E, -sign)), Ptr(Sub(E, sign));
    var L1 := if sign > 0 then L[a := g][e := b] else L[b := f][e := a];
    var R1 := if sign > 0 then R[b := f][e := a] else R[a := g][e := b];
    var k := DoubleRotation(L, R, P, root, b, a, sign);
    DoubleRotateWrites(L, R, P, L1, R1, k.2, k.0, k.1, Z, S, sign, root, k.3);
  }
}
