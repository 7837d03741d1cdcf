/** The node arena and the tree its child links spell out.
 *
 *  Nodes live in an arena of parallel sequences indexed by node id: `left`,
 *  `right` and `parent` hold ids, and `NIL` (-1) stands for the null pointer.
 *  The ghost `Tree` records which ids the child links reach and in what
 *  shape; a zipper (`seq<Frame>`, innermost frame first) records the path
 *  from a subtree up to the root, which is what every walk of the tree
 *  (descent, rebalancing, successor search, cursor step) moves along. */
module AvlShape {

  /** The null pointer. */
  const NIL: int := -1

  /** The id tree spelled out by the child links. */
  datatype Tree = Nil | Br(l: Tree, id: int, r: Tree)

  /** One step up from a hole: the hole is the left (`isLeft`) or right
   *  child of node `pid`, whose other child is the subtree `sib`. */
  datatype Frame = Frame(pid: int, isLeft: bool, sib: Tree)

  function Max(a: int, b: int): int { if a >= b then a else b }

  /** The pointer that designates a subtree: its root id, or NIL. */
  ghost function Ptr(T: Tree): int { if T.Nil? then NIL else T.id }

  /** Height, with the empty subtree at -1 and a single node at 0. */
  ghost function Height(T: Tree): (h: int)
    ensures h >= -1
    ensures T.Br? ==> h >= 0
  {
    match T
    case Nil => -1
    case Br(l, _, r) => 1 + Max(Height(l), Height(r))
  }

  ghost function Count(T: Tree): nat
  {
    match T
    case Nil => 0
    case Br(l, _, r) => Count(l) + 1 + Count(r)
  }

  ghost function Ids(T: Tree): set<int>
  {
    match T
    case Nil => {}
    case Br(l, id, r) => Ids(l) + {id} + Ids(r)
  }

  /** The ids in in-order (symmetric) order. */
  ghost function InOrder(T: Tree): seq<int>
  {
    match T
    case Nil => []
    case Br(l, id, r) => InOrder(l) + [id] + InOrder(r)
  }

  /** No id occurs twice: the child links form a tree, not a dag. */
  ghost predicate Distinct(T: Tree)
  {
    match T
    case Nil => true
    case Br(l, id, r) =>
      Distinct(l) && Distinct(r) && id !in Ids(l) && id !in Ids(r) && Ids(l) !! Ids(r)
  }

  ghost function Attach(f: Frame, S: Tree): Tree
  {
    if f.isLeft then Br(S, f.pid, f.sib) else Br(f.sib, f.pid, S)
  }

  /** The whole tree obtained by putting `S` into the hole of `Z`. */
  ghost function Plug(Z: seq<Frame>, S: Tree): Tree
    decreases |Z|
  {
    if Z == [] then S else Plug(Z[1..], Attach(Z[0], S))
  }

  /** The parent of the hole: the innermost frame's node, or `rp` at the top. */
  ghost function Up(Z: seq<Frame>, rp: int): int
  {
    if Z == [] then rp else Z[0].pid
  }

  ghost function CtxIds(Z: seq<Frame>): set<int>
    decreases |Z|
  {
    if Z == [] then {} else {Z[0].pid} + Ids(Z[0].sib) + CtxIds(Z[1..])
  }

  ghost predicate DistinctCtx(Z: seq<Frame>)
    decreases |Z|
  {
    Z == [] ||
    (Distinct(Z[0].sib) && Z[0].pid !in Ids(Z[0].sib) &&
     ({Z[0].pid} + Ids(Z[0].sib)) !! CtxIds(Z[1..]) && DistinctCtx(Z[1..]))
  }

  /** The ids that come before the hole in in-order order. */
  ghost function Before(Z: seq<Frame>): seq<int>
    decreases |Z|
  {
    if Z == [] then []
    else Before(Z[1..]) + (if Z[0].isLeft then [] else InOrder(Z[0].sib) + [Z[0].pid])
  }

  /** The ids that come after the hole in in-order order. */
  ghost function After(Z: seq<Frame>): seq<int>
    decreases |Z|
  {
    if Z == [] then []
    else (if Z[0].isLeft then [Z[0].pid] + InOrder(Z[0].sib) else []) + After(Z[1..])
  }

  ghost predicate InArena(L: seq<int>, R: seq<int>, P: seq<int>, i: int)
  {
    0 <= i < |L| && i < |R| && i < |P|
  }

  /** The subtree `T` hangs from pointer `t`, and the parent link of its
   *  root is `p`; every child link below agrees with its parent link. */
  ghost predicate Rep(L: seq<int>, R: seq<int>, P: seq<int>, T: Tree, t: int, p: int)
    decreases T
  {
    match T
    case Nil => t == NIL
    case Br(l, id, r) =>
      t == id && InArena(L, R, P, id) && P[id] == p &&
      Rep(L, R, P, l, L[id], id) && Rep(L, R, P, r, R[id], id)
  }

  /** The frames of `Z` are linked in the arena around a hole holding
   *  pointer `hole`; the outermost frame's node has parent link `rp`. */
  ghost predicate RepCtx(L: seq<int>, R: seq<int>, P: seq<int>, Z: seq<Frame>, hole: int, rp: int)
    decreases |Z|
  {
    Z == [] ||
    (InArena(L, R, P, Z[0].pid) &&
     (if Z[0].isLeft then L[Z[0].pid] == hole && Rep(L, R, P, Z[0].sib, R[Z[0].pid], Z[0].pid)
      else R[Z[0].pid] == hole && Rep(L, R, P, Z[0].sib, L[Z[0].pid], Z[0].pid)) &&
     P[Z[0].pid] == Up(Z[1..], rp) &&
     RepCtx(L, R, P, Z[1..], Z[0].pid, rp))
  }

  /** Node `i` has the same links in both arenas. */
  ghost predicate SameLinks(L: seq<int>, R: seq<int>, P: seq<int>,
                            L2: seq<int>, R2: seq<int>, P2: seq<int>, i: int)
  {
    InArena(L, R, P, i) && InArena(L2, R2, P2, i) &&
    L2[i] == L[i] && R2[i] == R[i] && P2[i] == P[i]
  }

  // ---------------------------------------------------------------------
  // Plugging a subtree into a context

  lemma RepPtr(L: seq<int>, R: seq<int>, P: seq<int>, T: Tree, t: int, p: int)
    requires Rep(L, R, P, T, t, p)
    ensures t == Ptr(T)
  {
  }

  lemma {:induction false} InOrderPlug(Z: seq<Frame>, S: Tree)
    ensures InOrder(Plug(Z, S)) == Before(Z) + InOrder(S) + After(Z)
    decreases |Z|
  {
    if Z != [] {
      InOrderPlug(Z[1..], Attach(Z[0], S));
    }
  }

  lemma {:induction false} IdsPlug(Z: seq<Frame>, S: Tree)
    ensures Ids(Plug(Z, S)) == CtxIds(Z) + Ids(S)
    decreases |Z|
  {
    if Z != [] {
      IdsPlug(Z[1..], Attach(Z[0], S));
    }
  }

  lemma {:induction false} CountPlug(Z: seq<Frame>, S: Tree, S2: Tree)
    requires Count(S2) == Count(S) + 1
    ensures Count(Plug(Z, S2)) == Count(Plug(Z, S)) + 1
    decreases |Z|
  {
    if Z != [] {
      CountPlug(Z[1..], Attach(Z[0], S), Attach(Z[0], S2));
    }
  }

  lemma {:induction false} PtrPlug(Z: seq<Frame>, S: Tree, S2: Tree)
    requires Z != []
    ensures Ptr(Plug(Z, S)) == Ptr(Plug(Z, S2)) == Z[|Z| - 1].pid
    decreases |Z|
  {
    if |Z| > 1 {
      PtrPlug(Z[1..], Attach(Z[0], S), Attach(Z[0], S2));
    }
  }

  lemma {:induction false} DistinctPlug(Z: seq<Frame>, S: Tree)
    ensures Distinct(Plug(Z, S)) <==> DistinctCtx(Z) && Distinct(S) && Ids(S) !! CtxIds(Z)
    decreases |Z|
  {
    if Z != [] {
      DistinctPlug(Z[1..], Attach(Z[0], S));
    }
  }

  lemma {:induction false} RepPlug(L: seq<int>, R: seq<int>, P: seq<int>, Z: seq<Frame>, S: Tree, t: int, rp: int)
    ensures Rep(L, R, P, Plug(Z, S), t, rp) <==>
      Rep(L, R, P, S, Ptr(S), Up(Z, rp)) && RepCtx(L, R, P, Z, Ptr(S), rp) && t == Ptr(Plug(Z, S))
    decreases |Z|
  {
    if Z == [] {
      if Rep(L, R, P, S, t, rp) { RepPtr(L, R, P, S, t, rp); }
    } else {
      var f := Z[0];
      RepPlug(L, R, P, Z[1..], Attach(f, S), t, rp);
      if Rep(L, R, P, Attach(f, S), f.pid, Up(Z[1..], rp)) {
        if f.isLeft { RepPtr(L, R, P, S, L[f.pid], f.pid); }
        else { RepPtr(L, R, P, S, R[f.pid], f.pid); }
      }
    }
  }

  // ---------------------------------------------------------------------
  // Frame lemmas: links that did not change keep a subtree or context linked

  lemma {:induction false} RepInArena(L: seq<int>, R: seq<int>, P: seq<int>, T: Tree, t: int, p: int)
    requires Rep(L, R, P, T, t, p)
    ensures forall i :: i in Ids(T) ==> InArena(L, R, P, i)
    decreases T
  {
    if T.Br? {
      RepInArena(L, R, P, T.l, L[T.id], T.id);
      RepInArena(L, R, P, T.r, R[T.id], T.id);
    }
  }

  lemma {:induction false} RepFrame(L: seq<int>, R: seq<int>, P: seq<int>,
                                    L2: seq<int>, R2: seq<int>, P2: seq<int>, T: Tree, t: int, p: int)
    requires Rep(L, R, P, T, t, p)
    requires forall i :: i in Ids(T) ==> SameLinks(L, R, P, L2, R2, P2, i)
    ensures Rep(L2, R2, P2, T, t, p)
    decreases T
  {
    if T.Br? {
      assert T.id in Ids(T);
      RepFrame(L, R, P, L2, R2, P2, T.l, L[T.id], T.id);
      RepFrame(L, R, P, L2, R2, P2, T.r, R[T.id], T.id);
    }
  }

  /** A subtree whose inner links did not change but whose root was given
   *  a new parent link is still linked, under the new parent. */
  lemma RepReparent(L: seq<int>, R: seq<int>, P: seq<int>,
                    L2: seq<int>, R2: seq<int>, P2: seq<int>, T: Tree, t: int, p: int, p2: int)
    requires Rep(L, R, P, T, t, p) && Distinct(T)
    requires forall i :: i in Ids(T) && i != t ==> SameLinks(L, R, P, L2, R2, P2, i)
    requires T.Br? ==> InArena(L2, R2, P2, t) && L2[t] == L[t] && R2[t] == R[t] && P2[t] == p2
    ensures Rep(L2, R2, P2, T, t, p2)
  {
    if T.Br? {
      RepFrame(L, R, P, L2, R2, P2, T.l, L[T.id], T.id);
      RepFrame(L, R, P, L2, R2, P2, T.r, R[T.id], T.id);
    }
  }

  lemma {:induction false} RepCtxFrame(L: seq<int>, R: seq<int>, P: seq<int>,
                                       L2: seq<int>, R2: seq<int>, P2: seq<int>,
                                       Z: seq<Frame>, hole: int, rp: int)
    requires RepCtx(L, R, P, Z, hole, rp)
    requires forall i :: i in CtxIds(Z) ==> SameLinks(L, R, P, L2, R2, P2, i)
    ensures RepCtx(L2, R2, P2, Z, hole, rp)
    decreases |Z|
  {
    if Z != [] {
      var f := Z[0];
      assert f.pid in CtxIds(Z);
      if f.isLeft {
        RepFrame(L, R, P, L2, R2, P2, f.sib, R[f.pid], f.pid);
      } else {
        RepFrame(L, R, P, L2, R2, P2, f.sib, L[f.pid], f.pid);
      }
      RepCtxFrame(L, R, P, L2, R2, P2, Z[1..], f.pid, rp);
    }
  }

  /** The context stays linked when only the innermost frame's pointer to the
   *  hole was redirected (replace_child). */
  lemma RepCtxRehole(L: seq<int>, R: seq<int>, P: seq<int>,
                     L2: seq<int>, R2: seq<int>, P2: seq<int>,
                     Z: seq<Frame>, hole: int, hole2: int, rp: int)
    requires RepCtx(L, R, P, Z, hole, rp) && DistinctCtx(Z)
    requires forall i :: i in CtxIds(Z) && i != Up(Z, rp) ==> SameLinks(L, R, P, L2, R2, P2, i)
    requires Z != [] ==> InArena(L, R, P, Z[0].pid) && InArena(L2, R2, P2, Z[0].pid) && P2[Z[0].pid] == P[Z[0].pid]
    requires Z != [] && Z[0].isLeft ==> L2[Z[0].pid] == hole2 && R2[Z[0].pid] == R[Z[0].pid]
    requires Z != [] && !Z[0].isLeft ==> R2[Z[0].pid] == hole2 && L2[Z[0].pid] == L[Z[0].pid]
    ensures RepCtx(L2, R2, P2, Z, hole2, rp)
  {
    if Z != [] {
      var f := Z[0];
      if f.isLeft {
        RepFrame(L, R, P, L2, R2, P2, f.sib, R[f.pid], f.pid);
      } else {
        RepFrame(L, R, P, L2, R2, P2, f.sib, L[f.pid], f.pid);
      }
      RepCtxFrame(L, R, P, L2, R2, P2, Z[1..], f.pid, rp);
    }
  }

  /** Replacing the subtree in the hole of a linked tree: if the new subtree
   *  is linked under the hole's parent and the context only had its pointer
   *  to the hole redirected, the whole tree is linked again. */
  lemma Replace(L: seq<int>, R: seq<int>, P: seq<int>,
                L2: seq<int>, R2: seq<int>, P2: seq<int>,
                Z: seq<Frame>, S: Tree, S2: Tree, root: int)
    requires Rep(L, R, P, Plug(Z, S), root, NIL) && Distinct(Plug(Z, S))
    requires Rep(L2, R2, P2, S2, Ptr(S2), Up(Z, NIL)) && Distinct(S2) && Ids(S2) !! CtxIds(Z)
    requires forall i :: i in CtxIds(Z) && i != Up(Z, NIL) ==> SameLinks(L, R, P, L2, R2, P2, i)
    requires Z != [] ==> InArena(L, R, P, Z[0].pid) && InArena(L2, R2, P2, Z[0].pid) && P2[Z[0].pid] == P[Z[0].pid]
    requires Z != [] && Z[0].isLeft ==> L2[Z[0].pid] == Ptr(S2) && R2[Z[0].pid] == R[Z[0].pid]
    requires Z != [] && !Z[0].isLeft ==> R2[Z[0].pid] == Ptr(S2) && L2[Z[0].pid] == L[Z[0].pid]
    ensures Rep(L2, R2, P2, Plug(Z, S2), Ptr(Plug(Z, S2)), NIL) && Distinct(Plug(Z, S2))
  {
    RepPlug(L, R, P, Z, S, root, NIL);
    DistinctPlug(Z, S);
    RepCtxRehole(L, R, P, L2, R2, P2, Z, Ptr(S), Ptr(S2), NIL);
    RepPlug(L2, R2, P2, Z, S2, Ptr(Plug(Z, S2)), NIL);
    DistinctPlug(Z, S2);
  }

  // ---------------------------------------------------------------------
  // Ids and in-order sequences

  lemma {:induction false} IdsInOrder(T: Tree)
    ensures forall i :: i in Ids(T) <==> i in InOrder(T)
    ensures |InOrder(T)| == Count(T)
    decreases T
  {
    if T.Br? {
      IdsInOrder(T.l);
      IdsInOrder(T.r);
    }
  }

  /** In a tree without repeated ids the in-order sequence repeats no id. */
  lemma {:induction false} DistinctInOrder(T: Tree)
    requires Distinct(T)
    ensures forall i, j :: 0 <= i < j < |InOrder(T)| ==> InOrder(T)[i] != InOrder(T)[j]
    decreases T
  {
    if T.Br? {
      DistinctInOrder(T.l);
      DistinctInOrder(T.r);
      IdsInOrder(T.l);
      IdsInOrder(T.r);
      var s := InOrder(T);
      var a, b := InOrder(T.l), InOrder(T.r);
      assert s == a + [T.id] + b;
      forall i, j | 0 <= i < j < |s| ensures s[i] != s[j] {
        if j < |a| {
        } else if j == |a| {
          assert s[i] == a[i];
        } else if i < |a| {
          assert s[i] == a[i] && s[j] == b[j - |a| - 1];
          assert s[i] in Ids(T.l) && s[j] in Ids(T.r);
        } else if i == |a| {
          assert s[j] == b[j - |a| - 1];
        } else {
          assert s[i] == b[i - |a| - 1] && s[j] == b[j - |a| - 1];
        }
      }
    }
  }

  // ---------------------------------------------------------------------
  // Rotations on shapes

  /** child(t, sign) on shapes: the left subtree for a negative sign. */
  ghost function Sub(T: Tree, sign: int): Tree
    requires T.Br?
  {
    if sign < 0 then T.l else T.r
  }

  /** The shape that rotate(A, sign) leaves: B = child(A, -sign) takes A's
   *  place, A becomes B's sign-side child and takes B's inner subtree E. */
  ghost function Rotated(A: Tree, sign: int): Tree
    requires A.Br? && Sub(A, -sign).Br?
  {
    if sign > 0 then Br(A.l.l, A.l.id, Br(A.l.r, A.id, A.r))
    else Br(Br(A.l, A.id, A.r.l), A.r.id, A.r.r)
  }

  /** The shape that double_rotate(B, A, sign) leaves: E = child(B, sign)
   *  takes A's place with B and A as its children, sharing E's subtrees. */
  ghost function DoubleRotated(A: Tree, sign: int): Tree
    requires sign == 1 || sign == -1
    requires A.Br? && Sub(A, -sign).Br? && Sub(Sub(A, -sign), sign).Br?
  {
    if sign > 0 then
      var B := A.l; var E := B.r;
      Br(Br(B.l, B.id, E.l), E.id, Br(E.r, A.id, A.r))
    else
      var B := A.r; var E := B.l;
      Br(Br(A.l, A.id, E.l), E.id, Br(E.r, B.id, B.r))
  }

  /** Moving the middle subtree E between b and a keeps the in-order order. */
  lemma RotationKeeps(D: Tree, b: int, E: Tree, a: int, C: Tree)
    ensures var T1, T2 := Br(Br(D, b, E), a, C), Br(D, b, Br(E, a, C));
            InOrder(T2) == InOrder(T1) && Ids(T2) == Ids(T1) && Count(T2) == Count(T1) &&
            (Distinct(T1) ==> Distinct(T2)) && (Distinct(T2) ==> Distinct(T1))
  {
    RotationOrder(D, b, E, a, C);
    RotationDistinct(D, b, E, a, C);
  }

  lemma RotationOrder(D: Tree, b: int, E: Tree, a: int, C: Tree)
    ensures InOrder(Br(D, b, Br(E, a, C))) == InOrder(Br(Br(D, b, E), a, C))
  {
    var d, e, c := InOrder(D), InOrder(E), InOrder(C);
    assert InOrder(Br(D, b, E)) == d + [b] + e;
    assert InOrder(Br(E, a, C)) == e + [a] + c;
    assert d + [b] + (e + [a] + c) == d + [b] + e + [a] + c;
  }

  lemma RotationDistinct(D: Tree, b: int, E: Tree, a: int, C: Tree)
    ensures var T1, T2 := Br(Br(D, b, E), a, C), Br(D, b, Br(E, a, C));
            Ids(T2) == Ids(T1) && Count(T2) == Count(T1) &&
            (Distinct(T1) ==> Distinct(T2)) && (Distinct(T2) ==> Distinct(T1))
  {
    assert Ids(Br(D, b, E)) == Ids(D) + {b} + Ids(E);
    assert Ids(Br(E, a, C)) == Ids(E) + {a} + Ids(C);
    assert Distinct(Br(D, b, E)) == (Distinct(D) && Distinct(E) && b !in Ids(D) && b !in Ids(E) && Ids(D) !! Ids(E));
    assert Distinct(Br(E, a, C)) == (Distinct(E) && Distinct(C) && a !in Ids(E) && a !in Ids(C) && Ids(E) !! Ids(C));
    assert Distinct(Br(Br(D, b, E), a, C)) ==
      (Distinct(Br(D, b, E)) && Distinct(C) && a !in Ids(Br(D, b, E)) && a !in Ids(C) && Ids(Br(D, b, E)) !! Ids(C));
    assert Distinct(Br(D, b, Br(E, a, C))) ==
      (Distinct(D) && Distinct(Br(E, a, C)) && b !in Ids(D) && b !in Ids(Br(E, a, C)) && Ids(D) !! Ids(Br(E, a, C)));
  }

  lemma DoubleRotationKeeps(D: Tree, b: int, F: Tree, e: int, G: Tree, a: int, C: Tree)
    ensures var T1, T2 := Br(Br(D, b, Br(F, e, G)), a, C), Br(Br(D, b, F), e, Br(G, a, C));
            InOrder(T2) == InOrder(T1) && Ids(T2) == Ids(T1) && Count(T2) == Count(T1) &&
            (Distinct(T1) ==> Distinct(T2))
  {
    var E := Br(F, e, G);
    RotationKeeps(D, b, F, e, G);
    assert Distinct(Br(Br(D, b, E), a, C)) ==> Distinct(Br(D, b, E)) && Distinct(Br(Br(D, b, F), e, G));
    RotationKeeps(Br(D, b, F), e, G, a, C);
  }

  lemma RotatedKeeps(A: Tree, sign: int)
    requires A.Br? && Sub(A, -sign).Br?
    ensures InOrder(Rotated(A, sign)) == InOrder(A)
    ensures Ids(Rotated(A, sign)) == Ids(A)
    ensures Count(Rotated(A, sign)) == Count(A)
    ensures Distinct(A) ==> Distinct(Rotated(A, sign))
  {
    if sign > 0 {
      RotationKeeps(A.l.l, A.l.id, A.l.r, A.id, A.r);
    } else {
      RotationKeeps(A.l, A.id, A.r.l, A.r.id, A.r.r);
    }
  }

  lemma DoubleRotatedKeeps(A: Tree, sign: int)
    requires sign == 1 || sign == -1
    requires A.Br? && Sub(A, -sign).Br? && Sub(Sub(A, -sign), sign).Br?
    ensures InOrder(DoubleRotated(A, sign)) == InOrder(A)
    ensures Ids(DoubleRotated(A, sign)) == Ids(A)
    ensures Count(DoubleRotated(A, sign)) == Count(A)
    ensures Distinct(A) ==> Distinct(DoubleRotated(A, sign))
  {
    if sign > 0 {
      DoubleRotationKeeps(A.l.l, A.l.id, A.l.r.l, A.l.r.id, A.l.r.r, A.id, A.r);
    } else {
      // mirror image: A = Br(C, a, Br(Br(G, e, F), b, D))
      var C, a, G, e, F, b, D := A.l, A.id, A.r.l.l, A.r.l.id, A.r.l.r, A.r.id, A.r.r;
      RotationKeeps(G, e, F, b, D);
      RotationKeeps(C, a, G, e, Br(F, b, D));
      assert Distinct(A) ==> Distinct(A.r);
    }
  }

  /** Associativity of a three-part concatenation, stated on its own. */
  lemma Associate<X>(a: seq<X>, b: seq<X>, c: seq<X>)
    ensures a + b + c == a + (b + c)
  {
  }
}
