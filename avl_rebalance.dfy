/** One step of each rebalancing walk, stated on tags alone.
 *
 *  Both walks climb a zipper. After an insertion the subtree `S` in the
 *  hole is one level taller than the tags of the context expect
 *  (`CtxAVL(B, Z, Height(S) - 1)`); after a removal the subtree `C` in
 *  the hole is one level shorter (`CtxAVL(B, Z, Height(C) + 1)`). Each
 *  lemma below takes one of the branches of handle_subtree_growth or
 *  handle_subtree_shrink at the innermost frame, with exactly the new tags
 *  that branch writes, and shows either that the whole tree is AVL again
 *  (the walk stops) or that the same kind of defect moved one frame up. */
module AvlRebalance {
  import opened AvlShape
  import opened AvlBalance

  /** The sign handle_subtree_growth is called with: -1 when the grown
   *  subtree is the left child of the frame's node. */
  function GrowSign(f: Frame): int { if f.isLeft then -1 else 1 }

  /** The sign handle_subtree_shrink is called with: +1 when the shrunk
   *  subtree is the left child (the node now leans right). */
  function ShrinkSign(f: Frame): int { if f.isLeft then 1 else -1 }

  /** The insertion walk's defect: `S` is AVL and one level taller than
   *  the context's tags allow for. */
  ghost predicate Grown(B: seq<int>, Z: seq<Frame>, S: Tree)
  {
    AVL(B, S) && CtxAVL(B, Z, Height(S) - 1)
  }

  /** The removal walk's defect: `C` is AVL and one level shorter than the
   *  context's tags allow for. */
  ghost predicate Shrunk(B: seq<int>, Z: seq<Frame>, C: Tree)
  {
    AVL(B, C) && CtxAVL(B, Z, Height(C) + 1)
  }

  /** The walk's stopping state: `R` is AVL and exactly as tall as the
   *  context's tags expect, so the whole tree is AVL (`AVLPlug`). */
  ghost predicate Settled(B: seq<int>, Z: seq<Frame>, R: Tree)
  {
    AVL(B, R) && CtxAVL(B, Z, Height(R))
  }

  /** Distinctness facts around the innermost frame of a zipper. */
  lemma FrameFacts(Z: seq<Frame>, S: Tree)
    requires Z != [] && Distinct(Plug(Z, S))
    ensures var f := Z[0];
            Distinct(S) && Distinct(f.sib) && Distinct(Attach(f, S)) &&
            f.pid !in Ids(S) && f.pid !in Ids(f.sib) && Ids(S) !! Ids(f.sib) &&
            Ids(Attach(f, S)) !! CtxIds(Z[1..]) && Distinct(Plug(Z[1..], Attach(f, S)))
  {
    DistinctPlug(Z, S);
    DistinctPlug(Z[1..], Attach(Z[0], S));
    assert Z[0].pid in CtxIds(Z);
  }

  /** Every node of an AVL subtree has a tag slot. */
  lemma {:induction false} AVLIds(B: seq<int>, T: Tree)
    requires AVL(B, T)
    ensures forall i :: i in Ids(T) ==> 0 <= i < |B|
    decreases T
  {
    if T.Br? {
      AVLIds(B, T.l);
      AVLIds(B, T.r);
    }
  }

  /** Retagging the frame's node leaves both of its subtrees AVL. */
  lemma KidsRetag(B: seq<int>, Z: seq<Frame>, S: Tree, v: int)
    requires Z != [] && Distinct(Plug(Z, S)) && AVL(B, S) && AVL(B, Z[0].sib)
    requires 0 <= Z[0].pid < |B|
    ensures AVL(B[Z[0].pid := v], S) && AVL(B[Z[0].pid := v], Z[0].sib)
  {
    FrameFacts(Z, S);
    AVLFrame(B, B[Z[0].pid := v], S);
    AVLFrame(B, B[Z[0].pid := v], Z[0].sib);
  }

  /** Retagging the frame's node leaves the context above it intact. */
  lemma CtxRetag1(B: seq<int>, Z: seq<Frame>, S: Tree, v: int, h: int)
    requires Z != [] && Distinct(Plug(Z, S)) && CtxAVL(B, Z[1..], h)
    requires 0 <= Z[0].pid < |B|
    ensures CtxAVL(B[Z[0].pid := v], Z[1..], h)
  {
    FrameFacts(Z, S);
    assert Z[0].pid in Ids(Attach(Z[0], S));
    CtxAVLFrame(B, B[Z[0].pid := v], Z[1..], h);
  }

  /** Unfolding the context's tags at the innermost frame. */
  lemma CtxHead(B: seq<int>, Z: seq<Frame>, h: int)
    requires Z != [] && CtxAVL(B, Z, h)
    ensures 0 <= Z[0].pid < |B| && AVL(B, Z[0].sib) && -1 <= B[Z[0].pid] <= 1
    ensures B[Z[0].pid] == (if Z[0].isLeft then Height(Z[0].sib) - h else h - Height(Z[0].sib))
    ensures CtxAVL(B, Z[1..], 1 + Max(h, Height(Z[0].sib)))
  {
  }

  /** A tree is AVL when the innermost frame's subtree is and the context
   *  above it expects that subtree's height. */
  lemma PlugFrame(B: seq<int>, Z: seq<Frame>, S: Tree)
    requires Z != [] && AVL(B, Attach(Z[0], S)) && CtxAVL(B, Z[1..], Height(Attach(Z[0], S)))
    ensures AVL(B, Plug(Z, S))
  {
    AVLPlug(B, Z[1..], Attach(Z[0], S));
  }

  /** Giving the frame's node the tag its two subtrees call for makes the
   *  frame's subtree AVL and leaves the context above it intact. */
  lemma RetagFrame(B: seq<int>, Z: seq<Frame>, S: Tree, v: int, h: int)
    requires Z != [] && Distinct(Plug(Z, S)) && AVL(B, S) && CtxAVL(B, Z, h)
    requires v == Tag(Z[0], Height(S)) && -1 <= v <= 1
    ensures var B2 := B[Z[0].pid := v];
            AVL(B2, Attach(Z[0], S)) && CtxAVL(B2, Z[1..], 1 + Max(h, Height(Z[0].sib))) &&
            Height(Attach(Z[0], S)) == 1 + Max(Height(S), Height(Z[0].sib))
  {
    CtxHead(B, Z, h);
    KidsRetag(B, Z, S, v);
    CtxRetag1(B, Z, S, v, 1 + Max(h, Height(Z[0].sib)));
    HeightAttach(Z[0], S);
  }

  // ---------------------------------------------------------------------
  // handle_subtree_growth

  /** The parent leaned away from the grown side: it becomes EH, its height
   *  is unchanged, and the whole tree is AVL again. */
  lemma GrowAbsorbed(B: seq<int>, Z: seq<Frame>, S: Tree)
    requires Z != [] && Distinct(Plug(Z, S)) && Grown(B, Z, S)
    requires B[Z[0].pid] == -GrowSign(Z[0])
    ensures AVL(B[Z[0].pid := EH], Plug(Z, S))
  {
    CtxHead(B, Z, Height(S) - 1);
    assert Height(Z[0].sib) == Height(S);
    RetagFrame(B, Z, S, EH, Height(S) - 1);
    assert Max(Height(S) - 1, Height(Z[0].sib)) == Max(Height(S), Height(Z[0].sib));
    PlugFrame(B[Z[0].pid := EH], Z, S);
  }

  /** The parent was EH: it now leans toward the grown side, and its own
   *  subtree is the one that grew. */
  lemma GrowPropagates(B: seq<int>, Z: seq<Frame>, S: Tree)
    requires Z != [] && Distinct(Plug(Z, S)) && Grown(B, Z, S)
    requires B[Z[0].pid] == EH
    ensures var B2 := B[Z[0].pid := GrowSign(Z[0])];
            Grown(B2, Z[1..], Attach(Z[0], S)) && B2[Z[0].pid] != EH
  {
    CtxHead(B, Z, Height(S) - 1);
    RetagFrame(B, Z, S, GrowSign(Z[0]), Height(S) - 1);
  }

  /** The first step from a fresh leaf: its parent cannot have leaned toward
   *  the empty side, so no rotation happens at this level. */
  lemma GrowFromLeaf(B: seq<int>, Z: seq<Frame>, n: int)
    requires Z != [] && Distinct(Plug(Z, Br(Nil, n, Nil)))
    requires 0 <= n < |B| && B[n] == EH && CtxAVL(B, Z, -1)
    ensures var p, s := Z[0].pid, GrowSign(Z[0]);
            var B2 := B[p := AdjustBalance(B[p], s)];
            (B[p] == EH || B[p] == -s) &&
            (B2[p] == EH ==> AVL(B2, Plug(Z, Br(Nil, n, Nil)))) &&
            (B2[p] != EH ==> Grown(B2, Z[1..], Attach(Z[0], Br(Nil, n, Nil))) && B2[p] != EH)
  {
    var leaf := Br(Nil, n, Nil);
    CtxHead(B, Z, -1);
    assert Grown(B, Z, leaf);
    if B[Z[0].pid] == EH {
      GrowPropagates(B, Z, leaf);
    } else {
      GrowAbsorbed(B, Z, leaf);
    }
  }

  /** The frame facts the rotating branches of handle_subtree_growth
   *  share: the parent already leaned toward the grown subtree `S`, which
   *  is now two levels taller than its sibling, and the context above
   *  expects the parent's subtree to keep the height of `S`. */
  lemma GrowFrame(B: seq<int>, Z: seq<Frame>, S: Tree)
    requires Z != [] && S.Br? && Distinct(Plug(Z, S)) && Grown(B, Z, S)
    requires B[Z[0].pid] == GrowSign(Z[0])
    ensures var f, s := Z[0], GrowSign(Z[0]);
            var A := Attach(f, S);
            A.Br? && Sub(A, s) == S && Sub(A, -s) == f.sib && A.id == f.pid &&
            0 <= A.id < |B| && 0 <= S.id < |B| && SingleReady(B, Z[1..], A, s, Height(S)) &&
            (B[S.id] == -s ==> DoubleReady(B, Z[1..], A, s, Height(S)))
  {
    var s := GrowSign(Z[0]);
    CtxHead(B, Z, Height(S) - 1);
    FrameFacts(Z, S);
    assert Max(Height(S) - 1, Height(Z[0].sib)) == Height(S) - 1;
    assert S.id in Ids(S) && Z[0].pid in Ids(Attach(Z[0], S));
    if B[S.id] == -s {
      assert AVL(B, Sub(S, -s)) && Sub(S, -s).Br?;
      assert Sub(S, -s).id in Ids(S);
    }
  }

  /** The parent already leaned toward the grown side and the grown child
   *  leans the same way: rotate(p, -sign) and both become EH; the rotated
   *  subtree has the parent's old height, so the whole tree is AVL. */
  lemma GrowRotated(B: seq<int>, Z: seq<Frame>, S: Tree)
    requires Z != [] && S.Br? && Distinct(Plug(Z, S)) && Grown(B, Z, S)
    requires B[Z[0].pid] == GrowSign(Z[0]) && B[S.id] == GrowSign(Z[0])
    ensures var s, A := GrowSign(Z[0]), Attach(Z[0], S);
            Sub(A, s) == S && Sub(A, -s) == Z[0].sib &&
            0 <= Z[0].pid < |B| && 0 <= S.id < |B| && B[S.id] != EH &&
            Settled(SingleTags(B, Z[0].pid, S.id, s), Z[1..], Rotated(A, -s))
  {
    GrowFrame(B, Z, S);
    SingleStep(B, Z[1..], Attach(Z[0], S), GrowSign(Z[0]), Height(S));
  }

  /** The parent already leaned toward the grown side and the grown child
   *  leans the other way: double_rotate(t, p, -sign) with the tags it
   *  computes from the inner node's old tag; the whole tree is AVL. */
  lemma GrowDoubleRotated(B: seq<int>, Z: seq<Frame>, S: Tree)
    requires Z != [] && S.Br? && Distinct(Plug(Z, S)) && Grown(B, Z, S)
    requires B[Z[0].pid] == GrowSign(Z[0]) && B[S.id] == -GrowSign(Z[0])
    ensures var s, A := GrowSign(Z[0]), Attach(Z[0], S);
            Sub(A, s) == S && Sub(S, -s).Br? && 0 <= Sub(S, -s).id < |B| &&
            0 <= Z[0].pid < |B| && 0 <= S.id < |B| &&
            Settled(DoubleTags(B, Z[0].pid, S.id, Sub(S, -s).id, -s), Z[1..], DoubleRotated(A, -s))
  {
    GrowFrame(B, Z, S);
    DoubleStep(B, Z[1..], Attach(Z[0], S), GrowSign(Z[0]), Height(S));
  }

  /** `A` is one level too tall on side `s` but both of its subtrees are
   *  AVL, and neither `A` nor its tall child belongs to the context `Z`
   *  above it, which expects a subtree of height `h`. */
  ghost predicate SingleReady(B: seq<int>, Z: seq<Frame>, A: Tree, s: int, h: int)
  {
    (s == 1 || s == -1) && A.Br? && Sub(A, s).Br? && Distinct(A) &&
    AVL(B, A.l) && AVL(B, A.r) && 0 <= A.id < |B| && 0 <= Sub(A, s).id < |B| &&
    A.id !in CtxIds(Z) && Sub(A, s).id !in CtxIds(Z) && CtxAVL(B, Z, h) &&
    Height(Sub(A, s)) == Height(Sub(A, -s)) + 2
  }

  /** As `SingleReady`, and the tall child has an inner child outside `Z`. */
  ghost predicate DoubleReady(B: seq<int>, Z: seq<Frame>, A: Tree, s: int, h: int)
  {
    SingleReady(B, Z, A, s, h) && Sub(Sub(A, s), -s).Br? &&
    0 <= Sub(Sub(A, s), -s).id < |B| && Sub(Sub(A, s), -s).id !in CtxIds(Z)
  }

  /** A single rotation toward the light side of `A`, with the tags the
   *  rebalancing code assigns, inside a context whose tags it leaves alone. */
  lemma SingleStep(B: seq<int>, Z: seq<Frame>, A: Tree, s: int, h: int)
    requires SingleReady(B, Z, A, s, h)
    requires B[Sub(A, s).id] == s || B[Sub(A, s).id] == EH
    ensures var t := Sub(A, s);
            AVL(SingleTags(B, A.id, t.id, s), Rotated(A, -s)) &&
            CtxAVL(SingleTags(B, A.id, t.id, s), Z, h) &&
            Height(Rotated(A, -s)) == if B[t.id] == EH then Height(t) + 1 else Height(t)
  {
    var t := Sub(A, s);
    SingleRotationAVL(B, A, s);
    var va, vb := if B[t.id] == EH then s else EH, if B[t.id] == EH then -s else EH;
    assert SingleTags(B, A.id, t.id, s) == B[A.id := va][t.id := vb];
    CtxKeep2(B, Z, h, A.id, va, t.id, vb);
  }

  /** A double rotation of `A` with the tags double_rotate assigns, inside a
   *  context whose tags it leaves alone. */
  lemma DoubleStep(B: seq<int>, Z: seq<Frame>, A: Tree, s: int, h: int)
    requires DoubleReady(B, Z, A, s, h) && B[Sub(A, s).id] == -s
    ensures var t := Sub(A, s); var e := Sub(t, -s).id;
            AVL(DoubleTags(B, A.id, t.id, e, -s), DoubleRotated(A, -s)) &&
            CtxAVL(DoubleTags(B, A.id, t.id, e, -s), Z, h) &&
            Height(DoubleRotated(A, -s)) == Height(t)
  {
    var t := Sub(A, s);
    var E := Sub(t, -s);
    DoubleRotationAVL(B, A, s);
    var x := B[E.id];
    var na, nb := if -s * x >= 0 then EH else NegateBalance(x), if -s * x <= 0 then EH else NegateBalance(x);
    assert DoubleTags(B, A.id, t.id, E.id, -s) == B[A.id := na][t.id := nb][E.id := EH];
    CtxKeep3(B, Z, h, A.id, na, t.id, nb, E.id, EH);
  }

  /** Retagging two nodes outside a context leaves its tags valid. */
  lemma CtxKeep2(B: seq<int>, Z: seq<Frame>, h: int, a: int, va: int, b: int, vb: int)
    requires CtxAVL(B, Z, h) && 0 <= a < |B| && 0 <= b < |B|
    requires a !in CtxIds(Z) && b !in CtxIds(Z)
    ensures CtxAVL(B[a := va][b := vb], Z, h)
  {
    CtxAVLFrame(B, B[a := va][b := vb], Z, h);
  }

  /** Retagging three nodes outside a context leaves its tags valid. */
  lemma CtxKeep3(B: seq<int>, Z: seq<Frame>, h: int, a: int, va: int, b: int, vb: int, e: int, ve: int)
    requires CtxAVL(B, Z, h) && 0 <= a < |B| && 0 <= b < |B| && 0 <= e < |B|
    requires a !in CtxIds(Z) && b !in CtxIds(Z) && e !in CtxIds(Z)
    ensures CtxAVL(B[a := va][b := vb][e := ve], Z, h)
  {
    CtxAVLFrame(B, B[a := va][b := vb][e := ve], Z, h);
  }

  // ---------------------------------------------------------------------
  // handle_subtree_shrink

  /** The parent was EH: it now leans away from the shrunk side, its height
   *  is unchanged, and the whole tree is AVL again. */
  lemma ShrinkAbsorbed(B: seq<int>, Z: seq<Frame>, C: Tree)
    requires Z != [] && Distinct(Plug(Z, C)) && Shrunk(B, Z, C)
    requires B[Z[0].pid] == EH
    ensures AVL(B[Z[0].pid := ShrinkSign(Z[0])], Plug(Z, C))
  {
    CtxHead(B, Z, Height(C) + 1);
    assert Height(Z[0].sib) == Height(C) + 1;
    RetagFrame(B, Z, C, ShrinkSign(Z[0]), Height(C) + 1);
    assert Max(Height(C) + 1, Height(Z[0].sib)) == Max(Height(C), Height(Z[0].sib));
    PlugFrame(B[Z[0].pid := ShrinkSign(Z[0])], Z, C);
  }

  /** The parent leaned toward the shrunk side: it becomes EH and its own
   *  subtree is the one that shrank. */
  lemma ShrinkPropagates(B: seq<int>, Z: seq<Frame>, C: Tree)
    requires Z != [] && Distinct(Plug(Z, C)) && Shrunk(B, Z, C)
    requires B[Z[0].pid] == -ShrinkSign(Z[0])
    ensures Shrunk(B[Z[0].pid := EH], Z[1..], Attach(Z[0], C))
  {
    CtxHead(B, Z, Height(C) + 1);
    RetagFrame(B, Z, C, EH, Height(C) + 1);
  }

  /** When the parent leaned away from the shrunk side, that side's sibling
   *  t is two levels taller than the shrunk subtree; when t leans inward,
   *  its inner child exists. */
  lemma ShrinkTall(B: seq<int>, Z: seq<Frame>, C: Tree)
    requires Z != [] && Shrunk(B, Z, C)
    requires B[Z[0].pid] == ShrinkSign(Z[0])
    ensures var s, t := ShrinkSign(Z[0]), Z[0].sib;
            t.Br? && Sub(Attach(Z[0], C), s) == t && Sub(Attach(Z[0], C), -s) == C &&
            Height(t) == Height(C) + 2 && 0 <= t.id < |B| &&
            (B[t.id] == -s ==> Sub(t, -s).Br? && 0 <= Sub(t, -s).id < |B|)
  {
    var s, t := ShrinkSign(Z[0]), Z[0].sib;
    CtxHead(B, Z, Height(C) + 1);
    assert Height(t) == Height(C) + 2;
    assert t.id in Ids(t);
    AVLIds(B, t);
    if B[t.id] == -s {
      assert Sub(t, -s).Br?;
      assert Sub(t, -s).id in Ids(t);
    }
  }

  /** The frame facts the rotating branches of handle_subtree_shrink
   *  share: the parent leaned away from the shrunk subtree `C`, whose tall
   *  sibling is two levels taller, and the context above expects the old
   *  height of the parent's subtree. */
  lemma ShrinkFrame(B: seq<int>, Z: seq<Frame>, C: Tree)
    requires Z != [] && Distinct(Plug(Z, C)) && Shrunk(B, Z, C)
    requires B[Z[0].pid] == ShrinkSign(Z[0])
    ensures var f, s := Z[0], ShrinkSign(Z[0]);
            var A, t := Attach(f, C), f.sib;
            Sub(A, s) == t && Sub(A, -s) == C && t.Br? && A.id == f.pid && Distinct(A) &&
            AVL(B, A.l) && AVL(B, A.r) && 0 <= A.id < |B| &&
            Height(t) == Height(C) + 2 && 0 <= t.id < |B| && f.pid != t.id &&
            SingleReady(B, Z[1..], A, s, Height(t) + 1) &&
            (B[t.id] == -s ==> Sub(t, -s).Br? && 0 <= Sub(t, -s).id < |B| &&
                               DoubleReady(B, Z[1..], A, s, Height(t) + 1))
  {
    CtxHead(B, Z, Height(C) + 1);
    FrameFacts(Z, C);
    ShrinkTall(B, Z, C);
    var A, t := Attach(Z[0], C), Z[0].sib;
    assert Max(Height(C) + 1, Height(t)) == Height(t);
    assert t.id in Ids(t) && Z[0].pid in Ids(A);
    if B[t.id] == -ShrinkSign(Z[0]) {
      assert Sub(t, -ShrinkSign(Z[0])).id in Ids(t);
    }
  }

  /** The tall sibling leans away from the shrunk side: rotate(p, -sign)
   *  and both become EH; the subtree lost a level, so the defect moves up. */
  lemma ShrinkRotated(B: seq<int>, Z: seq<Frame>, C: Tree)
    requires Z != [] && Distinct(Plug(Z, C)) && Shrunk(B, Z, C)
    requires B[Z[0].pid] == ShrinkSign(Z[0]) && Z[0].sib.Br? && B[Z[0].sib.id] == ShrinkSign(Z[0])
    ensures var s, A := ShrinkSign(Z[0]), Attach(Z[0], C);
            Sub(A, s).Br? &&
            0 <= Z[0].pid < |B| && 0 <= Z[0].sib.id < |B| &&
            Shrunk(SingleTags(B, Z[0].pid, Z[0].sib.id, s), Z[1..], Rotated(A, -s))
  {
    ShrinkFrame(B, Z, C);
    SingleStep(B, Z[1..], Attach(Z[0], C), ShrinkSign(Z[0]), Height(Z[0].sib) + 1);
  }

  /** The tall sibling is EH: after rotate(p, -sign) the parent keeps its
   *  tag, the sibling leans back, the height is unchanged, and the whole
   *  tree is AVL again. */
  lemma ShrinkRotatedStop(B: seq<int>, Z: seq<Frame>, C: Tree)
    requires Z != [] && Distinct(Plug(Z, C)) && Shrunk(B, Z, C)
    requires B[Z[0].pid] == ShrinkSign(Z[0]) && Z[0].sib.Br? && B[Z[0].sib.id] == EH
    ensures var s, A := ShrinkSign(Z[0]), Attach(Z[0], C);
            Sub(A, s).Br? &&
            0 <= Z[0].pid < |B| && 0 <= Z[0].sib.id < |B| &&
            Settled(SingleTags(B, Z[0].pid, Z[0].sib.id, s), Z[1..], Rotated(A, -s))
  {
    var A, t := Attach(Z[0], C), Z[0].sib;
    ShrinkFrame(B, Z, C);
    SingleStep(B, Z[1..], A, ShrinkSign(Z[0]), Height(t) + 1);
    assert Height(Rotated(A, -ShrinkSign(Z[0]))) == Height(t) + 1;
  }

  /** The tall sibling leans toward the shrunk side: double_rotate(t, p,
   *  -sign); the subtree lost a level, so the defect moves up. */
  lemma ShrinkDoubleRotated(B: seq<int>, Z: seq<Frame>, C: Tree)
    requires Z != [] && Distinct(Plug(Z, C)) && Shrunk(B, Z, C)
    requires B[Z[0].pid] == ShrinkSign(Z[0]) && Z[0].sib.Br? && B[Z[0].sib.id] == -ShrinkSign(Z[0])
    ensures var s, A, t := ShrinkSign(Z[0]), Attach(Z[0], C), Z[0].sib;
            Sub(A, s).Br? && Sub(t, -s).Br? && 0 <= Sub(t, -s).id < |B| &&
            0 <= Z[0].pid < |B| && 0 <= t.id < |B| &&
            Shrunk(DoubleTags(B, Z[0].pid, t.id, Sub(t, -s).id, -s), Z[1..], DoubleRotated(A, -s))
  {
    ShrinkFrame(B, Z, C);
    DoubleStep(B, Z[1..], Attach(Z[0], C), ShrinkSign(Z[0]), Height(Z[0].sib) + 1);
  }
}
