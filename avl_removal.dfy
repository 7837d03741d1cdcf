/** The unlinking half of remove(t): what the links, the tags and the
 *  node order look like after a node with at most one child is unlinked,
 *  or after swap_with_successor puts the in-order successor in the place
 *  of a node with two children. Each step leaves a tree whose hole lost
 *  one level (`Shrunk`), ready for the handle_subtree_shrink walk. */
module AvlRemoval {
  import opened AvlShape
  import opened AvlBalance
  import opened AvlOrder
  import opened AvlLinks
  import opened AvlRebalance
  import opened AvlWalk
  import opened AvlSteps

  // ---------------------------------------------------------------------
  // The links remove(t) and swap_with_successor(X) write

  /** remove(t) for a node with at most one child: the child, possibly
   *  null, takes t's place under t's parent, or becomes the root. */
  function Unlinked(L: seq<int>, R: seq<int>, P: seq<int>, root: int, t: int)
    : (k: (seq<int>, seq<int>, seq<int>, int))
    requires |L| == |R| == |P| && 0 <= t < |L|
    requires Slot(P[t], |L|) && Slot(L[t], |L|) && Slot(R[t], |L|)
    ensures |k.0| == |k.1| == |k.2| == |L|
  {
    var child := if L[t] != NIL then L[t] else R[t];
    var p := P[t];
    var P2 := ReParent(P, child, p);
    if p == NIL then (L, R, P2, child)
    else if t == L[p] then (L[p := child], R, P2, root)
    else (L, R[p := child], P2, root)
  }

  /** The writes swap_with_successor(X) ends with: Y takes X's left
   *  subtree and X's parent, and replace_child(X's parent, X, Y) puts Y in
   *  X's place. */
  function TakeOver(L: seq<int>, R: seq<int>, P: seq<int>, root: int, x: int, y: int)
    : (k: (seq<int>, seq<int>, seq<int>, int))
    requires |L| == |R| == |P| && 0 <= x < |L| && 0 <= y < |L|
    requires 0 <= L[x] < |L| && Slot(P[x], |L|)
    ensures |k.0| == |k.1| == |k.2| == |L|
  {
    var L1 := L[y := L[x]];
    var P1 := P[L[x] := y][y := P[x]];
    var k := ReplaceChild(L1, R, root, P[x], x, y);
    (k.0, k.1, P1, k.2)
  }

  // ---------------------------------------------------------------------
  // The node order and the tags

  /** Taking the root out of the subtree in a hole: when the new subtree
   *  lists the old one's subtrees in order, the whole tree lists the old
   *  nodes without the removed one. */
  lemma EraseTop(Z: seq<Frame>, S: Tree, N: Tree)
    requires Distinct(Plug(Z, S)) && S.Br?
    requires InOrder(N) == InOrder(S.l) + InOrder(S.r)
    ensures InOrder(Plug(Z, N)) == Erase(InOrder(Plug(Z, S)), S.id)
  {
    EraseRoot(Z, S);
    InOrderPlug(Z, N);
    Associate(Before(Z), InOrder(S.l), InOrder(S.r));
    Associate(Before(Z) + InOrder(S.l), InOrder(S.r), After(Z));
  }


  /** The root of the subtree in a hole occurs once in the node order, so
   *  erasing it leaves the nodes before it and the nodes after it. */
  lemma EraseRoot(Z: seq<Frame>, S: Tree)
    requires Distinct(Plug(Z, S)) && S.Br?
    ensures Erase(InOrder(Plug(Z, S)), S.id) == (Before(Z) + InOrder(S.l)) + (InOrder(S.r) + After(Z))
  {
    var a, b := Before(Z) + InOrder(S.l), InOrder(S.r) + After(Z);
    InOrderAround(Z, S);
    DistinctInOrder(Plug(Z, S));
    OnlyOnce(a, S.id, b);
    EraseMiddle(a, S.id, b);
  }

  lemma OnlyOnce(a: seq<int>, t: int, b: seq<int>)
    requires forall i, j :: 0 <= i < j < |a + [t] + b| ==> (a + [t] + b)[i] != (a + [t] + b)[j]
    ensures t !in a && t !in b
  {
    var s := a + [t] + b;
    forall i | 0 <= i < |a| ensures a[i] != t {
      assert s[i] == a[i] && s[|a|] == t;
    }
    forall i | 0 <= i < |b| ensures b[i] != t {
      assert s[|a| + 1 + i] == b[i] && s[|a|] == t;
    }
  }

  /** remove(t) of a node with at most one child C: the node order loses
   *  `t`, and the tags, untouched, describe a tree whose hole lost one
   *  level. */
  lemma UnlinkKeeps(B: seq<int>, Z: seq<Frame>, S: Tree)
    requires Distinct(Plug(Z, S)) && AVL(B, Plug(Z, S)) && S.Br? && (S.l.Nil? || S.r.Nil?)
    ensures var C := if S.l.Br? then S.l else S.r;
            InOrder(Plug(Z, C)) == Erase(InOrder(Plug(Z, S)), S.id) && Shrunk(B, Z, C)
  {
    var C := if S.l.Br? then S.l else S.r;
    AVLPlug(B, Z, S);
    if S.l.Br? {
      assert InOrder(S.r) == [];
    } else {
      assert InOrder(S.l) == [];
    }
    EraseTop(Z, S, C);
  }

  /** swap_with_successor(X) with X = x, its left subtree A and the
   *  successor Y at the bottom of the left spine W of x's right subtree:
   *  after Y takes x's place with x's tag, the node order loses x, and the
   *  tags describe the tree with Y's right subtree in the hole of
   *  W + [Y's right frame] + Z, which lost one level. */
  lemma SwapKeeps(B: seq<int>, Z: seq<Frame>, A: Tree, x: int, W: seq<Frame>, Y: Tree)
    requires Distinct(Plug(Z, Br(A, x, Plug(W, Y)))) && AVL(B, Plug(Z, Br(A, x, Plug(W, Y))))
    requires LeftSpine(W) && Y.Br? && Y.l.Nil?
    ensures 0 <= x < |B| && 0 <= Y.id < |B|
    ensures var Z2, N := W + [Frame(Y.id, false, A)] + Z, Br(A, Y.id, Plug(W, Y.r));
            Plug(Z2, Y.r) == Plug(Z, N) &&
            InOrder(Plug(Z, N)) == Erase(InOrder(Plug(Z, Br(A, x, Plug(W, Y)))), x) &&
            Next(InOrder(Plug(Z, Br(A, x, Plug(W, Y)))), x) == Y.id &&
            Shrunk(B[Y.id := B[x]], Z2, Y.r)
  {
    var S := Br(A, x, Plug(W, Y));
    var F := Frame(Y.id, false, A);
    var N := Br(A, Y.id, Plug(W, Y.r));
    SwapPlug(Z, A, W, Y);
    SwapOrder(Z, A, x, W, Y);
    SwapTags(B, Z, A, x, W, Y);
  }

  lemma SwapPlug(Z: seq<Frame>, A: Tree, W: seq<Frame>, Y: Tree)
    requires Y.Br?
    ensures Plug(W + [Frame(Y.id, false, A)] + Z, Y.r) == Plug(Z, Br(A, Y.id, Plug(W, Y.r)))
  {
    var F := Frame(Y.id, false, A);
    assert W + [F] + Z == W + ([F] + Z);
    PlugConcat(W, [F] + Z, Y.r);
    assert ([F] + Z)[1..] == Z;
  }

  lemma SwapOrder(Z: seq<Frame>, A: Tree, x: int, W: seq<Frame>, Y: Tree)
    requires Distinct(Plug(Z, Br(A, x, Plug(W, Y))))
    requires LeftSpine(W) && Y.Br? && Y.l.Nil?
    ensures InOrder(Plug(Z, Br(A, Y.id, Plug(W, Y.r)))) == Erase(InOrder(Plug(Z, Br(A, x, Plug(W, Y)))), x)
    ensures Next(InOrder(Plug(Z, Br(A, x, Plug(W, Y)))), x) == Y.id
  {
    var S := Br(A, x, Plug(W, Y));
    var N := Br(A, Y.id, Plug(W, Y.r));
    SpineOrder(W, Y);
    Associate(InOrder(A), [Y.id], InOrder(Plug(W, Y.r)));
    EraseTop(Z, S, N);
    NextInTree(Z, S);
  }

  /** The bottom of a left spine comes first in its subtree. */
  lemma SpineOrder(W: seq<Frame>, Y: Tree)
    requires LeftSpine(W) && Y.Br? && Y.l.Nil?
    ensures InOrder(Plug(W, Y)) == [Y.id] + InOrder(Plug(W, Y.r))
    ensures First(InOrder(Plug(W, Y))) == Y.id
  {
    LeftSpineBefore(W);
    InOrderPlug(W, Y);
    InOrderPlug(W, Y.r);
    assert InOrder(Y) == [Y.id] + InOrder(Y.r);
    Associate([], [Y.id], InOrder(Y.r) + After(W));
    assert [] + InOrder(Y) + After(W) == [Y.id] + (InOrder(Y.r) + After(W));
  }

  lemma SwapTags(B: seq<int>, Z: seq<Frame>, A: Tree, x: int, W: seq<Frame>, Y: Tree)
    requires Distinct(Plug(Z, Br(A, x, Plug(W, Y)))) && AVL(B, Plug(Z, Br(A, x, Plug(W, Y))))
    requires Y.Br? && Y.l.Nil?
    ensures 0 <= x < |B| && 0 <= Y.id < |B|
    ensures Shrunk(B[Y.id := B[x]], W + [Frame(Y.id, false, A)] + Z, Y.r)
  {
    SwapRetag(B, Z, A, x, W, Y);
    assert Height(Br(A, x, Plug(W, Y))) == 1 + Max(Height(A), Height(Plug(W, Y)));
    SwapStack(B[Y.id := B[x]], Z, A, W, Y);
  }

  /** The tags around the successor's old place, restacked: the successor's
   *  right subtree sits under the left spine `W`, then under the successor
   *  itself (now over `A`), then under `Z`. */
  lemma SwapStack(B: seq<int>, Z: seq<Frame>, A: Tree, W: seq<Frame>, Y: Tree)
    requires Y.Br? && 0 <= Y.id < |B|
    requires B[Y.id] == Height(Plug(W, Y)) - Height(A) && -1 <= B[Y.id] <= 1
    requires AVL(B, Y.r) && AVL(B, A) && Height(Y) == Height(Y.r) + 1
    requires CtxAVL(B, W, Height(Y))
    requires CtxAVL(B, Z, 1 + Max(Height(A), Height(Plug(W, Y))))
    ensures Shrunk(B, W + [Frame(Y.id, false, A)] + Z, Y.r)
  {
    var F := Frame(Y.id, false, A);
    assert Max(Height(A), Height(Plug(W, Y))) == Max(Height(Plug(W, Y)), Height(A));
    CtxCons(B, F, Z, Height(Plug(W, Y)));
    CtxAVLConcat(B, W, [F] + Z, Y);
    Associate(W, [F], Z);
  }

  lemma CtxCons(B: seq<int>, f: Frame, Z: seq<Frame>, h: int)
    requires 0 <= f.pid < |B| && AVL(B, f.sib) && B[f.pid] == Tag(f, h) && -1 <= B[f.pid] <= 1
    requires CtxAVL(B, Z, 1 + Max(h, Height(f.sib)))
    ensures CtxAVL(B, [f] + Z, h)
  {
    assert ([f] + Z)[0] == f && ([f] + Z)[1..] == Z;
  }

  /** Giving the successor Y the removed node's tag disturbs no other
   *  part of the tree. */
  lemma SwapRetag(B: seq<int>, Z: seq<Frame>, A: Tree, x: int, W: seq<Frame>, Y: Tree)
    requires Distinct(Plug(Z, Br(A, x, Plug(W, Y)))) && AVL(B, Plug(Z, Br(A, x, Plug(W, Y))))
    requires Y.Br? && Y.l.Nil?
    ensures 0 <= x < |B| && 0 <= Y.id < |B|
    ensures B[x] == Height(Plug(W, Y)) - Height(A) && -1 <= B[x] <= 1
    ensures AVL(B[Y.id := B[x]], Y.r) && AVL(B[Y.id := B[x]], A)
    ensures Height(Y) == Height(Y.r) + 1
    ensures CtxAVL(B[Y.id := B[x]], W, Height(Y))
    ensures CtxAVL(B[Y.id := B[x]], Z, Height(Br(A, x, Plug(W, Y))))
  {
    var S := Br(A, x, Plug(W, Y));
    var y := Y.id;
    AVLPlug(B, Z, S);
    AVLPlug(B, W, Y);
    SwapApart(Z, A, x, W, Y);
    AVLIds(B, Y);
    assert y in Ids(Y);
    var B2 := B[y := B[x]];
    AVLFrame(B, B2, Y.r);
    AVLFrame(B, B2, A);
    CtxAVLFrame(B, B2, W, Height(Y));
    CtxAVLFrame(B, B2, Z, Height(S));
  }

  /** The successor Y occurs in none of the other parts of the tree. */
  lemma SwapApart(Z: seq<Frame>, A: Tree, x: int, W: seq<Frame>, Y: Tree)
    requires Distinct(Plug(Z, Br(A, x, Plug(W, Y)))) && Y.Br?
    ensures Y.id !in Ids(Y.r) && Y.id !in Ids(A) && Y.id !in CtxIds(W) && Y.id !in CtxIds(Z)
  {
    var S := Br(A, x, Plug(W, Y));
    IdsPlug(Z, S);
    IdsPlug(W, Y);
    DistinctPlug(Z, S);
    DistinctPlug(W, Y);
    assert Y.id in Ids(Y);
  }

  // ---------------------------------------------------------------------
  // The links

  /** The writes of remove(t) for a node with at most one child, read off
   *  node by node. */
  lemma UnlinkFrame(L: seq<int>, R: seq<int>, P: seq<int>, root: int, t: int, c: int, up: int)
    requires |L| == |R| == |P| && 0 <= t < |L|
    requires Slot(P[t], |L|) && Slot(L[t], |L|) && Slot(R[t], |L|)
    requires up == P[t] && c == (if L[t] != NIL then L[t] else R[t])
    requires c != t && up != t && (c != NIL ==> c != up)
    ensures var k := Unlinked(L, R, P, root, t);
            Unchanged(L, R, P, k.0, k.1, k.2, {t, c, up}) &&
            (c != NIL ==> Kept(L, R, P, k.0, k.1, k.2, c, up)) &&
            (up == NIL ==> k.3 == c) &&
            (up != NIL ==> k.3 == root && k.2[up] == P[up] &&
                           (L[up] == t ==> k.0[up] == c && k.1[up] == R[up]) &&
                           (L[up] != t ==> k.1[up] == c && k.0[up] == L[up]))
  {
  }

  /** remove(t) of a node `t` with at most one child C, in the hole of Z:
   *  the links Unlinked writes spell Plug(Z, C), which no longer holds `t`. */
  lemma UnlinkLinks(L: seq<int>, R: seq<int>, P: seq<int>, Z: seq<Frame>, S: Tree, root: int)
    requires |L| == |R| == |P| && Rep(L, R, P, Plug(Z, S), root, NIL) && Distinct(Plug(Z, S))
    requires S.Br? && (S.l.Nil? || S.r.Nil?)
    ensures 0 <= S.id < |L| && Slot(P[S.id], |L|) && Slot(L[S.id], |L|) && Slot(R[S.id], |L|)
    ensures P[S.id] == Up(Z, NIL) && Site(L, R, P, Z, S.id, root)
    ensures L[S.id] == Ptr(S.l) && R[S.id] == Ptr(S.r)
    ensures var C := if S.l.Br? then S.l else S.r;
            var k := Unlinked(L, R, P, root, S.id);
            Rep(k.0, k.1, k.2, Plug(Z, C), k.3, NIL) && Distinct(Plug(Z, C)) && S.id !in Ids(Plug(Z, C))
  {
    var t, up := S.id, Up(Z, NIL);
    var C := if S.l.Br? then S.l else S.r;
    Hole(L, R, P, Z, S, root);
    Children(L, R, P, Z, S, root);
    RepKids(L, R, P, S, t, up);
    assert t in Ids(S) && Ids(C) <= Ids(S);
    UnlinkFrame(L, R, P, root, t, Ptr(C), up);
    var k := Unlinked(L, R, P, root, t);
    UnlinkRep(L, R, P, k.0, k.1, k.2, Z, S, C, root);
    if Z != [] {
      PtrPlug(Z, C, C);
    }
    IdsPlug(Z, C);
  }

  /** The writes swap_with_successor(X) ends with, read off node by node,
   *  for X = x with left child `a` and parent `up`, and successor y. */
  lemma TakeOverFrame(L: seq<int>, R: seq<int>, P: seq<int>, root: int, x: int, y: int, a: int, up: int)
    requires |L| == |R| == |P| && 0 <= x < |L| && 0 <= y < |L|
    requires a == L[x] && 0 <= a < |L| && up == P[x] && Slot(up, |L|)
    requires x != y && x != a && y != a && up != x && up != y && up != a
    ensures var k := TakeOver(L, R, P, root, x, y);
            Unchanged(L, R, P, k.0, k.1, k.2, {x, y, a, up}) &&
            k.0[y] == a && k.1[y] == R[y] && k.2[y] == up &&
            Kept(L, R, P, k.0, k.1, k.2, a, y) &&
            (up == NIL ==> k.3 == y) &&
            (up != NIL ==> k.3 == root && k.2[up] == P[up] &&
                           (L[up] == x ==> k.0[up] == y && k.1[up] == R[up]) &&
                           (L[up] != x ==> k.1[up] == y && k.0[up] == L[up]))
  {
  }

  /** The same, preceded by `Y->right = X->right` and
   *  `X->right->parent = Y` with `c` the right child of X. */
  lemma AdoptFrame(L: seq<int>, R: seq<int>, P: seq<int>, root: int, x: int, y: int, a: int, c: int, up: int)
    requires |L| == |R| == |P| && 0 <= x < |L| && 0 <= y < |L|
    requires a == L[x] && 0 <= a < |L| && c == R[x] && 0 <= c < |L| && up == P[x] && Slot(up, |L|)
    requires x != y && x != a && y != a && up != x && up != y && up != a
    requires c != x && c != y && c != a && c != up
    ensures var k := TakeOver(L, R[y := c], P[c := y], root, x, y);
            Unchanged(L, R, P, k.0, k.1, k.2, {x, y, a, c, up}) &&
            k.0[y] == a && k.1[y] == c && k.2[y] == up &&
            Kept(L, R, P, k.0, k.1, k.2, a, y) && Kept(L, R, P, k.0, k.1, k.2, c, y) &&
            (up == NIL ==> k.3 == y) &&
            (up != NIL ==> k.3 == root && k.2[up] == P[up] &&
                           (L[up] == x ==> k.0[up] == y && k.1[up] == R[up]) &&
                           (L[up] != x ==> k.1[up] == y && k.0[up] == L[up]))
  {
    TakeOverFrame(L, R[y := c], P[c := y], root, x, y, a, up);
  }

  /** swap_with_successor(X) when the successor is X's right child C, which
   *  has no left child: the links TakeOver writes spell the tree with C in
   *  X's place, holding X's left subtree A. */
  lemma SwapNextLinks(L: seq<int>, R: seq<int>, P: seq<int>, Z: seq<Frame>, A: Tree, x: int, C: Tree, root: int)
    requires |L| == |R| == |P| && Rep(L, R, P, Plug(Z, Br(A, x, C)), root, NIL)
    requires Distinct(Plug(Z, Br(A, x, C))) && A.Br? && C.Br? && C.l.Nil?
    ensures 0 <= x < |L| && 0 <= C.id < |L| && R[x] == C.id && L[C.id] == NIL
    ensures 0 <= L[x] < |L| && L[x] != x && x != C.id && Slot(P[x], |L|)
    ensures var k := TakeOver(L, R, P, root, x, C.id);
            Rep(k.0, k.1, k.2, Plug(Z, Br(A, C.id, C.r)), k.3, NIL) && Distinct(Plug(Z, Br(A, C.id, C.r)))
  {
    var S := Br(A, x, C);
    var y, up := C.id, Up(Z, NIL);
    Hole(L, R, P, Z, S, root);
    Children(L, R, P, Z, S, root);
    RepKids(L, R, P, S, x, up);
    RepKids(L, R, P, C, y, x);
    assert x in Ids(S) && y in Ids(C) && A.id in Ids(A) && Ids(A) <= Ids(S) && Ids(C) <= Ids(S);
    TakeOverFrame(L, R, P, root, x, y, A.id, up);
    var k := TakeOver(L, R, P, root, x, y);
    SwapNextRep(L, R, P, k.0, k.1, k.2, Z, A, x, C, root);
    if Z != [] {
      PtrPlug(Z, S, Br(A, y, C.r));
    }
  }

  /** The deeper case of swap_with_successor(X), once the successor y is
   *  unlinked from under Q: `Y->right = X->right`, `X->right->parent = Y`,
   *  then TakeOver put y in x's place with both of x's subtrees. */
  lemma SwapDeepLinks(L: seq<int>, R: seq<int>, P: seq<int>, Z: seq<Frame>, A: Tree, x: int, C: Tree,
                      y: int, root: int)
    requires |L| == |R| == |P| && Rep(L, R, P, Plug(Z, Br(A, x, C)), root, NIL)
    requires Distinct(Plug(Z, Br(A, x, C))) && A.Br? && C.Br?
    requires 0 <= y < |L| && y !in Ids(Plug(Z, Br(A, x, C)))
    ensures 0 <= x < |L| && 0 <= R[x] < |L| && R[x] != x && 0 <= L[x] < |L| && Slot(P[x], |L|)
    ensures L[x] != x && x != y
    ensures var k := TakeOver(L, R[y := R[x]], P[R[x] := y], root, x, y);
            Rep(k.0, k.1, k.2, Plug(Z, Br(A, y, C)), k.3, NIL) && Distinct(Plug(Z, Br(A, y, C)))
  {
    var S := Br(A, x, C);
    var up, a, c := Up(Z, NIL), A.id, C.id;
    Hole(L, R, P, Z, S, root);
    Children(L, R, P, Z, S, root);
    RepKids(L, R, P, S, x, up);
    IdsPlug(Z, S);
    assert x in Ids(S) && c in Ids(C) && a in Ids(A) && Ids(A) <= Ids(S) && Ids(C) <= Ids(S);
    AdoptFrame(L, R, P, root, x, y, a, c, up);
    var k := TakeOver(L, R[y := c], P[c := y], root, x, y);
    SwapDeepRep(L, R, P, k.0, k.1, k.2, Z, A, x, C, y, root);
    if Z != [] {
      PtrPlug(Z, S, Br(A, y, C));
    }
  }

  /** The subtree right of x, seen from the bottom of its left spine. */
  lemma SpinePlug(Z: seq<Frame>, A: Tree, x: int, W: seq<Frame>, Y: Tree)
    ensures Plug(W + ([Frame(x, false, A)] + Z), Y) == Plug(Z, Br(A, x, Plug(W, Y)))
  {
    var F := Frame(x, false, A);
    PlugConcat(W, [F] + Z, Y);
    assert ([F] + Z)[0] == F && ([F] + Z)[1..] == Z;
  }

  /** One step of the walk down the left spine of x's right subtree. */
  lemma SuccessorStep(L: seq<int>, R: seq<int>, P: seq<int>, Z: seq<Frame>, A: Tree, x: int,
                      W: seq<Frame>, Y: Tree, root: int)
    requires Rep(L, R, P, Plug(Z, Br(A, x, Plug(W, Y))), root, NIL) && Distinct(Plug(Z, Br(A, x, Plug(W, Y))))
    requires Y.Br?
    ensures InArena(L, R, P, Y.id) && L[Y.id] == Ptr(Y.l) && (Y.l.Nil? <==> L[Y.id] == NIL)
    ensures Plug([Frame(Y.id, true, Y.r)] + W, Y.l) == Plug(W, Y)
    ensures LeftSpine(W) ==> LeftSpine([Frame(Y.id, true, Y.r)] + W)
  {
    var f := Frame(Y.id, true, Y.r);
    SpinePlug(Z, A, x, W, Y);
    Children(L, R, P, W + ([Frame(x, false, A)] + Z), Y, root);
    assert ([f] + W)[0] == f && ([f] + W)[1..] == W;
  }

  /** A tree is never empty below a frame. */
  lemma {:induction false} PlugBr(Z: seq<Frame>, S: Tree)
    requires Z != []
    ensures Plug(Z, S).Br?
    decreases |Z|
  {
    if |Z| > 1 {
      PlugBr(Z[1..], Attach(Z[0], S));
    }
  }

  // ---------------------------------------------------------------------
  // What the container sees

  /** A tree whose node order is an ordered tree's order with node `t`
   *  erased is ordered too, holds the same keys but t's, and one node less. */
  lemma EraseKeys(D: seq<int>, T: Tree, T2: Tree, t: int)
    requires Ordered(D, T) && Distinct(T) && t in InOrder(T)
    requires InOrder(T2) == Erase(InOrder(T), t)
    ensures Ordered(D, T2)
    ensures Keys(D, T2) == Keys(D, T) - {D[t]}
    ensures Count(T2) == Count(T) - 1
  {
    EraseSub(D, InOrder(T), t);
    KeysErase(D, InOrder(T), t);
    DistinctInOrder(T);
    EraseOnce(InOrder(T), t);
    IdsInOrder(T);
    IdsInOrder(T2);
  }

  /** Erasing an id that occurs once shortens the sequence by one. */
  lemma EraseOnce(s: seq<int>, t: int)
    requires forall i, j :: 0 <= i < j < |s| ==> s[i] != s[j]
    requires t in s
    ensures |Erase(s, t)| == |s| - 1
  {
    var i :| 0 <= i < |s| && s[i] == t;
    var a, b := s[..i], s[i + 1..];
    assert s == a + [t] + b;
    OnlyOnce(a, t, b);
    EraseMiddle(a, t, b);
  }
}
