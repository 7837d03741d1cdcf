/** The AVL tree container: an arena of nodes whose `left`, `right`,
 *  `parent` and `balance` fields the operations rewrite in place.
 *
 *  A node is an index into the parallel sequences `data`, `balance`,
 *  `left`, `right` and `parent`; `NIL` is the null pointer. The arena only
 *  grows: a removed node stays in it, unreachable, which stands for the
 *  `delete` of the source. The ghost field `shape` is the id tree the child
 *  links spell out from `root`; every public operation keeps `Valid()`,
 *  the invariant the source's `sanity()` checks. */
module AvlTrees {
  import opened AvlShape
  import opened AvlBalance
  import opened AvlOrder
  import opened AvlLinks
  import opened AvlRebalance
  import opened AvlWalk
  import opened AvlSteps
  import opened AvlRemoval
  import opened AvlCheck

  class AvlTree {
    var data: seq<int>
    var balance: seq<int>
    var left: seq<int>
    var right: seq<int>
    var parent: seq<int>
    var root: int
    var size: int
    ghost var shape: Tree
    /** Rotations done so far (a double rotation counts once). */
    ghost var rotations: nat

    /** All node fields cover the same ids. */
    ghost predicate Arena()
      reads this
    {
      |data| == |balance| == |left| == |right| == |parent|
    }

    /** The child links spell `shape` from `root`, every parent link points
     *  back, and no node is reached twice. */
    ghost predicate Linked()
      reads this
    {
      Arena() && Rep(left, right, parent, shape, root, NIL) && Distinct(shape)
    }

    /** What sanity() checks: linked, ordered, balanced, and the cached size
     *  is the node count. */
    ghost predicate Valid()
      reads this
    {
      Linked() && Ordered(data, shape) && AVL(balance, shape) && size == Count(shape)
    }

    /** The keys the container holds. */
    ghost function Elements(): set<int>
      reads this
    {
      Keys(data, shape)
    }

    /** The ids of the nodes in key order. */
    ghost function Sequence(): seq<int>
      reads this
    {
      InOrder(shape)
    }

    /** avltree(): the empty tree. */
    constructor ()
      ensures Valid() && Elements() == {} && size == 0
      ensures data == [] && root == NIL && rotations == 0
    {
      data, balance, left, right, parent := [], [], [], [], [];
      root, size := NIL, 0;
      shape, rotations := Nil, 0;
      new;
      assert InOrder(shape) == [];
      assert Keys(data, shape) == {} by {
        assert KeysOf(data, []) == {};
      }
    }

    /** size(): the number of keys held. */
    function Size(): (n: int)
      reads this
      requires Valid()
      ensures n == |Elements()|
    {
      CountKeys(data, shape);
      size
    }

    /** sanity(): passes exactly on a valid tree, given that the child links
     *  spell the ghost shape (so that the walk ends). */
    function Sanity(): (ok: bool)
      reads this
      requires Arena() && Spells(left, right, shape, root)
      ensures ok <==> Valid()
    {
      AvlCheck.Sanity(data, balance, left, right, parent, root, size, shape)
    }

    /** The child links of a linked tree spell its shape, so sanity() can
     *  be asked of it. */
    lemma LinkedSpells()
      requires Linked()
      ensures Spells(left, right, shape, root)
    {
      RepSpells(left, right, parent, shape, root, NIL);
    }

    /** clear(): drops every node. */
    method Clear()
      requires Valid()
      modifies this
      ensures Valid() && Elements() == {} && size == 0
      ensures data == old(data)
    {
      root, size, shape := NIL, 0, Nil;
      assert InOrder(shape) == [];
      assert Keys(data, shape) == {} by {
        assert KeysOf(data, []) == {};
      }
    }

    /** rotate(A, sign): B = child(A, -sign) takes A's place (under A's
     *  parent, or as the root), A becomes B's `sign` child and takes over
     *  B's inner subtree. The tags stay; see RotationShape for the shape. */
    method Rotate(a: int, sign: int)
      requires sign == 1 || sign == -1
      requires RotateReady(left, right, parent, a, sign)
      modifies this
      ensures (left, right, parent, root) == Rotation(old(left), old(right), old(parent), old(root), a, sign)
      ensures data == old(data) && balance == old(balance) && size == old(size) && shape == old(shape)
      ensures rotations == old(rotations) + 1
    {
      var b := ChildOf(left, right, a, -sign);
      var e := ChildOf(left, right, b, sign);
      var up := parent[a];
      var l, r, p := left, right, parent;
      if -sign < 0 { l := l[a := e]; } else { r := r[a := e]; }
      p := p[a := b];
      if sign < 0 { l := l[b := a]; } else { r := r[b := a]; }
      p := p[b := up];
      if e != NIL {
        p := p[e := a];
      }
      var k := ReplaceChild(l, r, root, up, a, b);
      left, right, parent, root := k.0, k.1, p, k.2;
      rotations := rotations + 1;
    }

    /** double_rotate(B, A, sign): E = child(B, sign) takes A's place with B
     *  and A as its children, and the three tags are set from E's old tag:
     *  A's is EH unless E leaned toward `-sign`, B's is EH unless E leaned
     *  toward `sign`, and E's is EH. See DoubleRotationShape for the shape. */
    method DoubleRotate(b: int, a: int, sign: int) returns (e: int)
      requires sign == 1 || sign == -1
      requires DoubleRotateReady(left, right, parent, b, a, sign) && |balance| == |left|
      modifies this
      ensures e == ChildOf(old(left), old(right), b, sign)
      ensures (left, right, parent, root) == DoubleRotation(old(left), old(right), old(parent), old(root), b, a, sign)
      ensures balance == DoubleTags(old(balance), a, b, e, sign)
      ensures data == old(data) && size == old(size) && shape == old(shape)
      ensures rotations == old(rotations) + 1
    {
      e := ChildOf(left, right, b, sign);
      var f := ChildOf(left, right, e, -sign);
      var g := ChildOf(left, right, e, sign);
      var up := parent[a];
      var x := balance[e];
      var l, r, p, tags := left, right, parent, balance;

      if -sign < 0 { l := l[a := g]; } else { r := r[a := g]; }
      p := p[a := e];
      tags := tags[a := if sign * x >= 0 then EH else NegateBalance(x)];

      if sign < 0 { l := l[b := f]; } else { r := r[b := f]; }
      p := p[b := e];
      tags := tags[b := if sign * x <= 0 then EH else NegateBalance(x)];

      if sign < 0 { l := l[e := a]; } else { r := r[e := a]; }
      if -sign < 0 { l := l[e := b]; } else { r := r[e := b]; }
      p := p[e := up];
      tags := tags[e := EH];

      if g != NIL {
        p := p[g := a];
      }
      if f != NIL {
        p := p[f := b];
      }
      var k := ReplaceChild(l, r, root, up, a, e);
      left, right, parent, balance, root := k.0, k.1, p, tags, k.2;
      rotations := rotations + 1;
    }

    /** lookup(x), the search from the root by lookup(t, x): the node
     *  holding `x`, or NIL exactly when no node holds it. Changes nothing. */
    method Lookup(x: int) returns (t: int)
      requires Valid()
      ensures t == NIL <==> x !in Elements()
      ensures t != NIL ==> 0 <= t < |data| && data[t] == x && t in Sequence()
    {
      t := root;
      ghost var Z: seq<Frame> := [];
      ghost var S := shape;
      while t != NIL
        invariant shape == Plug(Z, S) && Fits(data, Z, x)
        invariant (t == NIL) == (S == Nil) && (S.Br? ==> S.id == t)
        decreases S
      {
        assert 0 <= t < |data| && left[t] == Ptr(S.l) && right[t] == Ptr(S.r) &&
               (S.l == Nil <==> left[t] == NIL) && (S.r == Nil <==> right[t] == NIL) &&
               (x == data[t] ==> x in Keys(data, shape)) &&
               (x < data[t] ==> Fits(data, [Frame(t, true, S.r)] + Z, x) &&
                                Plug([Frame(t, true, S.r)] + Z, S.l) == shape) &&
               (x > data[t] ==> Fits(data, [Frame(t, false, S.l)] + Z, x) &&
                                Plug([Frame(t, false, S.l)] + Z, S.r) == shape) by {
          Descend(left, right, parent, data, Z, S, root, x);
        }
        if x < data[t] {
          Z, S, t := [Frame(t, true, S.r)] + Z, S.l, left[t];
        } else if x > data[t] {
          Z, S, t := [Frame(t, false, S.l)] + Z, S.r, right[t];
        } else {
          assert t in Sequence() by {
            InOrderPlug(Z, S);
          }
          return;
        }
      }
      assert x !in Elements() by {
        FitsKeys(data, Z, S, x);
        assert KeysOf(data, []) == {};
      }
    }

    /** leftdown(t): from the root of the subtree `S` (NIL when it is
     *  empty), follows left links to its leftmost node, the first of its
     *  nodes in key order. */
    method LeftDown(t: int, ghost Z: seq<Frame>, ghost S: Tree) returns (r: int)
      requires Linked() && shape == Plug(Z, S) && t == Ptr(S)
      ensures r == First(InOrder(S))
    {
      if t == NIL {
        assert S == Nil by {
          HoleLocal(left, right, parent, Z, S, root);
        }
        return NIL;
      }
      r := t;
      ghost var Zc, Sc := Z, S;
      assert 0 <= r < |left| && left[r] == Ptr(Sc.l) && (Sc.l == Nil <==> left[r] == NIL) by {
        Children(left, right, parent, Zc, Sc, root);
      }
      while left[r] != NIL
        invariant shape == Plug(Zc, Sc) && Sc.Br? && Sc.id == r
        invariant 0 <= r < |left| && left[r] == Ptr(Sc.l) && (Sc.l == Nil <==> left[r] == NIL)
        invariant First(InOrder(Sc)) == First(InOrder(S))
        decreases Sc
      {
        assert |InOrder(Sc.l)| > 0;
        Zc, Sc, r := [Frame(r, true, Sc.r)] + Zc, Sc.l, left[r];
        assert 0 <= r < |left| && left[r] == Ptr(Sc.l) && (Sc.l == Nil <==> left[r] == NIL) by {
          Children(left, right, parent, Zc, Sc, root);
        }
      }
    }

    /** leftup(t): from the root of `S`, climbs while the current node is
     *  a right child; the parent then reached is the first node after the
     *  hole of `Z` in key order (NIL at the top). */
    method LeftUp(t: int, ghost Z: seq<Frame>, ghost S: Tree) returns (r: int)
      requires Linked() && shape == Plug(Z, S) && S.Br? && S.id == t
      ensures r == First(After(Z))
    {
      var u := t;
      ghost var Zc, Sc := Z, S;
      assert InArena(left, right, parent, u) && parent[u] == Up(Zc, NIL) &&
             Site(left, right, parent, Zc, u, root) by {
        Children(left, right, parent, Zc, Sc, root);
      }
      while parent[u] != NIL && left[parent[u]] != u
        invariant shape == Plug(Zc, Sc) && Sc.Br? && Sc.id == u
        invariant InArena(left, right, parent, u) && parent[u] == Up(Zc, NIL)
        invariant Site(left, right, parent, Zc, u, root)
        invariant First(After(Zc)) == First(After(Z))
        decreases |Zc|
      {
        assert After(Zc) == After(Zc[1..]);
        Zc, Sc, u := Zc[1..], Attach(Zc[0], Sc), parent[u];
        assert InArena(left, right, parent, u) && parent[u] == Up(Zc, NIL) &&
               Site(left, right, parent, Zc, u, root) by {
          Children(left, right, parent, Zc, Sc, root);
        }
      }
      r := parent[u];
    }

    /** advance() of the cursor at node `t`: the leftmost node of the right
     *  subtree when there is one, else the node leftup reaches. That is the
     *  next node in key order, which holds the next larger key, or NIL
     *  (the end) after the largest; the end stays the end. */
    method Advance(t: int) returns (r: int)
      requires Valid() && (t == NIL || t in Sequence())
      ensures t == NIL ==> r == NIL
      ensures t != NIL ==> r == Next(Sequence(), t)
      ensures t != NIL && r != NIL ==>
                r in Sequence() && data[t] < data[r] &&
                forall u :: u in Sequence() ==> !(data[t] < data[u] < data[r])
      ensures t != NIL && r == NIL ==> forall u :: u in Sequence() ==> data[u] <= data[t]
    {
      if t == NIL {
        return NIL;
      }
      assert t in Ids(shape) by {
        IdsInOrder(shape);
      }
      ghost var Z, S := Locate(shape, t);
      assert InArena(left, right, parent, t) && right[t] == Ptr(S.r) && (S.r == Nil <==> right[t] == NIL) &&
             Plug([Frame(t, false, S.l)] + Z, S.r) == shape by {
        Children(left, right, parent, Z, S, root);
      }
      if right[t] != NIL {
        r := LeftDown(right[t], [Frame(t, false, S.l)] + Z, S.r);
      } else {
        r := LeftUp(t, Z, S);
      }
      assert r == Next(Sequence(), t) by {
        NextInTree(Z, S);
      }
      ghost var i :| 0 <= i < |Sequence()| && Sequence()[i] == t;
      NextKey(data, Sequence(), i);
    }

    /** begin(): the cursor at the leftmost node, the one holding the
     *  smallest key; the end when the tree is empty. */
    method Begin() returns (r: int)
      requires Valid()
      ensures r == First(Sequence())
      ensures r == NIL <==> Elements() == {}
      ensures r != NIL ==> r in Sequence() && forall u :: u in Sequence() ==> data[r] <= data[u]
    {
      assert root == Ptr(shape) by {
        RepPtr(left, right, parent, shape, root, NIL);
      }
      r := LeftDown(root, [], shape);
      KeysOfCard(data, Sequence());
      if r != NIL {
        forall u | u in Sequence()
          ensures data[r] <= data[u]
        {
          var j :| 0 <= j < |Sequence()| && Sequence()[j] == u;
          assert j == 0 || data[Sequence()[0]] < data[Sequence()[j]];
        }
      }
    }

    /** end(): the cursor past the last node, which is no node of the tree. */
    method End() returns (r: int)
      requires Valid()
      ensures r == NIL && r !in Sequence()
    {
      r := NIL;
      assert NIL !in Sequence() by {
        IdsInOrder(shape);
        HoleLocal(left, right, parent, [], shape, root);
      }
    }

    /** insert(x): a key not yet held goes into a new leaf (the root of
     *  an empty tree), the size grows by one and the tree is rebalanced
     *  with at most one rotation; a key already held changes nothing. */
    method Insert(x: int)
      requires Valid()
      modifies this
      ensures Valid() && Elements() == old(Elements()) + {x}
      ensures x in old(Elements()) ==> unchanged(this)
      ensures x !in old(Elements()) ==> size == old(size) + 1 && rotations <= old(rotations) + 1
    {
      if root == NIL {
        InsertFirst(x);
      } else {
        var n, Z := InsertAt(x);
        if n != NIL {
          size := size + 1;
          ghost var T, K := shape, Elements();
          RebalanceAfterInsert(n, Z);
          assert Ordered(data, shape) && Elements() == K && Count(shape) == Count(T) by {
            SameSequence(data, T, shape);
          }
        }
      }
    }

    /** The first branch of insert(x): in an empty tree, `root = new
     *  node(x)` makes a one-node tree and the size becomes one. */
    method InsertFirst(x: int)
      requires Valid() && root == NIL
      modifies this
      ensures Valid() && old(Elements()) == {} && Elements() == {x} && size == old(size) + 1
      ensures rotations == old(rotations)
    {
      var n := |data|;
      assert KeysOf(data, []) == {};
      FirstLeaf(left, right, parent, balance, data, x);
      data, balance, left, right, parent := data + [x], balance + [EH], left + [NIL], right + [NIL], parent + [NIL];
      root, size := n, size + 1;
      shape := Br(Nil, n, Nil);
    }

    /** handle_subtree_growth(t, p, sign): the subtree at `t`, the `sign`
     *  child of `p`, grew by one level. Returns false, having only retagged
     *  `p`, when the subtree at `p` grew too; otherwise the whole tree is
     *  balanced again after at most one (single or double) rotation. */
    method HandleSubtreeGrowth(t: int, p: int, sign: int, ghost Z: seq<Frame>, ghost S: Tree) returns (done: bool)
      requires Linked() && shape == Plug(Z, S)
      requires Z != [] && S.Br? && t == S.id && p == Z[0].pid && sign == GrowSign(Z[0])
      requires Grown(balance, Z, S) && 0 <= t < |balance| && balance[t] != EH
      modifies this
      ensures Linked() && Sequence() == old(Sequence())
      ensures data == old(data) && size == old(size)
      ensures done ==> AVL(balance, shape) && rotations <= old(rotations) + 1
      ensures !done ==> shape == old(shape) && rotations == old(rotations) &&
                        balance == old(balance)[p := sign] && Grown(balance, Z[1..], Attach(Z[0], S))
    {
      ghost var L, R, P, B := left, right, parent, balance;
      assert 0 <= p < |balance| && -1 <= balance[p] <= 1 && -1 <= balance[t] <= 1 && p != t by {
        GrowthTags(balance, Z, S);
        assert Distinct(Plug(Z, S));
      }
      var oldBalance := balance[p];
      var newBalance := AdjustBalance(oldBalance, sign);
      if oldBalance == EH {
        balance := balance[p := newBalance];
        GrowPropagates(B, Z, S);
        return false;
      }
      if newBalance == EH {
        balance := balance[p := newBalance];
        GrowAbsorbed(B, Z, S);
        return true;
      }
      assert oldBalance == sign;
      if sign * balance[t] > 0 {
        assert balance[t] == sign;
        GrowthRotate(t, p, sign, Z, S);
      } else {
        assert balance[t] == -sign;
        GrowthDoubleRotate(t, p, sign, Z, S);
      }
      return true;
    }

    /** The single-rotation branch of handle_subtree_growth: `p` and `t`
     *  both lean toward `sign`; rotate(p, -sign), then both tags become EH. */
    method GrowthRotate(t: int, p: int, sign: int, ghost Z: seq<Frame>, ghost S: Tree)
      requires Linked() && shape == Plug(Z, S)
      requires Z != [] && S.Br? && t == S.id && p == Z[0].pid && sign == GrowSign(Z[0])
      requires Grown(balance, Z, S) && 0 <= p < |balance| && 0 <= t < |balance| && p != t
      requires balance[p] == sign && balance[t] == sign
      modifies this
      ensures Linked() && Sequence() == old(Sequence()) && AVL(balance, shape)
      ensures data == old(data) && size == old(size) && rotations == old(rotations) + 1
    {
      ghost var B := balance;
      ghost var T := Plug(Z[1..], Rotated(Attach(Z[0], S), -sign));
      assert RotateReady(left, right, parent, p, -sign) &&
             var k := Rotation(left, right, parent, root, p, -sign);
             Rep(k.0, k.1, k.2, T, k.3, NIL) && Distinct(T) &&
             InOrder(T) == InOrder(shape) && AVL(B[p := EH][t := EH], T) by {
        GrowthRotation(left, right, parent, balance, Z, S, root, t, p, sign);
      }
      Rotate(p, -sign);
      var tags := balance;
      tags := tags[p := AdjustBalance(tags[p], -sign)];
      tags := tags[t := AdjustBalance(tags[t], -sign)];
      assert tags == B[p := EH][t := EH];
      balance, shape := tags, T;
    }

    /** The double-rotation branch of handle_subtree_growth: `p` leans
     *  toward `sign` and `t` away from it; double_rotate(t, p, -sign) sets
     *  the three tags. */
    method GrowthDoubleRotate(t: int, p: int, sign: int, ghost Z: seq<Frame>, ghost S: Tree)
      requires Linked() && shape == Plug(Z, S)
      requires Z != [] && S.Br? && t == S.id && p == Z[0].pid && sign == GrowSign(Z[0])
      requires Grown(balance, Z, S) && 0 <= p < |balance| && 0 <= t < |balance|
      requires balance[p] == sign && balance[t] == -sign
      modifies this
      ensures Linked() && Sequence() == old(Sequence()) && AVL(balance, shape)
      ensures data == old(data) && size == old(size) && rotations == old(rotations) + 1
    {
      ghost var L, R, B := left, right, balance;
      ghost var T := Plug(Z[1..], DoubleRotated(Attach(Z[0], S), -sign));
      assert DoubleRotateReady(left, right, parent, t, p, -sign) &&
             var k := DoubleRotation(left, right, parent, root, t, p, -sign);
             Rep(k.0, k.1, k.2, T, k.3, NIL) && Distinct(T) && InOrder(T) == InOrder(shape) &&
             AVL(DoubleTags(B, p, t, ChildOf(L, R, t, -sign), -sign), T) by {
        GrowthDoubleRotation(left, right, parent, balance, Z, S, root, t, p, sign);
      }
      var e := DoubleRotate(t, p, -sign);
      shape := T;
    }

    /** rebalance_after_insert(t): the fresh leaf `t` sits in the hole of
     *  `Z`, whose tags still describe the tree without it. Walks up,
     *  retagging, until a subtree stops growing or one rotation restores
     *  the balance; the whole tree is AVL afterwards. */
    method RebalanceAfterInsert(n: int, ghost Z: seq<Frame>)
      requires Linked() && shape == Plug(Z, Br(Nil, n, Nil))
      requires 0 <= n < |balance| && balance[n] == EH && CtxAVL(balance, Z, -1)
      modifies this
      ensures Linked() && AVL(balance, shape) && Sequence() == old(Sequence())
      ensures data == old(data) && size == old(size) && rotations <= old(rotations) + 1
    {
      var t := n;
      ghost var leaf := Br(Nil, t, Nil);
      assert Site(left, right, parent, Z, t, root) && parent[t] == Up(Z, NIL) &&
             (Z == [] ==> AVL(balance, shape)) by {
        SiteOf(left, right, parent, Z, leaf, root);
      }
      var p := parent[t];
      if p == NIL {
        return;
      }
      ghost var B := balance;
      var sign := if t == left[p] then -1 else 1;
      balance := balance[p := AdjustBalance(balance[p], sign)];
      assert balance[p] == EH ==> AVL(balance, shape) by {
        GrowFromLeaf(B, Z, t);
      }
      if balance[p] == EH {
        return;
      }
      ghost var Zc, Sc := Z[1..], Attach(Z[0], leaf);
      assert Grown(balance, Zc, Sc) by {
        GrowFromLeaf(B, Z, t);
      }
      var done := false;
      while !done
        invariant Linked() && data == old(data) && size == old(size)
        invariant !done ==> shape == Plug(Zc, Sc) && Sc.Br? && Sc.id == p && 0 <= p < |balance| &&
                            Grown(balance, Zc, Sc) && balance[p] != EH && rotations == old(rotations)
        invariant done ==> AVL(balance, shape) && rotations <= old(rotations) + 1
        invariant Sequence() == old(Sequence())
        decreases |Zc| + (if done then 0 else 1)
      {
        t := p;
        assert Site(left, right, parent, Zc, t, root) && parent[t] == Up(Zc, NIL) &&
               (Zc == [] ==> AVL(balance, shape)) by {
          SiteOf(left, right, parent, Zc, Sc, root);
        }
        p := parent[t];
        if p == NIL {
          return;
        }
        done := HandleSubtreeGrowth(t, p, if t == left[p] then -1 else 1, Zc, Sc);
        if !done {
          Zc, Sc := Zc[1..], Attach(Zc[0], Sc);
        }
      }
    }

    /** insert(t, x) from the root: descends by comparing keys and, where
     *  the search falls off the tree, hangs a new leaf holding `x`
     *  (`child(t, sign) = new node(x, t)`); returns the leaf, or NIL
     *  (changing nothing) when `x` is already present. */
    method InsertAt(x: int) returns (n: int, ghost Z: seq<Frame>)
      requires Valid() && root != NIL
      modifies this
      ensures n == NIL ==> x in old(Elements()) && unchanged(this)
      ensures n != NIL ==> x !in old(Elements()) && Elements() == old(Elements()) + {x}
      ensures n != NIL ==> data == old(data) + [x] && balance == old(balance) + [EH] &&
                           old(shape) == Plug(Z, Nil)
      ensures n != NIL ==> n == old(|data|) && Linked() && shape == Plug(Z, Br(Nil, n, Nil)) &&
                           Ordered(data, shape) && Count(shape) == old(Count(shape)) + 1 &&
                           0 <= n < |balance| && balance[n] == EH && CtxAVL(balance, Z, -1)
      ensures size == old(size) && rotations == old(rotations)
    {
      var t, c, sign := root, root, 0;
      ghost var S := shape;
      Z := [];
      while c != NIL
        invariant unchanged(this)
        invariant shape == Plug(Z, S) && Fits(data, Z, x)
        invariant (c == NIL) == (S == Nil) && (S.Br? ==> S.id == c)
        invariant S == Nil ==> Z != [] && Z[0].pid == t && sign == (if Z[0].isLeft then -1 else 1)
        decreases S
      {
        t := c;
        assert 0 <= t < |data| && left[t] == Ptr(S.l) && right[t] == Ptr(S.r) &&
               (S.l == Nil <==> left[t] == NIL) && (S.r == Nil <==> right[t] == NIL) &&
               (x == data[t] ==> x in Keys(data, shape)) &&
               (x < data[t] ==> Fits(data, [Frame(t, true, S.r)] + Z, x) &&
                                Plug([Frame(t, true, S.r)] + Z, S.l) == shape) &&
               (x > data[t] ==> Fits(data, [Frame(t, false, S.l)] + Z, x) &&
                                Plug([Frame(t, false, S.l)] + Z, S.r) == shape) by {
          Descend(left, right, parent, data, Z, S, root, x);
        }
        if x < data[t] {
          Z, S, sign, c := [Frame(t, true, S.r)] + Z, S.l, -1, left[t];
        } else if x > data[t] {
          Z, S, sign, c := [Frame(t, false, S.l)] + Z, S.r, 1, right[t];
        } else {
          return NIL, Z;
        }
      }
      ghost var T := Plug(Z, Br(Nil, |data|, Nil));
      assert 0 <= t < |left| &&
             var L2 := if sign < 0 then (left + [NIL])[t := |left|] else left + [NIL];
             var R2 := if sign < 0 then right + [NIL] else (right + [NIL])[t := |left|];
             Rep(L2, R2, parent + [t], T, root, NIL) && Distinct(T) by {
        AttachLeafLinks(left, right, parent, Z, root, sign);
      }
      assert Ordered(data + [x], T) && Keys(data + [x], T) == Keys(data, shape) + {x} &&
             x !in Keys(data, shape) && Count(T) == Count(shape) + 1 && CtxAVL(balance + [EH], Z, -1) by {
        AttachLeafKeys(balance, data, Z, x);
      }
      n := NewNode(t, sign, x);
      shape := T;
    }

    /** `child(t, sign) = new node(x, t)`: a new node holding `x`, with no
     *  children and the tag EH, becomes the `sign` child of `t`. */
    method NewNode(t: int, sign: int, x: int) returns (n: int)
      requires Arena() && 0 <= t < |left|
      modifies this
      ensures n == old(|data|) && data == old(data) + [x] && balance == old(balance) + [EH]
      ensures left == if sign < 0 then (old(left) + [NIL])[t := n] else old(left) + [NIL]
      ensures right == if sign < 0 then old(right) + [NIL] else (old(right) + [NIL])[t := n]
      ensures parent == old(parent) + [t]
      ensures root == old(root) && size == old(size) && shape == old(shape) && rotations == old(rotations)
    {
      n := |data|;
      var l, r := left + [NIL], right + [NIL];
      if sign < 0 {
        l := l[t := n];
      } else {
        r := r[t := n];
      }
      data, balance, left, right, parent := data + [x], balance + [EH], l, r, parent + [t];
    }
  

    // -------------------------------------------------------------------
    // Removal

    /** handle_subtree_shrink(p, sign): the subtree on the `sign` side of
     *  `p` (+1 left, -1 right) lost one level, so the tags of `Z` still
     *  describe the old height. Retags `p`, rotating when `p` already
     *  leaned the other way. Returns NIL once the whole tree is balanced,
     *  which happens only when `p` was EH, when a single rotation found the
     *  taller child EH, or at the root; otherwise returns the parent of the
     *  lowered subtree and sets `leftDeleted` to the side that lost a level
     *  there. */
    method HandleSubtreeShrink(p: int, sign: int, ghost Z: seq<Frame>, ghost C: Tree)
      returns (q: int, leftDeleted: bool, ghost Z2: seq<Frame>, ghost C2: Tree)
      requires Linked() && shape == Plug(Z, C)
      requires Z != [] && p == Z[0].pid && sign == ShrinkSign(Z[0]) && Shrunk(balance, Z, C)
      modifies this
      ensures Linked() && Sequence() == old(Sequence())
      ensures data == old(data) && size == old(size)
      ensures q == NIL ==> AVL(balance, shape)
      ensures q == NIL ==> old(balance)[p] == EH || |Z| == 1 ||
                           (Z[0].sib.Br? && 0 <= Z[0].sib.id < |old(balance)| && old(balance)[Z[0].sib.id] == EH)
      ensures q != NIL ==> Z2 != [] && |Z2| < |Z| && shape == Plug(Z2, C2) && q == Z2[0].pid &&
                           leftDeleted == Z2[0].isLeft && Shrunk(balance, Z2, C2)
    {
      ghost var B := balance;
      assert 0 <= p < |balance| && -1 <= balance[p] <= 1 by {
        CtxHead(balance, Z, Height(C) + 1);
      }
      leftDeleted := false;
      var oldBalance := balance[p];
      var newBalance := AdjustBalance(oldBalance, sign);
      if oldBalance == EH {
        balance := balance[p := newBalance];
        ShrinkAbsorbed(B, Z, C);
        return NIL, false, Z, C;
      }
      var t: int;
      if newBalance == EH {
        balance := balance[p := newBalance];
        ShrinkPropagates(B, Z, C);
        t := p;
        Z2, C2 := Z[1..], Attach(Z[0], C);
      } else {
        assert Z[0].sib.Br? && ChildOf(left, right, p, sign) == Z[0].sib.id &&
               0 <= Z[0].sib.id < |balance| && -1 <= balance[Z[0].sib.id] <= 1 && p != Z[0].sib.id by {
          ShrinkChild(left, right, parent, balance, Z, C, root);
        }
        t := ChildOf(left, right, p, sign);
        if sign * balance[t] >= 0 {
          var stop;
          stop, C2 := ShrinkRotate(p, t, sign, Z, C);
          if stop {
            return NIL, false, Z, C;
          }
        } else {
          t, C2 := ShrinkDoubleRotate(p, t, sign, Z, C);
        }
        Z2 := Z[1..];
      }
      assert Site(left, right, parent, Z2, t, root) && parent[t] == Up(Z2, NIL) by {
        SiteOf(left, right, parent, Z2, C2, root);
      }
      q := parent[t];
      if q != NIL {
        leftDeleted := t == left[q];
      }
    }

    /** The single-rotation branch of handle_subtree_shrink: the taller
     *  child `t` of `p` leans toward its own side or is EH; rotate(p, -sign).
     *  When `t` was EH only its tag changes and the height is kept, so the
     *  walk stops; otherwise both tags become EH and the subtree, now
     *  rooted at `t`, is one level lower. */
    method ShrinkRotate(p: int, t: int, sign: int, ghost Z: seq<Frame>, ghost C: Tree)
      returns (stop: bool, ghost N: Tree)
      requires Linked() && shape == Plug(Z, C)
      requires Z != [] && p == Z[0].pid && sign == ShrinkSign(Z[0]) && Shrunk(balance, Z, C)
      requires 0 <= p < |balance| && balance[p] == sign
      requires Z[0].sib.Br? && t == Z[0].sib.id && 0 <= t < |balance| && t != p
      requires balance[t] == sign || balance[t] == EH
      modifies this
      ensures Linked() && Sequence() == old(Sequence()) && data == old(data) && size == old(size)
      ensures stop <==> old(balance)[t] == EH
      ensures stop ==> AVL(balance, shape)
      ensures !stop ==> N.Br? && N.id == t && shape == Plug(Z[1..], N) && Shrunk(balance, Z[1..], N)
    {
      ghost var B := balance;
      ghost var N0 := Rotated(Attach(Z[0], C), -sign);
      ghost var T := Plug(Z[1..], N0);
      assert RotateReady(left, right, parent, p, -sign) &&
             var k := Rotation(left, right, parent, root, p, -sign);
             Rep(k.0, k.1, k.2, T, k.3, NIL) && Distinct(T) && InOrder(T) == InOrder(shape) &&
             N0.Br? && N0.id == t &&
             (B[t] == EH ==> AVL(B[t := -sign], T)) &&
             (B[t] == sign ==> Shrunk(B[p := EH][t := EH], Z[1..], N0)) by {
        ShrinkRotation(left, right, parent, balance, Z, C, root, p, t, sign);
      }
      Rotate(p, -sign);
      shape, N := T, N0;
      var tags := balance;
      stop := tags[t] == EH;
      if stop {
        tags := tags[t := AdjustBalance(tags[t], -sign)];
        assert tags == B[t := -sign];
      } else {
        tags := tags[p := AdjustBalance(tags[p], -sign)];
        tags := tags[t := AdjustBalance(tags[t], -sign)];
        assert tags == B[p := EH][t := EH];
      }
      balance := tags;
    }

    /** The double-rotation branch of handle_subtree_shrink: the taller
     *  child `t` of `p` leans toward p's shrunk side; double_rotate(t, p,
     *  -sign) sets the three tags and returns the new subtree root, one
     *  level lower than before. */
    method ShrinkDoubleRotate(p: int, t: int, sign: int, ghost Z: seq<Frame>, ghost C: Tree)
      returns (e: int, ghost N: Tree)
      requires Linked() && shape == Plug(Z, C)
      requires Z != [] && p == Z[0].pid && sign == ShrinkSign(Z[0]) && Shrunk(balance, Z, C)
      requires 0 <= p < |balance| && balance[p] == sign
      requires Z[0].sib.Br? && t == Z[0].sib.id && 0 <= t < |balance| && balance[t] == -sign
      modifies this
      ensures Linked() && Sequence() == old(Sequence()) && data == old(data) && size == old(size)
      ensures N.Br? && N.id == e && shape == Plug(Z[1..], N) && Shrunk(balance, Z[1..], N)
    {
      ghost var N0 := DoubleRotated(Attach(Z[0], C), -sign);
      ghost var T := Plug(Z[1..], N0);
      ShrinkDoubleRotation(left, right, parent, balance, Z, C, root, p, t, sign);
      e := DoubleRotate(t, p, -sign);
      shape, N := T, N0;
    }

    /** remove(x): when a node holds `x`, unlinks it, rebalances, and the
     *  size drops by one; otherwise nothing changes and the answer is
     *  false. */
    method Remove(x: int) returns (found: bool)
      requires Valid()
      modifies this
      ensures Valid() && Elements() == old(Elements()) - {x}
      ensures found <==> x in old(Elements())
      ensures found ==> size == old(size) - 1
      ensures !found ==> unchanged(this)
    {
      var t := Lookup(x);
      if t == NIL {
        return false;
      }
      ghost var T := shape;
      RemoveNode(t);
      size := size - 1;
      EraseKeys(data, T, shape, t);
      return true;
    }

    /** remove(i) of the cursor at node `t`: the node's key leaves the
     *  tree and the size drops by one. */
    method RemoveAt(t: int)
      requires Valid() && 0 <= t < |data| && t in Sequence()
      modifies this
      ensures Valid() && Elements() == old(Elements()) - {old(data[t])} && data == old(data)
      ensures old(data[t]) in old(Elements()) && size == old(size) - 1
    {
      ghost var T := shape;
      assert data[t] in Elements() by {
        var i :| 0 <= i < |Sequence()| && Sequence()[i] == t;
        KeysOfIndex(data, Sequence(), i);
      }
      RemoveNode(t);
      size := size - 1;
      EraseKeys(data, T, shape, t);
    }

    /** remove(t) on the links: a node with two children first trades
     *  places with its in-order successor (swap_with_successor); a node
     *  with at most one child is unlinked, and when it was the root the
     *  work ends there. Then handle_subtree_shrink walks up until it
     *  reports the tree balanced. */
    method RemoveNode(t: int)
      requires Linked() && AVL(balance, shape) && t in Sequence()
      modifies this
      ensures Linked() && AVL(balance, shape) && Sequence() == Erase(old(Sequence()), t)
      ensures data == old(data) && size == old(size)
    {
      assert t in Ids(shape) by {
        IdsInOrder(shape);
      }
      ghost var Z, S := Locate(shape, t);
      assert InArena(left, right, parent, t) && left[t] == Ptr(S.l) && right[t] == Ptr(S.r) &&
             (S.l == Nil <==> left[t] == NIL) && (S.r == Nil <==> right[t] == NIL) by {
        Children(left, right, parent, Z, S, root);
      }
      var p: int;
      var leftDeleted: bool;
      ghost var Zs: seq<Frame>, Cs: Tree;
      if left[t] != NIL && right[t] != NIL {
        p, leftDeleted, Zs, Cs := SwapWithSuccessor(t, Z, S);
      } else {
        ghost var B := balance;
        ghost var C := if S.l.Br? then S.l else S.r;
        UnlinkLinks(left, right, parent, Z, S, root);
        UnlinkKeeps(balance, Z, S);
        p, leftDeleted := Unlink(t);
        shape := Plug(Z, C);
        if p == NIL {
          return;
        }
        Zs, Cs := Z, C;
      }
      while p != NIL
        invariant Linked() && data == old(data) && size == old(size)
        invariant Sequence() == Erase(old(Sequence()), t)
        invariant p == NIL ==> AVL(balance, shape)
        invariant p != NIL ==> Zs != [] && shape == Plug(Zs, Cs) && p == Zs[0].pid &&
                               leftDeleted == Zs[0].isLeft && Shrunk(balance, Zs, Cs)
        decreases if p != NIL then |Zs| + 1 else 0
      {
        p, leftDeleted, Zs, Cs := HandleSubtreeShrink(p, if leftDeleted then 1 else -1, Zs, Cs);
      }
    }

    /** The branch of remove(t) for a node with at most one child: the
     *  child, possibly null, takes t's place under t's parent `p`, or
     *  becomes the root. Returns `p` and whether `t` was its left child. */
    method Unlink(t: int) returns (p: int, leftDeleted: bool)
      requires Arena() && 0 <= t < |left|
      requires Slot(parent[t], |left|) && Slot(left[t], |left|) && Slot(right[t], |left|)
      modifies this
      ensures p == old(parent[t]) && (leftDeleted <==> p != NIL && old(left)[p] == t)
      ensures (left, right, parent, root) == Unlinked(old(left), old(right), old(parent), old(root), t)
      ensures data == old(data) && balance == old(balance) && size == old(size)
      ensures shape == old(shape) && rotations == old(rotations)
    {
      var child := if left[t] != NIL then left[t] else right[t];
      p := parent[t];
      leftDeleted := false;
      if p != NIL {
        if t == left[p] {
          left := left[p := child];
          leftDeleted := true;
        } else {
          right := right[p := child];
        }
        if child != NIL {
          parent := parent[child := p];
        }
      } else {
        if child != NIL {
          parent := parent[child := p];
        }
        root := child;
      }
    }

    /** swap_with_successor(X) for a node `x` with two children: its
     *  in-order successor Y, the leftmost node of its right subtree, takes
     *  x's place, x's left subtree, x's parent and x's tag, and x leaves the
     *  tree. Returns the node whose subtree on side `leftDeleted` lost a
     *  level (Y itself when Y was x's right child, else Y's old parent Q),
     *  with the tags still those of before. */
    method SwapWithSuccessor(x: int, ghost Z: seq<Frame>, ghost S: Tree)
      returns (ret: int, leftDeleted: bool, ghost Z2: seq<Frame>, ghost C2: Tree)
      requires Linked() && AVL(balance, shape) && shape == Plug(Z, S)
      requires S.Br? && S.id == x && S.l.Br? && S.r.Br? && 0 <= x < |balance|
      modifies this
      ensures Linked() && Sequence() == Erase(old(Sequence()), x)
      ensures data == old(data) && size == old(size)
      ensures Z2 != [] && shape == Plug(Z2, C2) && ret == Z2[0].pid && leftDeleted == Z2[0].isLeft
      ensures Shrunk(balance, Z2, C2)
      ensures var y := Next(old(Sequence()), x);
              0 <= y < |balance| && balance[y] == old(balance)[x] &&
              left[y] == old(left)[x] && parent[y] == old(parent)[x]
    {
      ghost var B := balance;
      ghost var A := S.l;
      ghost var W: seq<Frame> := [];
      ghost var Y := S.r;
      assert InArena(left, right, parent, x) && left[x] == Ptr(A) && right[x] == Ptr(Y) &&
             parent[x] == Up(Z, NIL) by {
        Children(left, right, parent, Z, S, root);
      }
      var y := right[x];
      SuccessorStep(left, right, parent, Z, A, x, W, Y, root);
      if left[y] == NIL {
        PromoteSuccessor(x, y, Z, A, Y);
        ret, leftDeleted := y, false;
      } else {
        var q := y;
        W, Y, y := [Frame(q, true, Y.r)] + W, Y.l, left[y];
        SuccessorStep(left, right, parent, Z, A, x, W, Y, root);
        while left[y] != NIL
          invariant unchanged(this)
          invariant shape == Plug(Z, Br(A, x, Plug(W, Y))) && Y.Br? && Y.id == y
          invariant W != [] && LeftSpine(W) && q == W[0].pid
          invariant Plug([Frame(y, true, Y.r)] + W, Y.l) == Plug(W, Y) && LeftSpine([Frame(y, true, Y.r)] + W)
          invariant InArena(left, right, parent, y) && left[y] == Ptr(Y.l) && (Y.l.Nil? <==> left[y] == NIL)
          decreases Y
        {
          q := y;
          W, Y, y := [Frame(q, true, Y.r)] + W, Y.l, left[y];
          SuccessorStep(left, right, parent, Z, A, x, W, Y, root);
        }
        SpliceSuccessor(x, q, y, Z, A, W, Y);
        ret, leftDeleted := q, true;
      }
      SwapKeeps(B, Z, A, x, W, Y);
      Z2, C2 := W + [Frame(y, false, A)] + Z, Y.r;
      assert Z2[0] == if W == [] then Frame(y, false, A) else W[0];
    }

    /** swap_with_successor(X) when the successor Y is X's right child:
     *  Y keeps its right subtree and takes X's place, X's left subtree
     *  and X's tag. */
    method PromoteSuccessor(x: int, y: int, ghost Z: seq<Frame>, ghost A: Tree, ghost Y: Tree)
      requires Linked() && shape == Plug(Z, Br(A, x, Y)) && A.Br? && Y.Br? && Y.id == y && Y.l.Nil?
      requires 0 <= x < |balance| && 0 <= y < |balance|
      modifies this
      ensures Linked() && shape == Plug(Z, Br(A, y, Y.r))
      ensures balance == old(balance)[y := old(balance)[x]] && data == old(data) && size == old(size)
      ensures left[y] == Ptr(A) && parent[y] == Up(Z, NIL)
    {
      SwapNextLinks(left, right, parent, Z, A, x, Y, root);
      MoveSuccessor(x, y);
      shape := Plug(Z, Br(A, y, Y.r));
      Children(left, right, parent, Z, Br(A, y, Y.r), root);
    }

    /** swap_with_successor(X) when the successor Y lies deeper, as the
     *  left child of Q at the bottom of the left spine W of X's right
     *  subtree: Y's right subtree moves up to Q's left
     *  (`Q->left = Y->right`), then Y takes X's place with both of X's
     *  subtrees and X's tag. */
    method SpliceSuccessor(x: int, q: int, y: int, ghost Z: seq<Frame>, ghost A: Tree,
                           ghost W: seq<Frame>, ghost Y: Tree)
      requires Linked() && shape == Plug(Z, Br(A, x, Plug(W, Y)))
      requires A.Br? && Y.Br? && Y.id == y && Y.l.Nil? && W != [] && LeftSpine(W) && q == W[0].pid
      requires 0 <= x < |balance| && 0 <= y < |balance|
      modifies this
      ensures Linked() && shape == Plug(Z, Br(A, y, Plug(W, Y.r)))
      ensures balance == old(balance)[y := old(balance)[x]] && data == old(data) && size == old(size)
      ensures left[y] == Ptr(A) && parent[y] == Up(Z, NIL)
    {
      ghost var Zy := W + ([Frame(x, false, A)] + Z);
      ghost var L, R, P := left, right, parent;
      SpinePlug(Z, A, x, W, Y);
      SpinePlug(Z, A, x, W, Y.r);
      UnlinkLinks(left, right, parent, Zy, Y, root);
      assert Zy[0] == W[0] && W[0].isLeft;
      assert parent[y] == q && left[q] == y && left[y] == NIL;
      left := left[q := right[y]];
      if left[q] != NIL {
        parent := parent[left[q] := q];
      }
      assert (left, right, parent, root) == Unlinked(L, R, P, root, y);
      shape := Plug(Zy, Y.r);
      PlugBr(W, Y.r);
      SwapDeepLinks(left, right, parent, Z, A, x, Plug(W, Y.r), y, root);
      AdoptRight(x, y);
      MoveSuccessor(x, y);
      shape := Plug(Z, Br(A, y, Plug(W, Y.r)));
      Children(left, right, parent, Z, Br(A, y, Plug(W, Y.r)), root);
    }

    /** The part of swap_with_successor(X) only the deeper case does, once
     *  Y is unlinked from under Q: `Y->right = X->right` and
     *  `X->right->parent = Y`. */
    method AdoptRight(x: int, y: int)
      requires Arena() && 0 <= x < |left| && 0 <= y < |left| && x != y && 0 <= right[x] < |left|
      modifies this
      ensures right == old(right)[y := old(right)[x]] && parent == old(parent)[old(right)[x] := y]
      ensures left == old(left) && root == old(root) && data == old(data) && balance == old(balance)
      ensures size == old(size) && shape == old(shape) && rotations == old(rotations)
    {
      right := right[y := right[x]];
      parent := parent[right[x] := y];
    }

    /** The end of swap_with_successor(X): the successor `y` takes X's
     *  left subtree, X's tag and X's parent, and replace_child(X->parent,
     *  X, Y) puts it in X's place. */
    method MoveSuccessor(x: int, y: int)
      requires Arena() && 0 <= x < |left| && 0 <= y < |left| && x != y
      requires 0 <= left[x] < |left| && left[x] != x && Slot(parent[x], |left|)
      modifies this
      ensures (left, right, parent, root) == TakeOver(old(left), old(right), old(parent), old(root), x, y)
      ensures balance == old(balance)[y := old(balance)[x]]
      ensures data == old(data) && size == old(size) && shape == old(shape) && rotations == old(rotations)
    {
      left := left[y := left[x]];
      parent := parent[left[x] := y];
      balance := balance[y := balance[x]];
      parent := parent[y := parent[x]];
      var k := ReplaceChild(left, right, root, parent[x], x, y);
      left, right, root := k.0, k.1, k.2;
    }
  }
}
