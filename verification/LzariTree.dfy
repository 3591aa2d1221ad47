/** Search trees stored in three arrays, seen as values: a tree, a tree with a hole,
    and the array contents that represent them. */
module LzariTree {
  import opened Buffers
  import opened LzariModel
  import opened LzariCode

  const NIL := 4096  // N

  // ---------- strings and their order

  /** The window with its mirrored tail. */
  predicate IsText(text: seq<Byte>) {
    |text| == N + F - 1
  }

  type Str = s: seq<Byte> | |s| == F witness seq(F, _ => 0)

  /** The F bytes that a position of the window stands for. */
  function StrAt(text: seq<Byte>, a: nat): (s: Str)
    requires IsText(text) && a < N
  {
    text[a..a + F]
  }

  /** Length of the common prefix. */
  function Lcp(u: Str, v: Str): (n: nat)
    ensures n <= F && u[..n] == v[..n]
    ensures n < F ==> u[n] != v[n]
  {
    LcpFrom(u, v, 0)
  }

  function LcpFrom(u: Str, v: Str, i: nat): (n: nat)
    requires i <= F && u[..i] == v[..i]
    ensures i <= n <= F && u[..n] == v[..n]
    ensures n < F ==> u[n] != v[n]
    decreases F - i
  {
    if i < F && u[i] == v[i] then
      assert u[..i + 1] == u[..i] + [u[i]] && v[..i + 1] == v[..i] + [v[i]];
      LcpFrom(u, v, i + 1)
    else i
  }

  predicate Less(u: Str, v: Str) {
    var n := Lcp(u, v);
    n < F && u[n] < v[n]
  }

  lemma LcpIs(u: Str, v: Str, n: nat)
    requires n <= F && u[..n] == v[..n]
    requires n < F ==> u[n] != v[n]
    ensures Lcp(u, v) == n
  {
    var m := Lcp(u, v);
  }

  lemma LcpSymmetric(u: Str, v: Str)
    ensures Lcp(u, v) == Lcp(v, u)
  {
    LcpIs(v, u, Lcp(u, v));
  }

  lemma LessTotal(u: Str, v: Str)
    ensures Less(u, v) || Less(v, u) || Lcp(u, v) == F
    ensures !(Less(u, v) && Less(v, u))
    ensures Less(u, v) ==> Lcp(u, v) < F
  {
    LcpSymmetric(u, v);
  }

  /** The order is transitive, and the outer strings share no more than the inner ones. */
  lemma LessTransitive(u: Str, v: Str, w: Str)
    requires Less(u, v) && Less(v, w)
    ensures Less(u, w)
    ensures Lcp(u, w) <= Lcp(u, v) && Lcp(u, w) <= Lcp(v, w)
  {
    var i, j := Lcp(u, v), Lcp(v, w);
    var n := if i <= j then i else j;
    assert u[..n] == u[..i][..n] == v[..n];
    assert w[..n] == w[..j][..n] == v[..j][..n] == v[..n];
    assert i < j ==> v[i] == v[..j][i] == w[..j][i] == w[i];
    assert j < i ==> u[j] == u[..i][j] == v[..i][j] == v[j];
    LcpIs(u, w, n);
  }

  // ---------- trees and holes

  datatype Tree = Leaf | Node(left: Tree, pos: nat, right: Tree)

  function InOrder(t: Tree): seq<nat> {
    match t
    case Leaf => []
    case Node(l, x, r) => InOrder(l) + [x] + InOrder(r)
  }

  /** A tree with one subtree missing, seen from the missing subtree upwards. */
  datatype Hole = Top | InLeft(up: Hole, pos: nat, right: Tree) | InRight(up: Hole, left: Tree, pos: nat)

  function Plug(h: Hole, t: Tree): Tree {
    match h
    case Top => t
    case InLeft(up, x, r) => Plug(up, Node(t, x, r))
    case InRight(up, l, x) => Plug(up, Node(l, x, t))
  }

  /** The nodes before the hole. */
  function Before(h: Hole): seq<nat> {
    match h
    case Top => []
    case InLeft(up, _, _) => Before(up)
    case InRight(up, l, x) => Before(up) + InOrder(l) + [x]
  }

  /** The nodes after the hole. */
  function Behind(h: Hole): seq<nat> {
    match h
    case Top => []
    case InLeft(up, x, r) => [x] + InOrder(r) + Behind(up)
    case InRight(up, _, _) => Behind(up)
  }

  lemma {:induction false} PlugInOrder(h: Hole, t: Tree)
    ensures InOrder(Plug(h, t)) == Before(h) + InOrder(t) + Behind(h)
  {
    match h
    case Top =>
    case InLeft(up, x, r) => PlugInOrder(up, Node(t, x, r));
    case InRight(up, l, x) => PlugInOrder(up, Node(l, x, t));
  }

  /** Every node of a tree sits in some hole. */
  lemma {:induction false} Locate(h0: Hole, t: Tree, p: nat) returns (h: Hole, l: Tree, r: Tree)
    requires p in InOrder(t)
    ensures Plug(h0, t) == Plug(h, Node(l, p, r))
    decreases t
  {
    if t.pos == p {
      h, l, r := h0, t.left, t.right;
    } else if p in InOrder(t.left) {
      h, l, r := Locate(InLeft(h0, t.pos, t.right), t.left, p);
    } else {
      h, l, r := Locate(InRight(h0, t.left, t.pos), t.right, p);
    }
  }

  // ---------- representation in arrays

  datatype Links = Links(lson: seq<nat>, rson: seq<nat>, dad: seq<nat>)

  predicate IsLinks(k: Links) {
    |k.lson| == N + 1 && |k.rson| == N + 257 && |k.dad| == N + 1
  }

  /** The arrays hold t below ptr, with parent as its father. */
  predicate Linked(k: Links, t: Tree, ptr: nat, parent: nat)
    requires IsLinks(k)
  {
    match t
    case Leaf => ptr == NIL
    case Node(l, x, r) =>
      && ptr == x < N
      && k.dad[x] == parent
      && Linked(k, l, k.lson[x], x)
      && Linked(k, r, k.rson[x], x)
  }

  /** The father of whatever fills the hole; root stands for the tree's own root slot. */
  function Father(h: Hole, root: nat): nat {
    match h
    case Top => root
    case InLeft(_, x, _) => x
    case InRight(_, _, x) => x
  }

  predicate IsRoot(root: nat) {
    N + 1 <= root <= N + 256
  }

  predicate FatherOk(h: Hole) {
    h.Top? || h.pos < N
  }

  /** The pointer stored where the hole is. */
  function Slot(k: Links, h: Hole, root: nat): nat
    requires IsLinks(k) && IsRoot(root) && FatherOk(h)
  {
    match h
    case Top => k.rson[root]
    case InLeft(_, x, _) => k.lson[x]
    case InRight(_, _, x) => k.rson[x]
  }

  predicate LinkedHole(k: Links, h: Hole, root: nat)
    requires IsLinks(k) && IsRoot(root)
  {
    match h
    case Top => true
    case InLeft(up, x, r) =>
      && x < N && FatherOk(up)
      && Slot(k, up, root) == x && k.dad[x] == Father(up, root)
      && Linked(k, r, k.rson[x], x)
      && LinkedHole(k, up, root)
    case InRight(up, l, x) =>
      && x < N && FatherOk(up)
      && Slot(k, up, root) == x && k.dad[x] == Father(up, root)
      && Linked(k, l, k.lson[x], x)
      && LinkedHole(k, up, root)
  }

  lemma {:induction false} LinkedPlug(k: Links, h: Hole, t: Tree, root: nat)
    requires IsLinks(k) && IsRoot(root)
    ensures Linked(k, Plug(h, t), k.rson[root], root) <==>
            (FatherOk(h) && LinkedHole(k, h, root) && Linked(k, t, Slot(k, h, root), Father(h, root)))
  {
    match h
    case Top =>
    case InLeft(up, x, r) => LinkedPlug(k, up, Node(t, x, r), root);
    case InRight(up, l, x) => LinkedPlug(k, up, Node(l, x, t), root);
  }

  /** The two array contents agree at node y. */
  predicate Same(k: Links, k': Links, y: nat)
    requires IsLinks(k) && IsLinks(k')
  {
    y < N && k.lson[y] == k'.lson[y] && k.rson[y] == k'.rson[y] && k.dad[y] == k'.dad[y]
  }

  lemma {:induction false} LinkedFrame(k: Links, k': Links, t: Tree, ptr: nat, parent: nat)
    requires IsLinks(k) && IsLinks(k')
    requires Linked(k, t, ptr, parent)
    requires forall y :: y in InOrder(t) ==> Same(k, k', y)
    ensures Linked(k', t, ptr, parent)
  {
    if t.Node? {
      assert t.pos in InOrder(t);
      LinkedFrame(k, k', t.left, k.lson[t.pos], t.pos);
      LinkedFrame(k, k', t.right, k.rson[t.pos], t.pos);
    }
  }

  predicate NoDup(s: seq<nat>) {
    forall i, j :: 0 <= i < j < |s| ==> s[i] != s[j]
  }

  lemma NoDupSplit(a: seq<nat>, b: seq<nat>)
    requires NoDup(a + b)
    ensures NoDup(a) && NoDup(b)
    ensures forall y :: y in a ==> y !in b
  {
    forall y | y in a
      ensures y !in b
    {
      var i :| 0 <= i < |a| && a[i] == y;
      forall j | 0 <= j < |b|
        ensures b[j] != y
      {
        assert (a + b)[i] != (a + b)[|a| + j];
      }
    }
    assert forall i :: 0 <= i < |a| ==> (a + b)[i] == a[i];
    assert forall i :: 0 <= i < |b| ==> (a + b)[|a| + i] == b[i];
  }

  /** Apart from the slot of the hole, k' keeps what k says about the nodes around it. */
  predicate HoleKept(k: Links, k': Links, h: Hole, root: nat)
    requires IsLinks(k) && IsLinks(k') && IsRoot(root)
  {
    && FatherOk(h)
    && (forall y :: y in Before(h) + Behind(h) && y != Father(h, root) ==> Same(k, k', y))
    && (!h.Top? ==> k.rson[root] == k'.rson[root] && k.dad[h.pos] == k'.dad[h.pos])
    && (h.InLeft? ==> k.rson[h.pos] == k'.rson[h.pos])
    && (h.InRight? ==> k.lson[h.pos] == k'.lson[h.pos])
  }

  lemma {:induction false} HoleFrame(k: Links, k': Links, h: Hole, root: nat)
    requires IsLinks(k) && IsLinks(k') && IsRoot(root)
    requires LinkedHole(k, h, root) && HoleKept(k, k', h, root)
    requires NoDup(Before(h) + Behind(h))
    ensures LinkedHole(k', h, root)
  {
    if !h.Top? {
      var x := h.pos;
      var sib := if h.InLeft? then h.right else h.left;
      HoleNodes(h);
      LinkedFrame(k, k', sib, if h.InLeft? then k.rson[x] else k.lson[x], x);
      if !h.up.Top? {
        FatherIsNode(h.up, root);
        assert Same(k, k', h.up.pos);
      }
      HoleFrame(k, k', h.up, root);
    }
  }

  lemma FatherIsNode(h: Hole, root: nat)
    requires !h.Top?
    ensures h.pos in Before(h) + Behind(h) && Father(h, root) == h.pos
  {
  }

  /** How the nodes around a hole fall into father, sibling tree and the rest. */
  lemma HoleNodes(h: Hole)
    requires !h.Top? && NoDup(Before(h) + Behind(h))
    ensures NoDup(Before(h.up) + Behind(h.up))
    ensures var sib := InOrder(if h.InLeft? then h.right else h.left);
            && (forall y :: y in sib ==> y in Before(h) + Behind(h) && y != h.pos)
            && (forall y :: y in Before(h.up) + Behind(h.up) ==> y in Before(h) + Behind(h) && y != h.pos && y !in sib)
  {
    var u, v := Before(h.up), Behind(h.up);
    var all := Before(h) + Behind(h);
    var s := InOrder(if h.InLeft? then h.right else h.left);
    var m := if h.InLeft? then [h.pos] + s else s + [h.pos];
    assert all == u + (m + v);
    NoDupSplit(u, m + v);
    NoDupSplit(m, v);
    assert forall y :: y in m <==> y == h.pos || y in s;
    assert h.pos !in s by {
      if h.InLeft? { NoDupSplit([h.pos], s); } else { NoDupSplit(s, [h.pos]); }
    }
    NoDupDrop(u, m, v);
  }

  lemma NoDupDrop(a: seq<nat>, m: seq<nat>, b: seq<nat>)
    requires NoDup(a + (m + b))
    ensures NoDup(a + b)
  {
    NoDupSplit(a, m + b);
    NoDupSplit(m, b);
    forall i, j | 0 <= i < j < |a + b|
      ensures (a + b)[i] != (a + b)[j]
    {
      if i < |a| && j >= |a| {
        assert a[i] in a && b[j - |a|] in m + b;
      }
    }
  }

  /** k' keeps the subtree t, except that its father is now parent. */
  predicate Adopted(k: Links, k': Links, t: Tree, parent: nat)
    requires IsLinks(k) && IsLinks(k')
  {
    t.Node? ==>
      && t.pos < N && k'.dad[t.pos] == parent
      && k.lson[t.pos] == k'.lson[t.pos] && k.rson[t.pos] == k'.rson[t.pos]
      && forall y :: y in InOrder(t) && y != t.pos ==> Same(k, k', y)
  }

  lemma AdoptedLinked(k: Links, k': Links, t: Tree, ptr: nat, old_parent: nat, parent: nat)
    requires IsLinks(k) && IsLinks(k') && NoDup(InOrder(t))
    requires Linked(k, t, ptr, old_parent) && Adopted(k, k', t, parent)
    ensures Linked(k', t, ptr, parent)
  {
    if t.Node? {
      var l, x, r := InOrder(t.left), t.pos, InOrder(t.right);
      assert l + [x] + r == l + ([x] + r);
      NoDupSplit(l, [x] + r);
      NoDupSplit([x], r);
      assert x in [x] + r;
      LinkedFrame(k, k', t.left, k.lson[x], x);
      LinkedFrame(k, k', t.right, k.rson[x], x);
    }
  }

  function PtrOf(t: Tree): nat {
    if t.Leaf? then NIL else t.pos
  }

  lemma NoDupHole(h: Hole, t: Tree)
    requires NoDup(InOrder(Plug(h, t)))
    ensures NoDup(Before(h) + Behind(h)) && NoDup(InOrder(t))
    ensures forall y :: y in InOrder(t) ==> y !in Before(h) + Behind(h)
  {
    PlugInOrder(h, t);
    var a, m, b := Before(h), InOrder(t), Behind(h);
    assert a + m + b == a + (m + b);
    NoDupDrop(a, m, b);
    NoDupSplit(a, m + b);
    NoDupSplit(m, b);
  }

  /** Filling the hole with another subtree: the pointers around the hole stay, the
      slot and the new subtree are as they should be. */
  lemma Refill(k: Links, k': Links, h: Hole, t: Tree, t': Tree, root: nat)
    requires IsLinks(k) && IsLinks(k') && IsRoot(root)
    requires Linked(k, Plug(h, t), k.rson[root], root) && NoDup(InOrder(Plug(h, t)))
    requires HoleKept(k, k', h, root)
    requires Linked(k', t', Slot(k', h, root), Father(h, root))
    ensures Linked(k', Plug(h, t'), k'.rson[root], root)
  {
    LinkedPlug(k, h, t, root);
    NoDupHole(h, t);
    HoleFrame(k, k', h, root);
    LinkedPlug(k', h, t', root);
  }

  /** A new leaf r in an empty hole. */
  lemma GrowLinked(k: Links, k': Links, h: Hole, r: nat, root: nat)
    requires IsLinks(k) && IsLinks(k') && IsRoot(root) && r < N
    requires Linked(k, Plug(h, Leaf), k.rson[root], root) && NoDup(InOrder(Plug(h, Leaf)))
    requires HoleKept(k, k', h, root)
    requires Slot(k', h, root) == r && k'.dad[r] == Father(h, root) && k'.lson[r] == k'.rson[r] == NIL
    ensures Linked(k', Plug(h, Node(Leaf, r, Leaf)), k'.rson[root], root)
  {
    Refill(k, k', h, Leaf, Node(Leaf, r, Leaf), root);
  }

  /** A node with one subtree is replaced by that subtree. */
  lemma SpliceLinked(k: Links, k': Links, h: Hole, t: Tree, sub: Tree, root: nat)
    requires IsLinks(k) && IsLinks(k') && IsRoot(root)
    requires Linked(k, Plug(h, t), k.rson[root], root) && NoDup(InOrder(Plug(h, t)))
    requires t.Node? && (t == Node(sub, t.pos, Leaf) || t == Node(Leaf, t.pos, sub))
    requires HoleKept(k, k', h, root) && Adopted(k, k', sub, Father(h, root))
    requires Slot(k', h, root) == PtrOf(sub)
    ensures Linked(k', Plug(h, sub), k'.rson[root], root)
  {
    hide NoDup, HoleKept, Adopted, InOrder, Plug;
    LinkedPlug(k, h, t, root);
    NoDupHole(h, t);
    SubNoDup(t, sub);
    AdoptedLinked(k, k', sub, PtrOf(sub), t.pos, Father(h, root));
    Refill(k, k', h, t, sub, root);
  }

  lemma SubNoDup(t: Tree, sub: Tree)
    requires NoDup(InOrder(t)) && t.Node? && (sub == t.left || sub == t.right)
    ensures NoDup(InOrder(sub))
  {
    hide NoDup;
    var l, x, r := InOrder(t.left), t.pos, InOrder(t.right);
    NoDupSplit(l + [x], r);
    NoDupSplit(l, [x]);
  }

  /** Node p is replaced by q, which takes over its place and its subtrees. */
  lemma RenameLinked(k: Links, k': Links, h: Hole, l: Tree, p: nat, r: Tree, q: nat, root: nat)
    requires IsLinks(k) && IsLinks(k') && IsRoot(root) && q < N
    requires Linked(k, Plug(h, Node(l, p, r)), k.rson[root], root) && NoDup(InOrder(Plug(h, Node(l, p, r))))
    requires HoleKept(k, k', h, root) && Adopted(k, k', l, q) && Adopted(k, k', r, q)
    requires Slot(k', h, root) == q && k'.dad[q] == Father(h, root)
    requires k'.lson[q] == PtrOf(l) && k'.rson[q] == PtrOf(r)
    ensures Linked(k', Plug(h, Node(l, q, r)), k'.rson[root], root)
  {
    hide NoDup, HoleKept, Adopted, InOrder, Plug;
    var t := Node(l, p, r);
    LinkedPlug(k, h, t, root);
    NoDupHole(h, t);
    SubNoDup(t, l);
    SubNoDup(t, r);
    AdoptedLinked(k, k', l, PtrOf(l), p, q);
    AdoptedLinked(k, k', r, PtrOf(r), p, q);
    Refill(k, k', h, t, Node(l, q, r), root);
  }
}
