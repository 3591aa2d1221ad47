/** The 256 search trees over the window: a value-level invariant and what each
    change of the arrays does to it. */
module LzariIndex {
  import opened Buffers
  import opened LzariModel
  import opened LzariCode
  import opened LzariTree

  predicate Precedes(text: seq<Byte>, a: nat, b: nat)
    requires IsText(text)
  {
    a < N && b < N && Less(StrAt(text, a), StrAt(text, b))
  }

  /** Positions in increasing order of their strings. */
  ghost predicate Ordered(text: seq<Byte>, s: seq<nat>)
    requires IsText(text)
  {
    && (forall i :: 0 <= i < |s| ==> s[i] < N)
    && (forall i, j :: 0 <= i < j < |s| ==> Precedes(text, s[i], s[j]))
  }

  lemma OrderedNoDup(text: seq<Byte>, s: seq<nat>)
    requires IsText(text) && Ordered(text, s)
    ensures NoDup(s)
  {
    forall i, j | 0 <= i < j < |s|
      ensures s[i] != s[j]
    {
      assert Precedes(text, s[i], s[j]);
      LessTotal(StrAt(text, s[i]), StrAt(text, s[j]));
    }
  }

  lemma OrderedParts(text: seq<Byte>, a: seq<nat>, b: seq<nat>)
    requires IsText(text) && Ordered(text, a + b)
    ensures Ordered(text, a) && Ordered(text, b)
    ensures forall y, z :: y in a && z in b ==> Precedes(text, y, z)
  {
    hide Precedes, IsText;
    var s := a + b;
    assert forall i :: 0 <= i < |a| ==> a[i] == s[i];
    assert forall i :: 0 <= i < |b| ==> b[i] == s[|a| + i];
  }

  lemma OrderedJoin(text: seq<Byte>, a: seq<nat>, b: seq<nat>)
    requires IsText(text) && Ordered(text, a) && Ordered(text, b)
    requires forall y, z :: y in a && z in b ==> Precedes(text, y, z)
    ensures Ordered(text, a + b)
  {
    hide Precedes, IsText;
    var s := a + b;
    forall i, j | 0 <= i < j < |s|
      ensures Precedes(text, s[i], s[j])
    {
      if j < |a| {
        assert Precedes(text, a[i], a[j]);
      } else if i < |a| {
        assert a[i] in a && b[j - |a|] in b;
      } else {
        assert Precedes(text, b[i - |a|], b[j - |a|]);
      }
    }
  }

  lemma OrderedDrop(text: seq<Byte>, a: seq<nat>, m: seq<nat>, b: seq<nat>)
    requires IsText(text) && Ordered(text, a + m + b)
    ensures Ordered(text, a + b) && Ordered(text, a) && Ordered(text, m) && Ordered(text, b)
    ensures forall y, z :: y in a && z in m ==> Precedes(text, y, z)
    ensures forall y, z :: y in m && z in b ==> Precedes(text, y, z)
  {
    hide Precedes, IsText, Ordered;
    OrderedParts(text, a + m, b);
    OrderedParts(text, a, m);
    assert forall y :: y in a || y in m ==> y in a + m;
    OrderedJoin(text, a, b);
  }

  lemma OrderedInsert(text: seq<Byte>, a: seq<nat>, r: nat, b: seq<nat>)
    requires IsText(text) && Ordered(text, a + b) && r < N
    requires forall y :: y in a ==> Precedes(text, y, r)
    requires forall y :: y in b ==> Precedes(text, r, y)
    ensures Ordered(text, a + [r] + b)
  {
    var s := a + [r] + b;
    forall i | 0 <= i < |s|
      ensures s[i] < N
    {
      assert i < |a| ==> s[i] in a;
      assert i > |a| ==> s[i] in b;
    }
    forall i, j | 0 <= i < j < |s|
      ensures Precedes(text, s[i], s[j])
    {
      if i != |a| && j != |a| {
        var i', j' := if i < |a| then i else i - 1, if j < |a| then j else j - 1;
        assert (a + b)[i'] == s[i] && (a + b)[j'] == s[j];
      }
    }
  }

  /** Length of the common prefix of the strings at two positions. */
  function Common(text: seq<Byte>, a: nat, b: nat): nat
    requires IsText(text) && a < N && b < N
  {
    Lcp(StrAt(text, a), StrAt(text, b))
  }

  // ---------- the index

  function RootOf(k: Links, c: Byte): nat
    requires IsLinks(k)
  {
    k.rson[N + 1 + c]
  }

  ghost predicate TreeOk(text: seq<Byte>, k: Links, t: Tree, c: Byte, members: set<nat>)
    requires IsText(text) && IsLinks(k)
  {
    && Linked(k, t, RootOf(k, c), N + 1 + c)
    && Ordered(text, InOrder(t))
    && (forall y :: y in InOrder(t) ==> y in members && text[y] == c)
  }

  /** The arrays hold one search tree for each first byte, together indexing members. */
  ghost predicate Index(text: seq<Byte>, k: Links, trees: seq<Tree>, members: set<nat>) {
    && IsText(text) && IsLinks(k) && |trees| == 256
    && (forall c: Byte :: TreeOk(text, k, trees[c], c, members))
    && (forall y :: y in members ==> y < N && y in InOrder(trees[text[y]]))
    && (forall y :: 0 <= y < N && y !in members ==> k.dad[y] == NIL)
  }

  /** Replacing the tree of one byte. */
  lemma Retree(text: seq<Byte>, k: Links, k': Links, trees: seq<Tree>, members: set<nat>,
               c: Byte, t': Tree, members': set<nat>)
    requires Index(text, k, trees, members) && IsLinks(k')
    requires TreeOk(text, k', t', c, members')
    requires forall b: Byte :: b != c ==> RootOf(k, b) == RootOf(k', b)
    requires forall y :: y in members && text[y] != c ==> Same(k, k', y) && y in members'
    requires forall y :: y in members' ==> y < N && if text[y] == c then y in InOrder(t') else y in members
    requires forall y :: 0 <= y < N && y !in members' ==> k'.dad[y] == NIL
    ensures Index(text, k', trees[c := t'], members')
  {
    var trees' := trees[c := t'];
    forall b: Byte
      ensures TreeOk(text, k', trees'[b], b, members')
    {
      if b != c {
        assert TreeOk(text, k, trees[b], b, members);
        hide Linked;
        LinkedFrame(k, k', trees[b], RootOf(k, b), N + 1 + b);
      }
    }
  }

  /** Array entries of positions outside the index do not matter. */
  lemma IndexFrame(text: seq<Byte>, k: Links, k': Links, trees: seq<Tree>, members: set<nat>)
    requires Index(text, k, trees, members) && IsLinks(k')
    requires forall b: Byte :: RootOf(k, b) == RootOf(k', b)
    requires forall y :: y in members ==> Same(k, k', y)
    requires forall y :: 0 <= y < N && y !in members ==> k'.dad[y] == NIL
    ensures Index(text, k', trees, members)
  {
    forall b: Byte
      ensures TreeOk(text, k', trees[b], b, members)
    {
      assert TreeOk(text, k, trees[b], b, members);
      assert RootOf(k, b) == RootOf(k', b);
      LinkedFrame(k, k', trees[b], RootOf(k, b), N + 1 + b);
    }
  }

  /** Text may change wherever no indexed string lies. */
  lemma IndexText(text: seq<Byte>, text': seq<Byte>, k: Links, trees: seq<Tree>, members: set<nat>)
    requires Index(text, k, trees, members) && IsText(text')
    requires forall y :: y in members ==> StrAt(text, y) == StrAt(text', y)
    ensures Index(text', k, trees, members)
  {
    forall y | y in members
      ensures text[y] == text'[y]
    {
      assert StrAt(text, y)[0] == text[y] && StrAt(text', y)[0] == text'[y];
    }
    forall b: Byte
      ensures TreeOk(text', k, trees[b], b, members)
    {
      assert TreeOk(text, k, trees[b], b, members);
    }
  }

  // ---------- the longest match

  /** match_length and match_position describe the best match of the string at r. */
  ghost predicate BestMatch(text: seq<Byte>, r: nat, seen: set<nat>, len: nat, pos: int)
    requires IsText(text) && r < N
  {
    && (forall y :: y in seen ==> y < N && (Common(text, r, y) <= len || (len == 0 && Common(text, r, y) <= THRESHOLD)))
    && (len > 0 ==> THRESHOLD < len <= F && Attained(text, r, seen, len, pos))
  }

  ghost predicate Attained(text: seq<Byte>, r: nat, seen: set<nat>, len: nat, pos: int)
    requires IsText(text) && r < N
  {
    exists p :: p in seen && p < N && Common(text, r, p) == len && pos == (r - p) % N
  }

  lemma BestMatchBound(text: seq<Byte>, r: nat, seen: set<nat>, len: nat, pos: int, p: nat)
    requires IsText(text) && r < N && p < N && BestMatch(text, r, seen, len, pos)
    ensures len <= F && Common(text, r, p) <= F
  {
  }

  /** One more string: the match stays, or becomes the match with that string. */
  lemma BestMatchNoted(text: seq<Byte>, r: nat, seen: set<nat>, p: nat, len: nat, pos: int, len': nat, pos': int)
    requires IsText(text) && r < N && p < N && BestMatch(text, r, seen, len, pos)
    requires var i := Common(text, r, p);
             || (len' == len && pos' == pos && (i <= len || i <= THRESHOLD))
             || (i > THRESHOLD && i >= len && len' == i && pos' == (r - p) % N)
    ensures BestMatch(text, r, seen + {p}, len', pos')
  {
    hide Common;
    BestMatchBound(text, r, seen, len, pos, p);
    if len' > 0 {
      if Common(text, r, p) == len' && pos' == (r - p) % N {
        assert p in seen + {p};
      } else {
        var w :| w in seen && w < N && Common(text, r, w) == len && pos == (r - w) % N;
        assert w in seen + {p};
      }
    }
  }

  /** What a visited node says about everything on its far side. */
  lemma FarSide(text: seq<Byte>, r: nat, x: nat, y: nat)
    requires IsText(text) && r < N && x < N && y < N
    requires (Precedes(text, y, x) && Precedes(text, x, r))
          || (Precedes(text, r, x) && Precedes(text, x, y))
    ensures Common(text, r, y) <= Common(text, r, x)
  {
    var u, v, w := StrAt(text, r), StrAt(text, x), StrAt(text, y);
    if Less(w, v) && Less(v, u) {
      LessTransitive(w, v, u);
    } else {
      LessTransitive(u, v, w);
    }
    LcpSymmetric(u, v);
    LcpSymmetric(u, w);
  }

  // ---------- the changes

  /** Outside the tree of byte c the arrays are as before, and positions that are
      not indexed are marked so. */
  ghost predicate OthersKept(text: seq<Byte>, k: Links, k': Links, members: set<nat>, c: Byte, members': set<nat>) {
    && IsText(text) && IsLinks(k) && IsLinks(k')
    && (forall b: Byte :: b != c ==> RootOf(k, b) == RootOf(k', b))
    && (forall y :: y in members && y < N && text[y] != c ==> Same(k, k', y))
    && (forall y :: 0 <= y < N && y !in members' ==> k'.dad[y] == NIL)
  }

  lemma TreeFacts(text: seq<Byte>, k: Links, trees: seq<Tree>, members: set<nat>, c: Byte, h: Hole, t: Tree)
    requires Index(text, k, trees, members) && trees[c] == Plug(h, t)
    ensures Linked(k, Plug(h, t), k.rson[N + 1 + c], N + 1 + c)
    ensures InOrder(Plug(h, t)) == Before(h) + InOrder(t) + Behind(h)
    ensures Ordered(text, Before(h) + InOrder(t) + Behind(h))
    ensures NoDup(InOrder(Plug(h, t)))
    ensures forall y :: y in Before(h) + InOrder(t) + Behind(h) <==> y in members && text[y] == c
  {
    assert TreeOk(text, k, trees[c], c, members);
    PlugInOrder(h, t);
    OrderedNoDup(text, InOrder(trees[c]));
  }

  lemma OrderedAround(text: seq<Byte>, k: Links, trees: seq<Tree>, members: set<nat>, c: Byte, h: Hole, t: Tree)
    requires Index(text, k, trees, members) && trees[c] == Plug(h, t)
    ensures Ordered(text, Before(h) + InOrder(t) + Behind(h)) && NoDup(InOrder(Plug(h, t)))
  {
    TreeFacts(text, k, trees, members, c, h, t);
  }

  lemma RetreeKept(text: seq<Byte>, k: Links, k': Links, trees: seq<Tree>, members: set<nat>,
                   c: Byte, t': Tree, members': set<nat>)
    requires Index(text, k, trees, members) && OthersKept(text, k, k', members, c, members')
    requires TreeOk(text, k', t', c, members')
    requires forall y :: y in members' ==> y < N && if text[y] == c then y in InOrder(t') else y in members
    requires forall y :: y in members && y !in members' ==> y < N && text[y] == c
    ensures Index(text, k', trees[c := t'], members')
  {
    Retree(text, k, k', trees, members, c, t', members');
  }

  lemma IndexShape(text: seq<Byte>, k: Links, trees: seq<Tree>, members: set<nat>)
    requires Index(text, k, trees, members)
    ensures IsText(text) && IsLinks(k) && |trees| == 256
    ensures forall y :: y in members ==> y < N
    ensures forall y :: 0 <= y < N && y !in members ==> k.dad[y] == NIL
  {
  }

  lemma GrowIndex(text: seq<Byte>, k: Links, k': Links, trees: seq<Tree>, members: set<nat>, h: Hole, r: nat)
    requires Index(text, k, trees, members) && r < N && r !in members && IsLinks(k')
    requires var c := text[r]; trees[c] == Plug(h, Leaf)
    requires forall y :: y in Before(h) ==> Precedes(text, y, r)
    requires forall y :: y in Behind(h) ==> Precedes(text, r, y)
    requires OthersKept(text, k, k', members, text[r], members + {r})
    requires HoleKept(k, k', h, N + 1 + text[r])
    requires Slot(k', h, N + 1 + text[r]) == r && k'.dad[r] == Father(h, N + 1 + text[r])
    requires k'.lson[r] == k'.rson[r] == NIL
    ensures Index(text, k', trees[text[r] := Plug(h, Node(Leaf, r, Leaf))], members + {r})
  {
    hide Linked, LinkedHole, HoleKept, NoDup, Ordered, Precedes, Plug, Index, OthersKept;
    IndexShape(text, k, trees, members);
    var c := text[r];
    TreeFacts(text, k, trees, members, c, h, Leaf);
    GrowLinked(k, k', h, r, N + 1 + c);
    var t' := Plug(h, Node(Leaf, r, Leaf));
    PlugInOrder(h, Node(Leaf, r, Leaf));
    assert Before(h) + InOrder(Leaf) + Behind(h) == Before(h) + Behind(h);
    assert InOrder(t') == Before(h) + [r] + Behind(h);
    hide InOrder;
    OrderedInsert(text, Before(h), r, Behind(h));
    InsertMembers(text, Before(h), r, Behind(h), members, c);
    RetreeKept(text, k, k', trees, members, c, t', members + {r});
  }

  lemma InsertMembers(text: seq<Byte>, a: seq<nat>, r: nat, b: seq<nat>, members: set<nat>, c: Byte)
    requires IsText(text) && r < N && text[r] == c && forall y :: y in members ==> y < N
    requires forall y :: y in a + b <==> y in members && text[y] == c
    ensures forall y :: y in a + [r] + b <==> y in members + {r} && text[y] == c
  {
    assert forall y :: y in a + b <==> y in a || y in b;
    assert forall y :: y in a + [r] + b <==> y in a || y == r || y in b;
  }

  /** A position q that is not indexed takes the place of p in the tree. */
  lemma SwapIndex(text: seq<Byte>, k: Links, k': Links, trees: seq<Tree>, members: set<nat>,
                  h: Hole, l: Tree, p: nat, r: Tree, q: nat)
    requires Index(text, k, trees, members) && q < N && q !in members && IsLinks(k')
    requires p in members && p < N && text[p] == text[q]
    requires trees[text[q]] == Plug(h, Node(l, p, r))
    requires Ordered(text, Before(h) + InOrder(Node(l, q, r)) + Behind(h))
    requires OthersKept(text, k, k', members, text[q], members + {q} - {p})
    requires HoleKept(k, k', h, N + 1 + text[q]) && Adopted(k, k', l, q) && Adopted(k, k', r, q)
    requires Slot(k', h, N + 1 + text[q]) == q && k'.dad[q] == Father(h, N + 1 + text[q])
    requires k'.lson[q] == PtrOf(l) && k'.rson[q] == PtrOf(r)
    ensures Index(text, k', trees[text[q] := Plug(h, Node(l, q, r))], members + {q} - {p})
  {
    hide Linked, LinkedHole, HoleKept, Adopted, NoDup, Plug, InOrder, Ordered;
    var c := text[q];
    TreeFacts(text, k, trees, members, c, h, Node(l, p, r));
    RenameLinked(k, k', h, l, p, r, q, N + 1 + c);
    PlugInOrder(h, Node(l, q, r));
    SwapInOrder(text, h, l, p, r, q, members, c);
    Retree(text, k, k', trees, members, c, Plug(h, Node(l, q, r)), members + {q} - {p});
  }

  lemma SwapInOrder(text: seq<Byte>, h: Hole, l: Tree, p: nat, r: Tree, q: nat, members: set<nat>, c: Byte)
    requires IsText(text) && q != p && p < N && q < N && text[q] == c
    requires forall y :: y in members ==> y < N
    requires Ordered(text, Before(h) + InOrder(Node(l, p, r)) + Behind(h))
    requires forall y :: y in Before(h) + InOrder(Node(l, p, r)) + Behind(h) <==> y in members && text[y] == c
    ensures forall y :: y in Before(h) + InOrder(Node(l, q, r)) + Behind(h) <==> y in members + {q} - {p} && text[y] == c
  {
    hide NoDup, Plug, Ordered, InOrder, Before, Behind;
    var a, b := Before(h) + InOrder(l), InOrder(r) + Behind(h);
    var s, s' := a + [p] + b, a + [q] + b;
    AroundNode(h, l, p, r);
    AroundNode(h, l, q, r);
    NotAgain(text, a, p, b);
    SwapMembers(text, s, s', a, p, b, q, members, c);
  }

  lemma AroundNode(h: Hole, l: Tree, x: nat, r: Tree)
    ensures Before(h) + InOrder(Node(l, x, r)) + Behind(h) == (Before(h) + InOrder(l)) + [x] + (InOrder(r) + Behind(h))
  {
    hide Before, Behind;
  }

  lemma SwapOrdered(text: seq<Byte>, a: seq<nat>, p: nat, b: seq<nat>, q: nat)
    requires IsText(text) && p < N && q < N && StrAt(text, p) == StrAt(text, q)
    requires Ordered(text, a + [p] + b)
    ensures Ordered(text, a + [q] + b)
  {
    var s, s' := a + [p] + b, a + [q] + b;
    assert forall i :: 0 <= i < |s| ==> s'[i] == if i == |a| then q else s[i];
    forall i, j | 0 <= i < j < |s'|
      ensures Precedes(text, s'[i], s'[j])
    {
      assert Precedes(text, s[i], s[j]);
    }
  }

  lemma NotAgain(text: seq<Byte>, a: seq<nat>, p: nat, b: seq<nat>)
    requires IsText(text) && Ordered(text, a + [p] + b)
    ensures p !in a && p !in b
  {
    OrderedNoDup(text, a + [p] + b);
    NoDupSplit(a + [p], b);
    NoDupSplit(a, [p]);
    assert p in a + [p];
    assert p in [p];
  }

  lemma SwapMembers(text: seq<Byte>, s: seq<nat>, s': seq<nat>, a: seq<nat>, p: nat, b: seq<nat>, q: nat,
                    members: set<nat>, c: Byte)
    requires IsText(text) && s == a + [p] + b && s' == a + [q] + b && p !in a && p !in b
    requires q != p && q < N && text[q] == c && forall y :: y in members ==> y < N
    requires forall y :: y in s <==> y in members && text[y] == c
    ensures forall y :: y in s' <==> y in members + {q} - {p} && text[y] == c
  {
    assert forall y :: y in s <==> y in a || y == p || y in b;
    assert forall y :: y in s' <==> y in a || y == q || y in b;
  }

  /** Node p leaves the tree of its byte; what is left of that tree is t'. */
  lemma ShrinkIndex(text: seq<Byte>, k: Links, k': Links, trees: seq<Tree>, members: set<nat>,
                    a: seq<nat>, p: nat, b: seq<nat>, t': Tree)
    requires Index(text, k, trees, members) && p < N && IsLinks(k')
    requires InOrder(trees[text[p]]) == a + [p] + b && InOrder(t') == a + b
    requires OthersKept(text, k, k', members, text[p], members - {p})
    requires Linked(k', t', k'.rson[N + 1 + text[p]], N + 1 + text[p])
    ensures Index(text, k', trees[text[p] := t'], members - {p})
  {
    hide Linked;
    var c := text[p];
    assert TreeOk(text, k, trees[c], c, members);
    OrderedDrop(text, a, [p], b);
    NotAgain(text, a, p, b);
    assert forall y :: y in a + [p] + b <==> y in a || y == p || y in b;
    assert forall y :: y in a + b <==> y in a || y in b;
    Retree(text, k, k', trees, members, c, t', members - {p});
  }

  // ---------- searching

  ghost function Around(h: Hole): set<nat> {
    set y | y in Before(h) + Behind(h)
  }

  /** The string at r belongs into the hole. */
  ghost predicate Between(text: seq<Byte>, h: Hole, r: nat)
    requires IsText(text)
  {
    && (forall y :: y in Before(h) ==> Precedes(text, y, r))
    && (forall y :: y in Behind(h) ==> Precedes(text, r, y))
  }

  /** What the arrays hold at the place reached by a search. */
  ghost predicate Reached(text: seq<Byte>, k: Links, members: set<nat>, c: Byte, h: Hole, t: Tree) {
    && IsText(text) && IsLinks(k)
    && FatherOk(h) && Slot(k, h, N + 1 + c) == PtrOf(t)
    && (!h.Top? ==> h.pos in members)
    && (t.Node? ==> t.pos < N && t.pos in members && text[t.pos] == c && t.pos !in Around(h))
  }

  lemma ReachedFacts(text: seq<Byte>, k: Links, trees: seq<Tree>, members: set<nat>, c: Byte, h: Hole, t: Tree)
    requires Index(text, k, trees, members) && trees[c] == Plug(h, t)
    ensures Reached(text, k, members, c, h, t)
    ensures forall y :: y in Around(h) ==> y in members && y < N
    ensures t.Leaf? ==> forall y :: y in members && text[y] == c ==> y in Around(h)
  {
    hide Ordered, NoDup, Plug, Linked, LinkedHole;
    TreeFacts(text, k, trees, members, c, h, t);
    ReachedSlot(k, h, t, N + 1 + c);
    ReachedNodes(h, t, N + 1 + c);
  }

  lemma ReachedSlot(k: Links, h: Hole, t: Tree, root: nat)
    requires IsLinks(k) && IsRoot(root) && Linked(k, Plug(h, t), k.rson[root], root)
    ensures FatherOk(h) && Slot(k, h, root) == PtrOf(t)
    ensures t.Node? ==> t.pos < N
  {
    LinkedPlug(k, h, t, root);
  }

  lemma ReachedNodes(h: Hole, t: Tree, root: nat)
    requires NoDup(InOrder(Plug(h, t)))
    ensures var all := Before(h) + InOrder(t) + Behind(h);
            && (forall y :: y in Around(h) ==> y in all)
            && (t.Leaf? ==> forall y :: y in all ==> y in Around(h))
            && (t.Node? ==> t.pos in all && t.pos !in Around(h))
            && (!h.Top? ==> h.pos in all)
  {
    NoDupHole(h, t);
    hide NoDup, Plug;
    if !h.Top? { FatherIsNode(h, root); }
    if t.Node? { NodeInOrder(t); }
  }

  lemma NodeInOrder(t: Tree)
    requires t.Node?
    ensures t.pos in InOrder(t)
  {
  }

  lemma BestMatchExtend(text: seq<Byte>, r: nat, seen: set<nat>, more: set<nat>, len: nat, pos: int)
    requires IsText(text) && r < N && BestMatch(text, r, seen, len, pos)
    requires forall y :: y in seen ==> y in more
    requires forall y :: y in more && y !in seen ==>
               y < N && (Common(text, r, y) <= len || (len == 0 && Common(text, r, y) <= THRESHOLD))
    ensures BestMatch(text, r, more, len, pos)
  {
    if len > 0 {
      var w :| w in seen && w < N && Common(text, r, w) == len && pos == (r - w) % N;
      assert w in more;
    }
  }

  /** Strings that share no more than one already seen. */
  lemma BestMatchBeyond(text: seq<Byte>, r: nat, seen: set<nat>, more: set<nat>, x: nat, len: nat, pos: int)
    requires IsText(text) && r < N && x < N && x in seen && BestMatch(text, r, seen, len, pos)
    requires forall y :: y in seen ==> y in more
    requires forall y :: y in more && y !in seen ==> y < N && Common(text, r, y) <= Common(text, r, x)
    ensures BestMatch(text, r, more, len, pos)
  {
    hide Common, IsText;
    BestMatchExtend(text, r, seen, more, len, pos);
  }

  /** The far side of a visited node cannot hold a better match. */
  lemma FarSides(text: seq<Byte>, r: nat, x: nat, s: seq<nat>)
    requires IsText(text) && r < N && x < N
    ensures Precedes(text, x, r) && (forall y :: y in s ==> Precedes(text, y, x)) ==>
              forall y :: y in s ==> Precedes(text, y, r) && y < N && Common(text, r, y) <= Common(text, r, x)
    ensures Precedes(text, r, x) && (forall y :: y in s ==> Precedes(text, x, y)) ==>
              forall y :: y in s ==> Precedes(text, r, y) && y < N && Common(text, r, y) <= Common(text, r, x)
  {
    hide Less, Lcp;
    if Precedes(text, x, r) && (forall y :: y in s ==> Precedes(text, y, x)) {
      forall y | y in s
        ensures Precedes(text, y, r) && y < N && Common(text, r, y) <= Common(text, r, x)
      {
        LessTransitive(StrAt(text, y), StrAt(text, x), StrAt(text, r));
        FarSide(text, r, x, y);
      }
    }
    if Precedes(text, r, x) && (forall y :: y in s ==> Precedes(text, x, y)) {
      forall y | y in s
        ensures Precedes(text, r, y) && y < N && Common(text, r, y) <= Common(text, r, x)
      {
        LessTransitive(StrAt(text, r), StrAt(text, x), StrAt(text, y));
        FarSide(text, r, x, y);
      }
    }
  }

  /** Everything left of a node is on its far side for a string behind it, and conversely. */
  lemma LeftIsFar(text: seq<Byte>, a: seq<nat>, t: Tree, b: seq<nat>, r: nat)
    requires IsText(text) && r < N && t.Node? && t.pos < N && Precedes(text, t.pos, r)
    requires Ordered(text, a + InOrder(t) + b)
    ensures forall y :: y in InOrder(t.left) ==> Precedes(text, y, r) && y < N && Common(text, r, y) <= Common(text, r, t.pos)
  {
    hide Precedes, Common, Ordered, IsText;
    var l, rest := InOrder(t.left), [t.pos] + InOrder(t.right) + b;
    assert a + InOrder(t) + b == a + l + rest;
    hide InOrder;
    OrderedDrop(text, a, l, rest);
    assert t.pos in rest;
    FarSides(text, r, t.pos, l);
  }

  lemma RightIsFar(text: seq<Byte>, a: seq<nat>, t: Tree, b: seq<nat>, r: nat)
    requires IsText(text) && r < N && t.Node? && t.pos < N && Precedes(text, r, t.pos)
    requires Ordered(text, a + InOrder(t) + b)
    ensures forall y :: y in InOrder(t.right) ==> Precedes(text, r, y) && y < N && Common(text, r, y) <= Common(text, r, t.pos)
  {
    hide Precedes, Common, Ordered, IsText;
    var rest, m := a + InOrder(t.left) + [t.pos], InOrder(t.right);
    assert a + InOrder(t) + b == rest + m + b;
    hide InOrder;
    OrderedDrop(text, rest, m, b);
    assert t.pos in rest;
    FarSides(text, r, t.pos, m);
  }

  /** One step down, to the right or to the left. */
  lemma DescendRight(text: seq<Byte>, h: Hole, t: Tree, r: nat, len: nat, pos: int)
    requires IsText(text) && r < N && t.Node? && t.pos < N
    requires Ordered(text, Before(h) + InOrder(t) + Behind(h))
    requires Between(text, h, r) && Precedes(text, t.pos, r)
    requires BestMatch(text, r, Around(h) + {t.pos}, len, pos)
    ensures Between(text, InRight(h, t.left, t.pos), r)
    ensures BestMatch(text, r, Around(InRight(h, t.left, t.pos)), len, pos)
  {
    hide Precedes, Common, Ordered, BestMatch, IsText, InOrder;
    LeftIsFar(text, Before(h), t, Behind(h), r);
    BestMatchBeyond(text, r, Around(h) + {t.pos}, Around(InRight(h, t.left, t.pos)), t.pos, len, pos);
  }

  lemma DescendLeft(text: seq<Byte>, h: Hole, t: Tree, r: nat, len: nat, pos: int)
    requires IsText(text) && r < N && t.Node? && t.pos < N
    requires Ordered(text, Before(h) + InOrder(t) + Behind(h))
    requires Between(text, h, r) && Precedes(text, r, t.pos)
    requires BestMatch(text, r, Around(h) + {t.pos}, len, pos)
    ensures Between(text, InLeft(h, t.pos, t.right), r)
    ensures BestMatch(text, r, Around(InLeft(h, t.pos, t.right)), len, pos)
  {
    hide Precedes, Common, Ordered, BestMatch, IsText, InOrder;
    RightIsFar(text, Before(h), t, Behind(h), r);
    BestMatchBeyond(text, r, Around(h) + {t.pos}, Around(InLeft(h, t.pos, t.right)), t.pos, len, pos);
  }

  /** Strings with another first byte share nothing, so the tree searched is enough. */
  lemma BestMatchEverywhere(text: seq<Byte>, r: nat, seen: set<nat>, members: set<nat>, len: nat, pos: int)
    requires IsText(text) && r < N && BestMatch(text, r, seen, len, pos)
    requires forall y :: y in seen ==> y in members
    requires forall y :: y in members ==> y < N
    requires len == F || forall y :: y in members && text[y] == text[r] ==> y in seen
    ensures BestMatch(text, r, members, len, pos)
  {
    forall y | y in members && y !in seen
      ensures Common(text, r, y) <= len || Common(text, r, y) == 0
    {
      if text[y] != text[r] {
        assert StrAt(text, r)[0] != StrAt(text, y)[0];
        LcpIs(StrAt(text, r), StrAt(text, y), 0);
      }
    }
    BestMatchExtend(text, r, seen, members, len, pos);
  }

  // ---------- the assignments

  /** The parts of the index invariant that changes outside a tree rely on. */
  ghost predicate Bystanders(text: seq<Byte>, k: Links, members: set<nat>, h: Hole, c: Byte) {
    && IsText(text) && IsLinks(k)
    && (forall y :: 0 <= y < N && y !in members ==> k.dad[y] == NIL)
    && (forall y :: y in members ==> y < N)
    && (forall y :: y in Around(h) ==> y in members && text[y] == c)
    && (!h.Top? ==> h.pos in Around(h))
  }

  lemma IndexBystanders(text: seq<Byte>, k: Links, trees: seq<Tree>, members: set<nat>, c: Byte, h: Hole, t: Tree)
    requires Index(text, k, trees, members) && trees[c] == Plug(h, t)
    ensures Bystanders(text, k, members, h, c)
  {
    TreeFacts(text, k, trees, members, c, h, t);
    assert forall y :: y in Before(h) + Behind(h) ==> y in Before(h) + InOrder(t) + Behind(h);
    if !h.Top? { FatherIsNode(h, N + 1 + c); }
  }

  lemma AttachKept(text: seq<Byte>, k: Links, k': Links, members: set<nat>, h: Hole, r: nat, c: Byte)
    requires Bystanders(text, k, members, h, c) && r < N && r !in members && text[r] == c
    requires var p := Father(h, N + 1 + c);
             if h.InLeft? then k' == Links(k.lson[p := r], k.rson, k.dad[r := p])
             else k' == Links(k.lson, k.rson[p := r], k.dad[r := p])
    ensures HoleKept(k, k', h, N + 1 + c)
    ensures OthersKept(text, k, k', members, c, members + {r})
  {
    assert forall y :: y in Before(h) + Behind(h) ==> y in Around(h);
  }

  /** Hanging r below the place that a search ended at. */
  lemma AttachIndex(text: seq<Byte>, k: Links, trees: seq<Tree>, members: set<nat>, h: Hole, r: nat)
    requires Index(text, k, trees, members) && r < N && r !in members && k.lson[r] == k.rson[r] == NIL
    requires trees[text[r]] == Plug(h, Leaf) && Between(text, h, r)
    ensures FatherOk(h)
    ensures var p := Father(h, N + 1 + text[r]);
            var k' := if h.InLeft? then Links(k.lson[p := r], k.rson, k.dad[r := p])
                      else Links(k.lson, k.rson[p := r], k.dad[r := p]);
            Index(text, k', trees[text[r] := Plug(h, Node(Leaf, r, Leaf))], members + {r})
  {
    hide Linked, LinkedHole, Plug, Ordered, NoDup, Precedes;
    var c := text[r];
    IndexBystanders(text, k, trees, members, c, h, Leaf);
    ReachedFacts(text, k, trees, members, c, h, Leaf);
    hide Index, HoleKept, OthersKept;
    var p := Father(h, N + 1 + c);
    var k' := if h.InLeft? then Links(k.lson[p := r], k.rson, k.dad[r := p])
              else Links(k.lson, k.rson[p := r], k.dad[r := p]);
    AttachKept(text, k, k', members, h, r, c);
    GrowIndex(text, k, k', trees, members, h, r);
  }

  /** The nodes left of p, right of p and around p do not overlap. */
  ghost predicate Apart(h: Hole, l: Tree, p: nat, r: Tree) {
    && (forall y :: y in InOrder(l) ==> y != p && y !in InOrder(r) && y !in Around(h))
    && (forall y :: y in InOrder(r) ==> y != p && y !in Around(h))
    && p !in Around(h)
  }

  lemma PartsApart(h: Hole, l: Tree, p: nat, r: Tree)
    requires NoDup(InOrder(Plug(h, Node(l, p, r))))
    ensures Apart(h, l, p, r)
  {
    var t := Node(l, p, r);
    NoDupHole(h, t);
    hide Plug;
    var a, b := InOrder(l), InOrder(r);
    NoDupSplit(a + [p], b);
    NoDupSplit(a, [p]);
    hide NoDup;
    assert forall y :: y in a + [p] <==> y in a || y == p;
    assert forall y :: y in InOrder(t) <==> y in a || y == p || y in b;
  }

  /** What the arrays hold at and around p. */
  ghost predicate Placed(k: Links, h: Hole, l: Tree, p: nat, r: Tree, root: nat) {
    && IsLinks(k) && IsRoot(root) && FatherOk(h) && p < N
    && Slot(k, h, root) == p && k.dad[p] == Father(h, root)
    && (h.InLeft? ==> k.rson[h.pos] != p)
    && k.lson[p] == PtrOf(l) <= N && k.rson[p] == PtrOf(r) <= N
    && (l.Node? ==> l.pos < N && k.dad[l.pos] == p) && (r.Node? ==> r.pos < N && k.dad[r.pos] == p)
  }

  lemma PlacedFacts(k: Links, h: Hole, l: Tree, p: nat, r: Tree, root: nat)
    requires IsLinks(k) && IsRoot(root) && Linked(k, Plug(h, Node(l, p, r)), k.rson[root], root)
    requires NoDup(InOrder(Plug(h, Node(l, p, r))))
    ensures Placed(k, h, l, p, r, root)
    ensures LinkedHole(k, h, root) && Linked(k, l, PtrOf(l), p) && Linked(k, r, PtrOf(r), p)
  {
    LinkedPlug(k, h, Node(l, p, r), root);
    if h.InLeft? && h.right.Node? {
      NoDupHole(h, Node(l, p, r));
      assert h.right.pos in InOrder(h.right);
      assert h.right.pos in Before(h) + Behind(h);
      assert p in InOrder(Node(l, p, r));
    }
  }

  /** The arrays after q has taken the place and the subtrees of p. */
  function Relinked(k: Links, h: Hole, l: Tree, p: nat, r: Tree, q: nat, root: nat): (k': Links)
    requires IsLinks(k) && IsRoot(root) && FatherOk(h) && p < N && q < N && PtrOf(l) <= N && PtrOf(r) <= N
    ensures IsLinks(k')
  {
    var f := Father(h, root);
    var ls, rs := k.lson[q := PtrOf(l)], k.rson[q := PtrOf(r)];
    var ds := k.dad[q := f][PtrOf(l) := q][PtrOf(r) := q][p := NIL];
    if h.InLeft? then Links(ls[f := q], rs, ds) else Links(ls, rs[f := q], ds)
  }

  /** Which array entries that touches. */
  lemma RelinkedAt(k: Links, h: Hole, l: Tree, p: nat, r: Tree, q: nat, root: nat, y: nat)
    requires IsLinks(k) && IsRoot(root) && FatherOk(h) && p < N && q < N && PtrOf(l) <= N && PtrOf(r) <= N
    requires y < N
    ensures var k' := Relinked(k, h, l, p, r, q, root);
            && k'.dad[y] == (if y == p then NIL else if y == PtrOf(l) || y == PtrOf(r) then q
                             else if y == q then Father(h, root) else k.dad[y])
            && (k'.lson[y] != k.lson[y] ==> y == q || (h.InLeft? && y == h.pos))
            && (k'.rson[y] != k.rson[y] ==> y == q || (h.InRight? && y == h.pos))
  {
  }

  lemma RelinkedSlot(k: Links, h: Hole, l: Tree, p: nat, r: Tree, q: nat, root: nat)
    requires IsLinks(k) && IsRoot(root) && FatherOk(h) && p < N && q < N && PtrOf(l) <= N && PtrOf(r) <= N
    requires q != p && q != Father(h, root) && q != PtrOf(l) && q != PtrOf(r)
    ensures var k' := Relinked(k, h, l, p, r, q, root);
            && Slot(k', h, root) == q && k'.dad[q] == Father(h, root)
            && k'.lson[q] == PtrOf(l) && k'.rson[q] == PtrOf(r)
            && forall b: Byte :: N + 1 + b != root || !h.Top? ==> RootOf(k', b) == RootOf(k, b)
  {
  }

  /** What changes between k and k' when q takes the place of p. */
  ghost predicate Retargeted(k: Links, k': Links, h: Hole, l: Tree, p: nat, r: Tree, q: nat) {
    && IsLinks(k) && IsLinks(k')
    && forall y: nat :: y < N ==>
         && (y != p && y != PtrOf(l) && y != PtrOf(r) && y != q ==> k'.dad[y] == k.dad[y])
         && ((y == PtrOf(l) || y == PtrOf(r)) && y != p ==> k'.dad[y] == q)
         && (y != q && !(h.InLeft? && y == h.pos) ==> k'.lson[y] == k.lson[y])
         && (y != q && !(h.InRight? && y == h.pos) ==> k'.rson[y] == k.rson[y])
  }

  lemma RelinkedRetargeted(k: Links, h: Hole, l: Tree, p: nat, r: Tree, q: nat, root: nat)
    requires IsLinks(k) && IsRoot(root) && FatherOk(h) && p < N && q < N && PtrOf(l) <= N && PtrOf(r) <= N
    ensures Retargeted(k, Relinked(k, h, l, p, r, q, root), h, l, p, r, q)
  {
    forall y: nat | y < N
      ensures var k' := Relinked(k, h, l, p, r, q, root);
              && (y != p && y != PtrOf(l) && y != PtrOf(r) && y != q ==> k'.dad[y] == k.dad[y])
              && ((y == PtrOf(l) || y == PtrOf(r)) && y != p ==> k'.dad[y] == q)
              && (y != q && !(h.InLeft? && y == h.pos) ==> k'.lson[y] == k.lson[y])
              && (y != q && !(h.InRight? && y == h.pos) ==> k'.rson[y] == k.rson[y])
    {
      RelinkedAt(k, h, l, p, r, q, root, y);
    }
  }

  lemma RetargetedHole(k: Links, k': Links, h: Hole, l: Tree, p: nat, r: Tree, q: nat, root: nat)
    requires Retargeted(k, k', h, l, p, r, q) && Apart(h, l, p, r) && IsRoot(root) && FatherOk(h)
    requires q !in Around(h)
    requires forall y :: y in Around(h) ==> y < N
    requires !h.Top? ==> h.pos in Around(h) && k.rson[root] == k'.rson[root]
    ensures HoleKept(k, k', h, root)
  {
    if l.Node? { NodeInOrder(l); }
    if r.Node? { NodeInOrder(r); }
    hide InOrder;
    assert forall y :: y in Before(h) + Behind(h) ==> y in Around(h);
  }

  lemma RetargetedSub(k: Links, k': Links, h: Hole, l: Tree, p: nat, r: Tree, q: nat, t: Tree)
    requires Retargeted(k, k', h, l, p, r, q) && Apart(h, l, p, r)
    requires t == l || t == r
    requires q !in InOrder(t)
    requires forall y :: y in InOrder(t) ==> y < N
    requires !h.Top? ==> h.pos in Around(h)
    ensures Adopted(k, k', t, q)
  {
    if l.Node? { NodeInOrder(l); }
    if r.Node? { NodeInOrder(r); }
    hide InOrder;
  }

  lemma RelinkedKept(k: Links, h: Hole, l: Tree, p: nat, r: Tree, q: nat, root: nat)
    requires Placed(k, h, l, p, r, root) && Apart(h, l, p, r) && q < N && q != p
    requires q !in Around(h) && q !in InOrder(l) && q !in InOrder(r)
    requires forall y :: y in Around(h) || y in InOrder(l) || y in InOrder(r) ==> y < N
    requires !h.Top? ==> h.pos in Around(h)
    ensures var k' := Relinked(k, h, l, p, r, q, root);
            && HoleKept(k, k', h, root) && Adopted(k, k', l, q) && Adopted(k, k', r, q)
            && Slot(k', h, root) == q && k'.dad[q] == Father(h, root)
            && k'.lson[q] == PtrOf(l) && k'.rson[q] == PtrOf(r)
  {
    var k' := Relinked(k, h, l, p, r, q, root);
    if l.Node? { NodeInOrder(l); }
    if r.Node? { NodeInOrder(r); }
    hide InOrder, Relinked, HoleKept, Adopted, Retargeted;
    RelinkedSlot(k, h, l, p, r, q, root);
    RelinkedRetargeted(k, h, l, p, r, q, root);
    RelinkedRoot(k, h, l, p, r, q, root);
    RetargetedHole(k, k', h, l, p, r, q, root);
    RetargetedSub(k, k', h, l, p, r, q, l);
    RetargetedSub(k, k', h, l, p, r, q, r);
  }

  lemma RelinkedRoot(k: Links, h: Hole, l: Tree, p: nat, r: Tree, q: nat, root: nat)
    requires IsLinks(k) && IsRoot(root) && FatherOk(h) && p < N && q < N && PtrOf(l) <= N && PtrOf(r) <= N
    ensures !h.Top? ==> Relinked(k, h, l, p, r, q, root).rson[root] == k.rson[root]
  {
  }

  lemma ReplaceIndex(text: seq<Byte>, k: Links, trees: seq<Tree>, members: set<nat>,
                     h: Hole, l: Tree, p: nat, r: Tree, q: nat)
    requires Index(text, k, trees, members) && q < N && q !in members && p in members
    requires text[p] == text[q] && trees[text[q]] == Plug(h, Node(l, p, r))
    requires Ordered(text, Before(h) + InOrder(Node(l, q, r)) + Behind(h))
    ensures Placed(k, h, l, p, r, N + 1 + text[q]) && Apart(h, l, p, r)
    ensures Index(text, Relinked(k, h, l, p, r, q, N + 1 + text[q]),
                  trees[text[q] := Plug(h, Node(l, q, r))], members + {q} - {p})
  {
    hide Linked, LinkedHole, Plug, Ordered, NoDup;
    var c := text[q];
    var t := Node(l, p, r);
    TreeFacts(text, k, trees, members, c, h, t);
    IndexBystanders(text, k, trees, members, c, h, t);
    PlacedFacts(k, h, l, p, r, N + 1 + c);
    PartsApart(h, l, p, r);
    assert forall y :: y in InOrder(l) || y in InOrder(r) ==> y in Before(h) + InOrder(t) + Behind(h);
    hide Index, HoleKept, Adopted, Apart, Placed, InOrder;
    RelinkedKept(k, h, l, p, r, q, N + 1 + c);
    RelinkedOthers(text, k, h, l, p, r, q, members, c);
    SwapIndex(text, k, Relinked(k, h, l, p, r, q, N + 1 + c), trees, members, h, l, p, r, q);
  }

  lemma RelinkedOthers(text: seq<Byte>, k: Links, h: Hole, l: Tree, p: nat, r: Tree, q: nat, members: set<nat>, c: Byte)
    requires Bystanders(text, k, members, h, c) && Placed(k, h, l, p, r, N + 1 + c)
    requires p in members && q < N && q !in members && text[p] == text[q] == c
    requires forall y :: y in InOrder(l) || y in InOrder(r) ==> y in members && text[y] == c
    ensures OthersKept(text, k, Relinked(k, h, l, p, r, q, N + 1 + c), members, c, members + {q} - {p})
  {
    hide InOrder, Relinked;
    var k' := Relinked(k, h, l, p, r, q, N + 1 + c);
    if l.Node? { NodeInOrder(l); }
    if r.Node? { NodeInOrder(r); }
    RelinkedSlot(k, h, l, p, r, q, N + 1 + c);
    forall y: nat | y < N
      ensures y != p && y != PtrOf(l) && y != PtrOf(r) && y != q ==> k'.dad[y] == k.dad[y]
      ensures y == p ==> k'.dad[y] == NIL
      ensures y in members && text[y] != c ==> Same(k, k', y)
    {
      RelinkedAt(k, h, l, p, r, q, N + 1 + c, y);
    }
  }

  /** Strings that are equal are in the same place of the order. */
  lemma SameStringOrdered(text: seq<Byte>, h: Hole, l: Tree, p: nat, r: Tree, q: nat)
    requires IsText(text) && p < N && q < N && StrAt(text, p) == StrAt(text, q)
    requires Ordered(text, Before(h) + InOrder(Node(l, p, r)) + Behind(h))
    ensures Ordered(text, Before(h) + InOrder(Node(l, q, r)) + Behind(h))
  {
    var a, b := Before(h) + InOrder(l), InOrder(r) + Behind(h);
    assert Before(h) + InOrder(Node(l, p, r)) + Behind(h) == a + [p] + b;
    assert Before(h) + InOrder(Node(l, q, r)) + Behind(h) == a + [q] + b;
    SwapOrdered(text, a, p, b, q);
  }

  // ---------- deletion

  /** The arrays after the only subtree of p has taken its place. */
  function Spliced(k: Links, h: Hole, p: nat, sub: Tree, root: nat): (k': Links)
    requires IsLinks(k) && IsRoot(root) && FatherOk(h) && p < N && PtrOf(sub) <= N
    ensures IsLinks(k')
  {
    var f := Father(h, root);
    var ds := k.dad[PtrOf(sub) := f][p := NIL];
    if h.InLeft? then Links(k.lson[f := PtrOf(sub)], k.rson, ds) else Links(k.lson, k.rson[f := PtrOf(sub)], ds)
  }

  lemma SplicedAt(k: Links, h: Hole, p: nat, sub: Tree, root: nat, y: nat)
    requires IsLinks(k) && IsRoot(root) && FatherOk(h) && p < N && PtrOf(sub) <= N && y < N
    ensures var k' := Spliced(k, h, p, sub, root);
            && k'.dad[y] == (if y == p then NIL else if y == PtrOf(sub) then Father(h, root) else k.dad[y])
            && (k'.lson[y] != k.lson[y] ==> h.InLeft? && y == h.pos)
            && (k'.rson[y] != k.rson[y] ==> h.InRight? && y == h.pos)
  {
  }

  lemma SplicedSlot(k: Links, h: Hole, p: nat, sub: Tree, root: nat)
    requires IsLinks(k) && IsRoot(root) && FatherOk(h) && p < N && PtrOf(sub) <= N
    ensures var k' := Spliced(k, h, p, sub, root);
            && Slot(k', h, root) == PtrOf(sub)
            && (!h.Top? ==> k'.rson[root] == k.rson[root])
            && forall b: Byte :: N + 1 + b != root || !h.Top? ==> RootOf(k', b) == RootOf(k, b)
  {
  }

  lemma SplicedKept(text: seq<Byte>, k: Links, h: Hole, p: nat, sub: Tree, members: set<nat>, c: Byte)
    requires Bystanders(text, k, members, h, c) && FatherOk(h) && p in members && p < N && text[p] == c
    requires p !in Around(h) && p !in InOrder(sub)
    requires forall y :: y in InOrder(sub) ==> y in members && text[y] == c && y !in Around(h)
    requires PtrOf(sub) <= N
    ensures var k' := Spliced(k, h, p, sub, N + 1 + c);
            && HoleKept(k, k', h, N + 1 + c) && Adopted(k, k', sub, Father(h, N + 1 + c))
            && OthersKept(text, k, k', members, c, members - {p})
  {
    hide InOrder, Spliced;
    var k' := Spliced(k, h, p, sub, N + 1 + c);
    if sub.Node? { NodeInOrder(sub); }
    SplicedSlot(k, h, p, sub, N + 1 + c);
    forall y: nat | y < N
      ensures y != p && y != PtrOf(sub) ==> k'.dad[y] == k.dad[y]
      ensures y == p ==> k'.dad[y] == NIL
      ensures y == PtrOf(sub) && y != p ==> k'.dad[y] == Father(h, N + 1 + c)
      ensures !(h.InLeft? && y == h.pos) ==> k'.lson[y] == k.lson[y]
      ensures !(h.InRight? && y == h.pos) ==> k'.rson[y] == k.rson[y]
    {
      SplicedAt(k, h, p, sub, N + 1 + c, y);
    }
    assert forall y :: y in Before(h) + Behind(h) ==> y in Around(h);
  }

  /** A tree node with at most one subtree, and that subtree. */
  predicate HasOne(t: Tree, sub: Tree) {
    t.Node? && (t == Node(sub, t.pos, Leaf) || t == Node(Leaf, t.pos, sub))
  }

  lemma SpliceIndex(text: seq<Byte>, k: Links, trees: seq<Tree>, members: set<nat>,
                    h: Hole, t: Tree, sub: Tree, c: Byte)
    requires Index(text, k, trees, members) && HasOne(t, sub) && trees[c] == Plug(h, t)
    ensures t.pos in members && text[t.pos] == c
    ensures Placed(k, h, t.left, t.pos, t.right, N + 1 + c)
    ensures Index(text, Spliced(k, h, t.pos, sub, N + 1 + c), trees[c := Plug(h, sub)], members - {t.pos})
  {
    SpliceTree(text, k, trees, members, h, t, sub, c);
    SpliceShrink(text, k, Spliced(k, h, t.pos, sub, N + 1 + c), trees, members, h, t, sub, c);
  }

  lemma SpliceShrink(text: seq<Byte>, k: Links, k': Links, trees: seq<Tree>, members: set<nat>,
                     h: Hole, t: Tree, sub: Tree, c: Byte)
    requires Index(text, k, trees, members) && HasOne(t, sub) && trees[c] == Plug(h, t) && IsLinks(k')
    requires t.pos in members && text[t.pos] == c
    requires OthersKept(text, k, k', members, c, members - {t.pos})
    requires Linked(k', Plug(h, sub), k'.rson[N + 1 + c], N + 1 + c)
    ensures Index(text, k', trees[c := Plug(h, sub)], members - {t.pos})
  {
    hide Linked, Plug, OthersKept, InOrder, Ordered, NoDup, Before, Behind;
    PlugInOrder(h, t);
    PlugInOrder(h, sub);
    var a, b := SpliceOrder(h, t, sub);
    ShrinkIndex(text, k, k', trees, members, a, t.pos, b, Plug(h, sub));
  }

  lemma SpliceTree(text: seq<Byte>, k: Links, trees: seq<Tree>, members: set<nat>,
                   h: Hole, t: Tree, sub: Tree, c: Byte)
    requires Index(text, k, trees, members) && HasOne(t, sub) && trees[c] == Plug(h, t)
    ensures t.pos in members && text[t.pos] == c
    ensures var root := N + 1 + c;
            && Placed(k, h, t.left, t.pos, t.right, root)
            && var k' := Spliced(k, h, t.pos, sub, root);
               && OthersKept(text, k, k', members, c, members - {t.pos})
               && Linked(k', Plug(h, sub), k'.rson[root], root)
  {
    hide Index, HoleKept, Adopted, Spliced, OthersKept, InOrder, Linked, LinkedHole, Plug, Ordered, NoDup, Before, Behind, Around;
    var p := t.pos;
    TreeFacts(text, k, trees, members, c, h, t);
    IndexBystanders(text, k, trees, members, c, h, t);
    PlacedFacts(k, h, t.left, p, t.right, N + 1 + c);
    PartsApart(h, t.left, p, t.right);
    SubNodes(h, t, sub);
    SplicedKept(text, k, h, p, sub, members, c);
    SplicedSlot(k, h, p, sub, N + 1 + c);
    SpliceLinked(k, Spliced(k, h, p, sub, N + 1 + c), h, t, sub, N + 1 + c);
  }

  lemma SubNodes(h: Hole, t: Tree, sub: Tree)
    requires HasOne(t, sub)
    ensures t.pos in Before(h) + InOrder(t) + Behind(h)
    ensures forall y :: y in InOrder(sub) ==> y in Before(h) + InOrder(t) + Behind(h)
    ensures forall y :: y in InOrder(sub) ==> y in InOrder(t.left) || y in InOrder(t.right)
  {
  }

  lemma SpliceOrder(h: Hole, t: Tree, sub: Tree) returns (a: seq<nat>, b: seq<nat>)
    requires HasOne(t, sub)
    ensures Before(h) + InOrder(t) + Behind(h) == a + [t.pos] + b
    ensures Before(h) + InOrder(sub) + Behind(h) == a + b
  {
    if t.right == Leaf {
      a, b := Before(h) + InOrder(t.left), Behind(h);
      assert InOrder(t) == InOrder(t.left) + [t.pos] + InOrder(Leaf);
    } else {
      a, b := Before(h), InOrder(sub) + Behind(h);
      assert InOrder(t) == InOrder(Leaf) + [t.pos] + InOrder(sub);
    }
  }

  // ---------- deletion of a node with two subtrees

  /** The inner hole's path continues the outer one. */
  function Append(outer: Hole, inner: Hole): Hole {
    match inner
    case Top => outer
    case InLeft(up, x, r) => InLeft(Append(outer, up), x, r)
    case InRight(up, l, x) => InRight(Append(outer, up), l, x)
  }

  lemma {:induction false} PlugAppend(outer: Hole, inner: Hole, t: Tree)
    ensures Plug(Append(outer, inner), t) == Plug(outer, Plug(inner, t))
  {
    match inner
    case Top =>
    case InLeft(up, x, r) => PlugAppend(outer, up, Node(t, x, r));
    case InRight(up, l, x) => PlugAppend(outer, up, Node(l, x, t));
  }

  /** A path that only goes right. */
  predicate RightSpine(g: Hole) {
    g.Top? || (g.InRight? && RightSpine(g.up))
  }

  lemma {:induction false} RightSpineBehind(g: Hole)
    requires RightSpine(g)
    ensures Behind(g) == []
  {
    if !g.Top? { RightSpineBehind(g.up); }
  }

  /** q is the last node of the left subtree of p: it can stand in for p. */
  lemma TakeMaxOrdered(text: seq<Byte>, h: Hole, p: nat, r: Tree, g: Hole, ll: Tree, q: nat)
    requires IsText(text) && RightSpine(g)
    requires Ordered(text, Before(h) + InOrder(Node(Plug(g, Node(ll, q, Leaf)), p, r)) + Behind(h))
    ensures Ordered(text, Before(h) + InOrder(Node(Plug(g, ll), q, r)) + Behind(h))
  {
    hide Ordered, Plug, Before, Behind;
    RightSpineBehind(g);
    PlugInOrder(g, Node(ll, q, Leaf));
    PlugInOrder(g, ll);
    var l := Before(g) + InOrder(ll);
    assert InOrder(Plug(g, ll)) == l;
    assert InOrder(Node(ll, q, Leaf)) == InOrder(ll) + [q];
    assert InOrder(Plug(g, Node(ll, q, Leaf))) == l + [q];
    DropAfter(text, Before(h), l, q, p, InOrder(r), Behind(h));
  }

  lemma DropAfter(text: seq<Byte>, a: seq<nat>, l: seq<nat>, q: nat, p: nat, r: seq<nat>, b: seq<nat>)
    requires IsText(text) && Ordered(text, a + ((l + [q]) + [p] + r) + b)
    ensures Ordered(text, a + (l + [q] + r) + b)
  {
    hide Ordered;
    assert a + ((l + [q]) + [p] + r) + b == (a + l + [q]) + [p] + (r + b);
    OrderedDrop(text, a + l + [q], [p], r + b);
    assert a + (l + [q] + r) + b == (a + l + [q]) + (r + b);
  }

  /** The arrays after q, the last node of p's left subtree, has replaced p. */
  function MaxTaken(k: Links, h: Hole, p: nat, r: Tree, g: Hole, ll: Tree, q: nat, root: nat): Links
    requires IsLinks(k) && IsRoot(root) && FatherOk(h) && FatherOk(g) && p < N && q < N
    requires PtrOf(ll) <= N && PtrOf(Plug(g, ll)) <= N && PtrOf(r) <= N
  {
    Relinked(Spliced(k, Append(InLeft(h, p, r), g), q, ll, root), h, Plug(g, ll), p, r, q, root)
  }

  lemma TakeMaxIndex(text: seq<Byte>, k: Links, trees: seq<Tree>, members: set<nat>,
                     h: Hole, p: nat, r: Tree, g: Hole, ll: Tree, q: nat, c: Byte)
    requires Index(text, k, trees, members) && RightSpine(g) && p in members && text[p] == c
    requires trees[c] == Plug(h, Node(Plug(g, Node(ll, q, Leaf)), p, r))
    ensures FatherOk(h) && FatherOk(g) && p < N && q < N && p != q
    ensures PtrOf(ll) <= N && PtrOf(Plug(g, ll)) <= N && PtrOf(r) <= N
    ensures Placed(k, Append(InLeft(h, p, r), g), ll, q, Leaf, N + 1 + c)
    ensures Placed(Spliced(k, Append(InLeft(h, p, r), g), q, ll, N + 1 + c), h, Plug(g, ll), p, r, N + 1 + c)
    ensures Index(text, MaxTaken(k, h, p, r, g, ll, q, N + 1 + c),
                  trees[c := Plug(h, Node(Plug(g, ll), q, r))], members - {p})
  {
    hide Index, Plug, Ordered, InOrder, Spliced, Relinked, Before, Behind, Placed, NoDup;
    var h2 := Append(InLeft(h, p, r), g);
    var t := Node(ll, q, Leaf);
    IndexShape(text, k, trees, members);
    PlugAppend(InLeft(h, p, r), g, t);
    PlugAppend(InLeft(h, p, r), g, ll);
    PlugInLeft(h, Plug(g, t), p, r);
    PlugInLeft(h, Plug(g, ll), p, r);
    SpliceIndex(text, k, trees, members, h2, t, ll, c);
    OrderedAround(text, k, trees, members, c, h, Node(Plug(g, t), p, r));
    TakeMaxOrdered(text, h, p, r, g, ll, q);
    MaxDiffers(h, g, t, p, r);
    var k1, trees1 := Spliced(k, h2, q, ll, N + 1 + c), trees[c := Plug(h2, ll)];
    ReplaceIndex(text, k1, trees1, members - {q}, h, Plug(g, ll), p, r, q);
    PlacedBounds(k, h2, ll, q, Leaf, N + 1 + c);
    PlacedBounds(k1, h, Plug(g, ll), p, r, N + 1 + c);
    SetBack(trees, c, Plug(h2, ll), Plug(h, Node(Plug(g, ll), q, r)), members, p, q);
  }

  lemma PlacedBounds(k: Links, h: Hole, l: Tree, p: nat, r: Tree, root: nat)
    requires Placed(k, h, l, p, r, root)
    ensures FatherOk(h) && p < N && PtrOf(l) <= N && PtrOf(r) <= N
  {
  }

  lemma SetBack(trees: seq<Tree>, c: nat, t1: Tree, t2: Tree, members: set<nat>, p: nat, q: nat)
    requires c < |trees| && q in members
    ensures trees[c := t1][c := t2] == trees[c := t2] && members - {q} + {q} - {p} == members - {p}
  {
  }

  lemma PlugInLeft(h: Hole, t: Tree, p: nat, r: Tree)
    ensures Plug(InLeft(h, p, r), t) == Plug(h, Node(t, p, r))
  {
  }

  lemma PlugInRight(h: Hole, l: Tree, p: nat, t: Tree)
    ensures Plug(InRight(h, l, p), t) == Plug(h, Node(l, p, t))
  {
  }

  /** One step of the search, to the side on which the new string belongs. */
  lemma Descend(text: seq<Byte>, k: Links, trees: seq<Tree>, members: set<nat>, c: Byte,
                h: Hole, t: Tree, r: nat, right: bool, len: nat, pos: int)
    returns (h': Hole, t': Tree)
    requires Index(text, k, trees, members) && trees[c] == Plug(h, t) && IsText(text) && r < N && t.Node? && t.pos < N
    requires Between(text, h, r) && BestMatch(text, r, Around(h) + {t.pos}, len, pos)
    requires if right then Precedes(text, t.pos, r) else Precedes(text, r, t.pos)
    ensures trees[c] == Plug(h', t') && Father(h', N + 1 + c) == t.pos && (right <==> !h'.InLeft?)
    ensures t' == if right then t.right else t.left
    ensures Between(text, h', r) && BestMatch(text, r, Around(h'), len, pos)
  {
    hide Index, BestMatch, Precedes, Ordered, Plug, InOrder, NoDup, Between, Around, IsText;
    OrderedAround(text, k, trees, members, c, h, t);
    if right {
      PlugInRight(h, t.left, t.pos, t.right);
      DescendRight(text, h, t, r, len, pos);
      h', t' := InRight(h, t.left, t.pos), t.right;
    } else {
      PlugInLeft(h, t.left, t.pos, t.right);
      DescendLeft(text, h, t, r, len, pos);
      h', t' := InLeft(h, t.pos, t.right), t.left;
    }
  }

  lemma MaxDiffers(h: Hole, g: Hole, t: Tree, p: nat, r: Tree)
    requires t.Node? && NoDup(InOrder(Plug(h, Node(Plug(g, t), p, r))))
    ensures t.pos != p
  {
    PartsApart(h, Plug(g, t), p, r);
    PlugInOrder(g, t);
    NodeInOrder(t);
    assert t.pos in Before(g) + InOrder(t) + Behind(g);
  }

  /** The common last step: q takes over the father of p, and p is marked unused. */
  function Unhooked(k: Links, p: nat, q: nat): (k': Links)
    requires IsLinks(k) && p < N && q <= N && k.dad[p] < N + 257 && (k.rson[k.dad[p]] == p || k.dad[p] <= N)
    ensures IsLinks(k')
  {
    var f := k.dad[p];
    var ds := k.dad[q := f][p := NIL];
    if k.rson[f] == p then Links(k.lson, k.rson[f := q], ds) else Links(k.lson[f := q], k.rson, ds)
  }

  lemma UnhookedIsSpliced(k: Links, h: Hole, l: Tree, p: nat, r: Tree, sub: Tree, root: nat)
    requires Placed(k, h, l, p, r, root) && HasOne(Node(l, p, r), sub)
    ensures k.dad[p] < N + 257 && (k.rson[k.dad[p]] == p || k.dad[p] <= N)
    ensures Unhooked(k, p, PtrOf(sub)) == Spliced(k, h, p, sub, root)
  {
  }

  /** The arrays after q has collected the subtrees of p, before that last step. */
  function Gathered(k: Links, p: nat, r: Tree, g: Hole, ll: Tree, q: nat): (k': Links)
    requires IsLinks(k) && p < N && q < N && PtrOf(ll) <= N && PtrOf(r) <= N && PtrOf(Plug(g, ll)) <= N && FatherOk(g)
    ensures IsLinks(k')
  {
    if g.Top? then Links(k.lson, k.rson[q := PtrOf(r)], k.dad[PtrOf(r) := q])
    else Links(k.lson[q := PtrOf(Plug(g, ll))],
               k.rson[g.pos := PtrOf(ll)][q := PtrOf(r)],
               k.dad[PtrOf(ll) := g.pos][PtrOf(Plug(g, ll)) := q][PtrOf(r) := q])
  }

  /** The nodes named in the assignments are all different. */
  ghost predicate Different(h: Hole, p: nat, r: Tree, g: Hole, ll: Tree, q: nat, root: nat) {
    var f, a, b, c := Father(h, root), PtrOf(ll), PtrOf(Plug(g, ll)), PtrOf(r);
    && p != q && f != p && f != q && q != a && q != b && q != c && p != a && p != b && p != c
    && (!g.Top? ==> g.pos != f && g.pos != q && g.pos != p)
  }

  lemma MaxTakenDeep(k: Links, h: Hole, p: nat, r: Tree, g: Hole, ll: Tree, q: nat, root: nat)
    requires IsLinks(k) && IsRoot(root) && FatherOk(h) && FatherOk(g) && p < N && q < N
    requires PtrOf(ll) <= N && PtrOf(Plug(g, ll)) <= N && PtrOf(r) <= N
    requires g.InRight? && Different(h, p, r, g, ll, q, root)
    requires Placed(Spliced(k, Append(InLeft(h, p, r), g), q, ll, root), h, Plug(g, ll), p, r, root)
    ensures var k' := Gathered(k, p, r, g, ll, q);
            && k'.dad[p] < N + 257 && (k'.rson[k'.dad[p]] == p || k'.dad[p] <= N)
            && Unhooked(k', p, q) == MaxTaken(k, h, p, r, g, ll, q, root)
  {
    hide Plug;
  }

  lemma MaxTakenTop(k: Links, h: Hole, p: nat, r: Tree, ll: Tree, q: nat, root: nat, y: nat)
    requires IsLinks(k) && IsRoot(root) && FatherOk(h) && p < N && q < N
    requires PtrOf(ll) <= N && PtrOf(r) <= N
    requires Different(h, p, r, Top, ll, q, root)
    requires Placed(k, InLeft(h, p, r), ll, q, Leaf, root)
    requires Placed(Spliced(k, InLeft(h, p, r), q, ll, root), h, ll, p, r, root)
    ensures var k' := Gathered(k, p, r, Top, ll, q);
            && k'.dad[p] < N + 257 && (k'.rson[k'.dad[p]] == p || k'.dad[p] <= N)
            && var k1, k2 := Unhooked(k', p, q), MaxTaken(k, h, p, r, Top, ll, q, root);
               && (y < N && y != p ==> Same(k2, k1, y)) && k1.dad[p] == NIL
               && (N + 1 <= y <= N + 256 ==> k1.rson[y] == k2.rson[y])
  {
  }

  lemma NodesDiffer(h: Hole, p: nat, r: Tree, g: Hole, ll: Tree, q: nat, root: nat)
    requires NoDup(InOrder(Plug(h, Node(Plug(g, Node(ll, q, Leaf)), p, r)))) && IsRoot(root)
    requires FatherOk(h) && FatherOk(g) && p < N && q < N
    requires forall y :: y in InOrder(ll) || y in InOrder(r) ==> y < N
    ensures Different(h, p, r, g, ll, q, root)
  {
    hide NoDup, Plug, InOrder, Around;
    var t := Node(ll, q, Leaf);
    MaxDiffers(h, g, t, p, r);
    PartsApart(h, Plug(g, t), p, r);
    NoDupHole(h, Node(Plug(g, t), p, r));
    SubNoDup(Node(Plug(g, t), p, r), Plug(g, t));
    PartsApart(g, ll, q, Leaf);
    InnerNodes(g, t);
    PluggedNodes(g, ll);
    if !h.Top? { FatherIsNode(h, root); FatherAround(h); }
    if ll.Node? { NodeInOrder(ll); }
    if r.Node? { NodeInOrder(r); }
    if Plug(g, ll).Node? { NodeInOrder(Plug(g, ll)); }
    if !g.Top? { FatherIsNode(g, root); FatherAround(g); }
  }

  lemma FatherAround(h: Hole)
    requires !h.Top?
    ensures h.pos in Around(h)
  {
  }

  lemma PluggedNodes(g: Hole, t: Tree)
    ensures forall y :: y in InOrder(Plug(g, t)) ==> y in Around(g) || y in InOrder(t)
  {
    PlugInOrder(g, t);
  }

  lemma InnerNodes(g: Hole, t: Tree)
    requires t.Node?
    ensures forall y :: y in Around(g) || y in InOrder(t.left) || y == t.pos ==> y in InOrder(Plug(g, t))
  {
    PlugInOrder(g, t);
    assert forall y :: y in Before(g) + Behind(g) ==> y in Before(g) + InOrder(t) + Behind(g);
    assert forall y :: y in InOrder(t.left) || y == t.pos ==> y in InOrder(t);
  }

  /** q is none of the nodes around p. */
  lemma ReplaceNodes(text: seq<Byte>, k: Links, trees: seq<Tree>, members: set<nat>,
                     h: Hole, l: Tree, p: nat, r: Tree, q: nat)
    requires Index(text, k, trees, members) && q < N && q !in members && p in members && text[p] == text[q]
    requires trees[text[q]] == Plug(h, Node(l, p, r))
    ensures p != q && q != PtrOf(l) && q != PtrOf(r) && p != PtrOf(l) && p != PtrOf(r)
    ensures var f := Father(h, N + 1 + text[q]); q != f && p != f
  {
    var c := text[q];
    TreeFacts(text, k, trees, members, c, h, Node(l, p, r));
    PartsApart(h, l, p, r);
    IndexBystanders(text, k, trees, members, c, h, Node(l, p, r));
    if l.Node? { NodeInOrder(l); assert l.pos in Before(h) + InOrder(Node(l, p, r)) + Behind(h); }
    if r.Node? { NodeInOrder(r); assert r.pos in Before(h) + InOrder(Node(l, p, r)) + Behind(h); }
    if !h.Top? { FatherIsNode(h, N + 1 + c); }
  }

  lemma StartSearch(text: seq<Byte>, r: nat, t: Tree, pos: int)
    requires IsText(text) && r < N
    ensures t == Plug(Top, t) && Between(text, Top, r) && BestMatch(text, r, Around(Top), 0, pos)
  {
  }

  lemma SameString(text: seq<Byte>, r: nat, p: nat)
    requires IsText(text) && r < N && p < N && Common(text, r, p) == F
    ensures StrAt(text, p) == StrAt(text, r) && text[p] == text[r]
  {
    var u, v := StrAt(text, r), StrAt(text, p);
    assert u[..F] == u && v[..F] == v;
    assert u[0] == text[r] && v[0] == text[p];
  }

  lemma DeletionStart(text: seq<Byte>, k: Links, trees: seq<Tree>, members: set<nat>, c: Byte,
                      h: Hole, l: Tree, p: nat, r: Tree)
    requires Index(text, k, trees, members) && trees[c] == Plug(h, Node(l, p, r))
    ensures p in members && p < N && text[p] == c
    ensures Placed(k, h, l, p, r, N + 1 + c)
    ensures Plug(Top, l) == l
  {
    TreeFacts(text, k, trees, members, c, h, Node(l, p, r));
    PlacedFacts(k, h, l, p, r, N + 1 + c);
    NodeInOrder(Node(l, p, r));
    assert p in Before(h) + InOrder(Node(l, p, r)) + Behind(h);
  }

  /** What the arrays hold at a node t on the right spine below p's left son. */
  lemma SpineFacts(text: seq<Byte>, k: Links, trees: seq<Tree>, members: set<nat>, c: Byte,
                   h: Hole, p: nat, r: Tree, g: Hole, t: Tree)
    requires Index(text, k, trees, members) && t.Node?
    requires trees[c] == Plug(h, Node(Plug(g, t), p, r))
    ensures FatherOk(g) && Placed(k, Append(InLeft(h, p, r), g), t.left, t.pos, t.right, N + 1 + c)
  {
    hide Index, Plug, InOrder, Ordered, NoDup, Linked;
    IndexShape(text, k, trees, members);
    PlugAppend(InLeft(h, p, r), g, t);
    PlugInLeft(h, Plug(g, t), p, r);
    TreeFacts(text, k, trees, members, c, Append(InLeft(h, p, r), g), t);
    PlacedFacts(k, Append(InLeft(h, p, r), g), t.left, t.pos, t.right, N + 1 + c);
  }

  /** One step down that spine. */
  lemma SpineDown(text: seq<Byte>, k: Links, trees: seq<Tree>, members: set<nat>, c: Byte,
                  h: Hole, p: nat, r: Tree, g: Hole, t: Tree)
    returns (g': Hole, t': Tree)
    requires Index(text, k, trees, members) && RightSpine(g) && t.Node? && t.right.Node?
    requires trees[c] == Plug(h, Node(Plug(g, t), p, r))
    ensures RightSpine(g') && g'.InRight? && FatherOk(g') && t' == t.right && Plug(g', t') == Plug(g, t)
    ensures Placed(k, Append(InLeft(h, p, r), g'), t'.left, t'.pos, t'.right, N + 1 + c)
  {
    hide Index, Plug, Placed, Append;
    PlugInRight(g, t.left, t.pos, t.right);
    g', t' := InRight(g, t.left, t.pos), t.right;
    SpineFacts(text, k, trees, members, c, h, p, r, g', t');
  }

  lemma GatherNodes(text: seq<Byte>, k: Links, trees: seq<Tree>, members: set<nat>,
                    h: Hole, p: nat, r: Tree, g: Hole, ll: Tree, q: nat, c: Byte)
    requires Index(text, k, trees, members) && RightSpine(g) && p < N && q < N && FatherOk(h) && FatherOk(g)
    requires trees[c] == Plug(h, Node(Plug(g, Node(ll, q, Leaf)), p, r))
    ensures Different(h, p, r, g, ll, q, N + 1 + c)
  {
    var t := Node(ll, q, Leaf);
    TreeFacts(text, k, trees, members, c, h, Node(Plug(g, t), p, r));
    InnerNodes(g, t);
    assert forall y :: y in InOrder(Plug(g, t)) || y in InOrder(r) ==>
        y in Before(h) + InOrder(Node(Plug(g, t), p, r)) + Behind(h);
    NodesDiffer(h, p, r, g, ll, q, N + 1 + c);
  }

  /** Where an indexed node sits. */
  lemma Find(text: seq<Byte>, k: Links, trees: seq<Tree>, members: set<nat>, p: nat)
    returns (h: Hole, l: Tree, r: Tree)
    requires Index(text, k, trees, members) && p in members
    ensures p < N && trees[text[p]] == Plug(h, Node(l, p, r))
    ensures Placed(k, h, l, p, r, N + 1 + text[p])
    ensures k.dad[p] != NIL && PtrOf(l) != p && PtrOf(r) != p
  {
    h, l, r := Locate(Top, trees[text[p]], p);
    DeletionStart(text, k, trees, members, text[p], h, l, p, r);
    TreeFacts(text, k, trees, members, text[p], h, Node(l, p, r));
    PartsApart(h, l, p, r);
    if l.Node? { NodeInOrder(l); }
    if r.Node? { NodeInOrder(r); }
    if !h.Top? {
      ReachedFacts(text, k, trees, members, text[p], h, Node(l, p, r));
    }
  }

  lemma PlacedSons(k: Links, h: Hole, l: Tree, p: nat, r: Tree, root: nat)
    requires Placed(k, h, l, p, r, root)
    ensures k.lson[p] == PtrOf(l) && k.rson[p] == PtrOf(r)
    ensures (l.Leaf? <==> PtrOf(l) == NIL) && (r.Leaf? <==> PtrOf(r) == NIL)
  {
  }

  /** Deleting a node with at most one subtree. */
  lemma DeleteOneIndex(text: seq<Byte>, k: Links, trees: seq<Tree>, members: set<nat>,
                       h: Hole, l: Tree, p: nat, r: Tree, c: Byte)
    requires Index(text, k, trees, members) && trees[c] == Plug(h, Node(l, p, r))
    requires l.Leaf? || r.Leaf?
    ensures IsLinks(k) && p < N && PtrOf(if r.Leaf? then l else r) <= N
    ensures k.dad[p] < N + 257 && (k.rson[k.dad[p]] == p || k.dad[p] <= N)
    ensures var sub := if r.Leaf? then l else r;
            Index(text, Unhooked(k, p, PtrOf(sub)), trees[c := Plug(h, sub)], members - {p})
  {
    hide Index, Plug, Spliced, Unhooked;
    var sub := if r.Leaf? then l else r;
    var t := Node(l, p, r);
    SpliceIndex(text, k, trees, members, h, t, sub, c);
    UnhookedIsSpliced(k, h, l, p, r, sub, N + 1 + c);
  }

  /** Deleting a node with two subtrees. */
  lemma DeleteTwoIndex(text: seq<Byte>, k: Links, trees: seq<Tree>, members: set<nat>,
                       h: Hole, p: nat, r: Tree, g: Hole, ll: Tree, q: nat, c: Byte)
    requires Index(text, k, trees, members) && RightSpine(g) && FatherOk(g) && q < N
    requires PtrOf(ll) <= N && PtrOf(Plug(g, ll)) <= N && PtrOf(r) <= N
    requires trees[c] == Plug(h, Node(Plug(g, Node(ll, q, Leaf)), p, r))
    ensures IsLinks(k) && p < N && q != p
    ensures var k' := Gathered(k, p, r, g, ll, q);
            && k'.dad[p] < N + 257 && (k'.rson[k'.dad[p]] == p || k'.dad[p] <= N)
            && Index(text, Unhooked(k', p, q), trees[c := Plug(h, Node(Plug(g, ll), q, r))], members - {p})
  {
    hide Index, Plug, Spliced, Unhooked, Gathered, MaxTaken, Placed, Different;
    IndexShape(text, k, trees, members);
    DeletionStart(text, k, trees, members, c, h, Plug(g, Node(ll, q, Leaf)), p, r);
    TakeMaxIndex(text, k, trees, members, h, p, r, g, ll, q, c);
    GatherNodes(text, k, trees, members, h, p, r, g, ll, q, c);
    if g.Top? {
      PlugTop(ll);
      DeleteTwoTop(text, k, trees, members, h, p, r, ll, q, c);
    } else {
      MaxTakenDeep(k, h, p, r, g, ll, q, N + 1 + c);
    }
  }

  lemma PlugTop(t: Tree)
    ensures Plug(Top, t) == t && FatherOk(Top)
  {
  }

  lemma DeleteTwoTop(text: seq<Byte>, k: Links, trees: seq<Tree>, members: set<nat>,
                     h: Hole, p: nat, r: Tree, ll: Tree, q: nat, c: Byte)
    requires IsLinks(k) && |trees| == 256 && FatherOk(h) && p < N && q < N
    requires PtrOf(ll) <= N && PtrOf(r) <= N
    requires Different(h, p, r, Top, ll, q, N + 1 + c)
    requires Placed(k, InLeft(h, p, r), ll, q, Leaf, N + 1 + c)
    requires Placed(Spliced(k, InLeft(h, p, r), q, ll, N + 1 + c), h, ll, p, r, N + 1 + c)
    requires Index(text, MaxTaken(k, h, p, r, Top, ll, q, N + 1 + c),
                   trees[c := Plug(h, Node(Plug(Top, ll), q, r))], members - {p})
    ensures var k' := Gathered(k, p, r, Top, ll, q);
            && k'.dad[p] < N + 257 && (k'.rson[k'.dad[p]] == p || k'.dad[p] <= N)
            && Index(text, Unhooked(k', p, q), trees[c := Plug(h, Node(Plug(Top, ll), q, r))], members - {p})
  {
    hide Index, Plug, Spliced, Unhooked, Gathered, MaxTaken, Placed, Different;
    PlugTop(ll);
    var k', root := Gathered(k, p, r, Top, ll, q), N + 1 + c;
    MaxTakenTop(k, h, p, r, ll, q, root, 0);
    var k1, k2 := Unhooked(k', p, q), MaxTaken(k, h, p, r, Top, ll, q, root);
    IndexShape(text, k2, trees[c := Plug(h, Node(Plug(Top, ll), q, r))], members - {p});
    forall y: nat | y < N && y != p
      ensures Same(k2, k1, y)
    {
      MaxTakenTop(k, h, p, r, ll, q, root, y);
    }
    forall b: Byte
      ensures RootOf(k2, b) == RootOf(k1, b)
    {
      MaxTakenTop(k, h, p, r, ll, q, root, N + 1 + b);
    }
    forall y | 0 <= y < N && y !in members - {p}
      ensures k1.dad[y] == NIL
    {
      if y != p { assert Same(k2, k1, y); }
    }
    IndexFrame(text, k2, k1, trees[c := Plug(h, Node(Plug(Top, ll), q, r))], members - {p});
  }
}
