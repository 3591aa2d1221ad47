/** The match finder: window and trees in arrays, updated in place. */
module LzariMatcher {
  import opened Buffers
  import opened LzariModel
  import opened LzariCode
  import opened LzariTree
  import opened LzariIndex

  class Matcher {
    const text_buf: array<Byte>
    const lson: array<nat>
    const rson: array<nat>
    const dad: array<nat>
    var match_position: nat
    var match_length: nat
    ghost var trees: seq<Tree>
    ghost var members: set<nat>  // the indexed positions
    ghost const Repr: set<object>

    ghost predicate Allocated() {
      && text_buf.Length == N + F - 1
      && lson.Length == N + 1 && rson.Length == N + 257 && dad.Length == N + 1
      && lson != rson && lson != dad && rson != dad
      && Repr == {text_buf as object, lson, rson, dad}
    }

    ghost function K(): Links
      reads lson, rson, dad
    {
      Links(lson[..], rson[..], dad[..])
    }

    ghost predicate Valid()
      reads this`trees, this`members, text_buf, lson, rson, dad
    {
      Allocated() && Index(text_buf[..], K(), trees, members)
    }

    constructor ()
      ensures Allocated() && fresh(Repr)
    {
      var t, l, r, d := new Byte[N + F - 1], new nat[N + 1], new nat[N + 257], new nat[N + 1];
      text_buf, lson, rson, dad := t, l, r, d;
      match_position, match_length, trees, members := 0, 0, [], {};
      Repr := {t as object, l, r, d};
    }

    method InitTree()
      requires Allocated()
      modifies rson, dad, this`trees, this`members
      ensures Valid() && members == {}
    {
      var i := N + 1;
      while i <= N + 256
        invariant N + 1 <= i <= N + 257
        invariant forall j :: N + 1 <= j < i ==> rson[j] == NIL
      {
        rson[i] := NIL;
        i := i + 1;
      }
      i := 0;
      while i < N
        invariant 0 <= i <= N
        invariant forall j :: N + 1 <= j <= N + 256 ==> rson[j] == NIL
        invariant forall j :: 0 <= j < i ==> dad[j] == NIL
      {
        dad[i] := NIL;
        i := i + 1;
      }
      trees := seq(256, _ => Leaf);
      members := {};
      forall c: Byte
        ensures TreeOk(text_buf[..], K(), trees[c], c, members)
      {
        assert trees[c] == Leaf;
      }
    }

    /** Compare the strings at r and p, whose first bytes are known to agree. */
    method Compare(r: nat, p: nat) returns (i: nat, cmp: int)
      requires Allocated() && r < N && p < N && text_buf[r] == text_buf[p]
      ensures i == Common(text_buf[..], r, p)
      ensures cmp >= 0 <==> i == F || Precedes(text_buf[..], p, r)
      ensures cmp < 0 <==> Precedes(text_buf[..], r, p)
    {
      ghost var u, v := StrAt(text_buf[..], r), StrAt(text_buf[..], p);
      i := 1;
      cmp := 0;
      while i < F
        invariant 1 <= i <= F && cmp == 0
        invariant u[..i] == v[..i]
      {
        cmp := text_buf[r + i] as int - text_buf[p + i] as int;
        if cmp != 0 { break; }
        assert u[..i + 1] == u[..i] + [u[i]] && v[..i + 1] == v[..i] + [v[i]];
        i := i + 1;
      }
      LcpIs(u, v, i);
      LcpSymmetric(u, v);
    }

    /** Remember a longer match, or a nearer one of the same length. */
    method Note(r: nat, p: nat, i: nat, ghost seen: set<nat>)
      requires Allocated() && r < N && p < N && i == Common(text_buf[..], r, p) && p !in seen
      requires BestMatch(text_buf[..], r, seen, match_length, match_position)
      modifies this`match_position, this`match_length
      ensures BestMatch(text_buf[..], r, seen + {p}, match_length, match_position)
      ensures match_length <= F
      ensures match_length == F <==> i == F || old(match_length) == F
      ensures i <= match_length || i <= THRESHOLD
      ensures i == F && old(match_length) < F ==> match_position == (r - p) % N
    {
      hide BestMatch, Common;
      ghost var len0, pos0 := match_length, match_position;
      BestMatchBound(text_buf[..], r, seen, len0, pos0, p);
      if i > THRESHOLD {
        if i > match_length {
          match_position := (r - p) % N;
          match_length := i;
        } else if i == match_length {
          var temp := (r - p) % N;
          if temp < match_position { match_position := temp; }
        }
      }
      BestMatchNoted(text_buf[..], r, seen, p, len0, pos0, match_length, match_position);
    }

    /** Hang r into the empty hole on the right of p. */
    method AttachRight(p: nat, r: nat, ghost h: Hole)
      requires Valid() && r < N && r !in members && lson[r] == rson[r] == NIL
      requires trees[text_buf[r]] == Plug(h, Leaf) && Between(text_buf[..], h, r)
      requires !h.InLeft? && p == Father(h, N + 1 + text_buf[r])
      modifies rson, dad, this`trees, this`members
      ensures Valid() && members == old(members) + {r}
    {
      hide Index;
      ghost var text, k, c := text_buf[..], K(), text_buf[r];
      IndexShape(text, k, trees, members);
      AttachIndex(text, k, trees, members, h, r);
      rson[p] := r;
      dad[r] := p;
      assert K() == Links(k.lson, k.rson[p := r], k.dad[r := p]);
      trees := trees[c := Plug(h, Node(Leaf, r, Leaf))];
      members := members + {r};
    }

    method AttachLeft(p: nat, r: nat, ghost h: Hole)
      requires Valid() && r < N && r !in members && lson[r] == rson[r] == NIL
      requires trees[text_buf[r]] == Plug(h, Leaf) && Between(text_buf[..], h, r)
      requires h.InLeft? && p == h.pos
      modifies lson, dad, this`trees, this`members
      ensures Valid() && members == old(members) + {r}
    {
      hide Index;
      ghost var text, k, c := text_buf[..], K(), text_buf[r];
      IndexShape(text, k, trees, members);
      AttachIndex(text, k, trees, members, h, r);
      lson[p] := r;
      dad[r] := p;
      assert K() == Links(k.lson[p := r], k.rson, k.dad[r := p]);
      trees := trees[c := Plug(h, Node(Leaf, r, Leaf))];
      members := members + {r};
    }

    /** The assignments by which r takes the place and the subtrees of p. */
    method TakePlace(p: nat, r: nat, ghost h: Hole, ghost left: Tree, ghost right: Tree, ghost root: nat)
      requires Allocated() && r < N && Placed(K(), h, left, p, right, root)
      requires p != r && r != PtrOf(left) && r != PtrOf(right) && p != PtrOf(left) && p != PtrOf(right)
      requires r != Father(h, root) && p != Father(h, root)
      modifies lson, rson, dad
      ensures K() == Relinked(old(K()), h, left, p, right, r, root)
    {
      dad[r] := dad[p];
      lson[r] := lson[p];
      rson[r] := rson[p];
      dad[lson[p]] := r;
      dad[rson[p]] := r;
      if rson[dad[p]] == p { rson[dad[p]] := r; } else { lson[dad[p]] := r; }
      dad[p] := NIL;
    }

    /** Put r in the place of p, whose string is the same. */
    method Replace(p: nat, r: nat, ghost h: Hole, ghost left: Tree, ghost right: Tree)
      requires Valid() && r < N && r !in members && p in members && p < N
      requires StrAt(text_buf[..], p) == StrAt(text_buf[..], r) && text_buf[p] == text_buf[r]
      requires trees[text_buf[r]] == Plug(h, Node(left, p, right))
      modifies lson, rson, dad, this`trees, this`members
      ensures Valid() && members == old(members) + {r} - {p}
    {
      hide Index, Plug, InOrder, Linked, Ordered, Relinked, Placed;
      ghost var text, k, c := text_buf[..], K(), text_buf[r];
      IndexShape(text, k, trees, members);
      OrderedAround(text, k, trees, members, c, h, Node(left, p, right));
      SameStringOrdered(text, h, left, p, right, r);
      ReplaceIndex(text, k, trees, members, h, left, p, right, r);
      ReplaceNodes(text, k, trees, members, h, left, p, right, r);
      TakePlace(p, r, h, left, right, N + 1 + c);
      trees := trees[c := Plug(h, Node(left, r, right))];
      members := members + {r} - {p};
    }

    /** The loop of InsertNode: it ends at an empty place, or at an equal string. */
    method Search(r: nat) returns (p: nat, cmp: int, ghost h: Hole, ghost t: Tree)
      requires Valid() && r < N && r !in members
      modifies this`match_length, this`match_position
      ensures trees[text_buf[r]] == Plug(h, t) && Between(text_buf[..], h, r)
      ensures BestMatch(text_buf[..], r, members, match_length, match_position) && match_length <= F
      ensures match_length < F ==> t == Leaf && p == Father(h, N + 1 + text_buf[r]) && (cmp >= 0 <==> !h.InLeft?)
      ensures match_length == F ==> t.Node? && p == t.pos < N && p in members && Common(text_buf[..], r, p) == F
                                    && match_position == (r - p) % N
    {
      hide Index, BestMatch, Linked, Common, Precedes, Ordered, Plug, InOrder, NoDup, Between, Around;
      ghost var text, k := text_buf[..], K();
      IndexShape(text, k, trees, members);
      match_length := 0;
      var c := text_buf[r];
      p := N + 1 + c;
      cmp := 1;
      h, t := Top, trees[c];
      StartSearch(text, r, t, match_position);
      while true
        invariant trees[c] == Plug(h, t) && p == Father(h, N + 1 + c) && (cmp >= 0 <==> !h.InLeft?)
        invariant match_length < F && BestMatch(text, r, Around(h), match_length, match_position)
        invariant Between(text, h, r)
        decreases t
      {
        ReachedFacts(text, k, trees, members, c, h, t);
        if cmp >= 0 {
          if rson[p] != NIL { p := rson[p]; } else {
            BestMatchEverywhere(text, r, Around(h), members, match_length, match_position);
            return;
          }
        } else {
          if lson[p] != NIL { p := lson[p]; } else {
            BestMatchEverywhere(text, r, Around(h), members, match_length, match_position);
            return;
          }
        }
        var i;
        i, cmp := Compare(r, p);
        Note(r, p, i, Around(h));
        if match_length >= F {
          BestMatchEverywhere(text, r, Around(h) + {p}, members, match_length, match_position);
          return;
        }
        h, t := Descend(text, k, trees, members, c, h, t, r, cmp >= 0, match_length, match_position);
      }
    }

    /** Index the string at r, and find the longest match among the strings indexed
        before. A string equal to the new one is replaced by it. */
    method InsertNode(r: nat)
      requires Valid() && r < N && r !in members
      modifies this, lson, rson, dad
      ensures Valid()
      ensures BestMatch(text_buf[..], r, old(members), match_length, match_position)
      ensures match_length <= F && r in members && members <= old(members) + {r}
      ensures match_length < F ==> members == old(members) + {r}
      ensures match_length == F ==> exists p :: p in old(members) && p < N && match_position == (r - p) % N
                                                && Common(text_buf[..], r, p) == F && members == old(members) + {r} - {p}
    {
      hide Index, BestMatch, Common, Plug, Between;
      ghost var text, k := text_buf[..], K();
      IndexShape(text, k, trees, members);
      rson[r] := NIL;
      lson[r] := NIL;
      IndexFrame(text, k, K(), trees, members);
      var p, cmp;
      ghost var h, t;
      p, cmp, h, t := Search(r);
      if match_length < F {
        if cmp >= 0 { AttachRight(p, r, h); } else { AttachLeft(p, r, h); }
      } else {
        SameString(text, r, p);
        Replace(p, r, h, t.left, t.right);
      }
    }

    /** q takes over the father of p, and p is marked unused. */
    method Unhook(p: nat, q: nat)
      requires Allocated() && p < N && q <= N && q != p && dad[p] < N + 257
      requires rson[dad[p]] == p || dad[p] <= N
      modifies lson, rson, dad
      ensures K() == Unhooked(old(K()), p, q)
    {
      dad[q] := dad[p];
      if rson[dad[p]] == p { rson[dad[p]] := q; } else { lson[dad[p]] := q; }
      dad[p] := NIL;
    }

    /** The assignments by which q leaves its place to its left son and takes over the
        left subtree of p. */
    method CutOut(p: nat, q: nat)
      requires Allocated() && p < N && q < N && p != q && dad[q] < N && lson[q] <= N && lson[p] < N
      requires dad[q] != q && lson[q] != q
      modifies lson, rson, dad
      ensures K() == Links(old(lson[..])[q := old(lson[p])], old(rson[..])[old(dad[q]) := old(lson[q])],
                           old(dad[..])[old(lson[q]) := old(dad[q])][old(lson[p]) := q])
    {
      rson[dad[q]] := lson[q];
      dad[lson[q]] := dad[q];
      lson[q] := lson[p];
      dad[lson[p]] := q;
    }

    /** The last node of the left subtree of p. */
    method LastLeft(p: nat, ghost h: Hole, ghost left: Tree, ghost right: Tree)
      returns (q: nat, ghost g: Hole, ghost ll: Tree)
      requires Valid() && p in members && p < N && trees[text_buf[p]] == Plug(h, Node(left, p, right))
      requires left.Node? && right.Node?
      ensures RightSpine(g) && left == Plug(g, Node(ll, q, Leaf)) && q < N
      ensures lson[p] < N && (g.InRight? <==> rson[lson[p]] != NIL)
    {
      hide Index, Plug, InOrder, Linked, Ordered, NoDup;
      ghost var text, k, c := text_buf[..], K(), text_buf[p];
      ghost var t := left;
      g := Top;
      DeletionStart(text, k, trees, members, c, h, left, p, right);
      q := lson[p];
      assert q == PtrOf(left);
      SpineFacts(text, k, trees, members, c, h, p, right, g, t);
      while rson[q] != NIL
        invariant q < N && q == PtrOf(t) && t.Node? && left == Plug(g, t) && RightSpine(g)
        invariant (g == Top && q == lson[p]) || (g.InRight? && rson[lson[p]] != NIL)
        invariant Placed(k, Append(InLeft(h, p, right), g), t.left, q, t.right, N + 1 + c)
        decreases t
      {
        g, t := SpineDown(text, k, trees, members, c, h, p, right, g, t);
        q := rson[q];
      }
      ll := t.left;
    }

    /** For a node p with two subtrees: find the last node q of the left one, cut it
        out, and give it the subtrees of p. */
    method TakeMax(p: nat, ghost h: Hole, ghost left: Tree, ghost right: Tree)
      returns (q: nat, ghost g: Hole, ghost ll: Tree)
      requires Valid() && p in members && p < N && trees[text_buf[p]] == Plug(h, Node(left, p, right))
      requires left.Node? && right.Node?
      modifies lson, rson, dad
      ensures RightSpine(g) && left == Plug(g, Node(ll, q, Leaf)) && FatherOk(g) && q < N
      ensures PtrOf(ll) <= N && PtrOf(Plug(g, ll)) <= N && PtrOf(right) <= N
      ensures K() == Gathered(old(K()), p, right, g, ll, q)
    {
      hide Index, Plug, InOrder, Linked, Ordered, NoDup, MaxTaken;
      ghost var text, k, c := text_buf[..], K(), text_buf[p];
      q, g, ll := LastLeft(p, h, left, right);
      TakeMaxIndex(text, k, trees, members, h, p, right, g, ll, q, c);
      if rson[lson[p]] != NIL {
        GatherNodes(text, k, trees, members, h, p, right, g, ll, q, c);
        CutOut(p, q);
      }
      rson[q] := rson[p];
      dad[rson[p]] := q;
    }

    /** Take the string at p out of the index, if it is there. */
    method DeleteNode(p: nat)
      requires Valid() && p < N
      modifies lson, rson, dad, this`trees, this`members
      ensures Valid() && members == old(members) - {p}
    {
      hide Index, Plug, Linked, Ordered, NoDup, Placed, Unhooked, Gathered;
      ghost var text, k := text_buf[..], K();
      var c := text_buf[p];
      IndexShape(text, k, trees, members);
      if dad[p] == NIL {
        if p in members { ghost var _, _, _ := Find(text, k, trees, members, p); }
        return;
      }
      ghost var h, l, r := Find(text, k, trees, members, p);
      PlacedSons(k, h, l, p, r, N + 1 + c);
      var q;
      if rson[p] == NIL {
        q := lson[p];
        DeleteOneIndex(text, k, trees, members, h, l, p, r, c);
        trees := trees[c := Plug(h, l)];
      } else if lson[p] == NIL {
        q := rson[p];
        DeleteOneIndex(text, k, trees, members, h, l, p, r, c);
        trees := trees[c := Plug(h, r)];
      } else {
        ghost var g, ll;
        q, g, ll := TakeMax(p, h, l, r);
        DeleteTwoIndex(text, k, trees, members, h, p, r, g, ll, q, c);
        trees := trees[c := Plug(h, Node(Plug(g, ll), q, r))];
      }
      Unhook(p, q);
      members := members - {p};
    }
  }
}
