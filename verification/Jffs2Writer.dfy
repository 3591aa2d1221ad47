/** The image writer: it appends nodes to the output file and keeps them inside erase blocks. */
module Jffs2Writer {
  import opened Buffers
  import opened Integers
  import opened LittleEndian
  import opened Jffs2Format
  import opened Jffs2Layout

  class Image {
    const erase_block_size: nat
    const add_cleanmarkers: bool
    const cleanmarker: seq<Byte>
    const cleanmarker_size: nat
    var out: seq<Byte>         // the output file
    var out_ofs: nat
    ghost var fits: bool       // out_ofs, an int, has not left its range so far
    ghost var ps: seq<Piece>   // what it consists of

    /** out_ofs is where the file ends, and every place so far was one that an int can hold
        if and only if this one is. */
    ghost predicate Offsets()
      reads this
    {
      out_ofs == |out| && (fits <==> |out| < INT_LIMIT)
    }

    /** The clean marker with its filling. */
    ghost function Marker(): seq<Byte>
      requires cleanmarker_size >= |cleanmarker|
    {
      cleanmarker + Ff(cleanmarker_size - |cleanmarker|)
    }

    /** The options are usable: an erase block is a multiple of four, and has room for a clean
        marker and largest bytes behind it. */
    ghost predicate Usable(largest: nat) {
      && erase_block_size > 0 && erase_block_size % 4 == 0
      && |cleanmarker| == UNKNOWN_NODE_SIZE && UNKNOWN_NODE_SIZE <= cleanmarker_size
      && IsNode(Marker()) && Get16(Marker(), 2) == NODETYPE_CLEANMARKER
      && cleanmarker_size + Slack(cleanmarker_size) + largest <= erase_block_size
    }

    ghost function MarkerPiece(): seq<Piece>
      requires cleanmarker_size >= |cleanmarker|
    {
      if add_cleanmarkers then [Node(Marker())] else []
    }

    ghost predicate Valid()
      reads this
    {
      && Usable(0)
      && Offsets() && out == Print(ps)
      && Laid(ps, erase_block_size, MarkerPiece())
    }

    /** The image may end with up to three bytes of 0xFF, when a size was asked for. */
    ghost predicate Closed(tail: nat)
      reads this
    {
      && Usable(0) && tail < 4
      && Offsets() && out == Print(ps) + Ff(tail)
      && Laid(ps, erase_block_size, MarkerPiece())
    }

    lemma ValidClosed()
      requires Valid()
      ensures Closed(0)
    {
      hide Print, Laid;
      NothingMore(out);
      assert Ff(0) == [];
    }

    lemma ClosedOffsets(tail: nat)
      requires Closed(tail)
      ensures fits <==> |out| < INT_LIMIT
    {
      hide Print, Laid;
    }

    /** write() may take any part of what it is given. */
    method FullWrite(buf: seq<Byte>)
      requires Offsets()
      modifies this`out, this`out_ofs, this`fits
      ensures out == old(out) + buf && Offsets()
    {
      var rest := buf;
      while |rest| > 0
        invariant out + rest == old(out) + buf && Offsets()
      {
        var ret: nat :| 1 <= ret <= |rest|;
        Regroup(out, rest[..ret], rest[ret..]);
        Whole(rest, ret);
        out := out + rest[..ret];
        rest := rest[ret..];
        out_ofs := out_ofs + ret;
        fits := fits && out_ofs < INT_LIMIT;
      }
      NothingMore(out);
    }

    /** pad */
    method PadBytes(req0: nat)
      requires Offsets()
      modifies this`out, this`out_ofs, this`fits
      ensures out == old(out) + Ff(req0) && Offsets()
    {
      var req := req0;
      NothingMore(out);
      while req > 0
        invariant 0 <= req <= req0 && out == old(out) + Ff(req0 - req) && Offsets()
      {
        var n := if req > 16 then 16 else req;
        Regroup(old(out), Ff(req0 - req), Ff(n));
        FfJoin(req0 - req, n);
        FullWrite(Ff(n));
        req := req - n;
      }
    }

    /** padword */
    method PadWord()
      requires Offsets()
      modifies this`out, this`out_ofs, this`fits
      ensures out == old(out) + Ff(Slack(old(out_ofs))) && Offsets()
    {
      NothingMore(out);
      if out_ofs % 4 != 0 {
        FullWrite(Ff(4 - out_ofs % 4));
      }
    }

    /** padblock: up to the end of the erase block. */
    method PadBlock()
      requires Valid()
      modifies this`out, this`out_ofs, this`fits, this`ps
      ensures Valid() && out_ofs % erase_block_size == 0 && out_ofs >= old(out_ofs) && LogOf(ps) == LogOf(old(ps))
    {
      hide Print, Laid, LogOf, IsNode, Inside;
      ghost var n := ToEnd(out_ofs, erase_block_size);
      PrintAligned(ps);
      EndAligned(out_ofs, erase_block_size);
      FillBlock(n);
      FillLaid(ps, n / 4, erase_block_size, MarkerPiece());
      ps := ps + Blanks(n / 4);
    }

    /** The loop of padblock. */
    method FillBlock(ghost n: nat)
      requires erase_block_size > 0 && Offsets()
      requires n == ToEnd(out_ofs, erase_block_size)
      modifies this`out, this`out_ofs, this`fits
      ensures out == old(out) + Ff(n) && Offsets() && out_ofs % erase_block_size == 0
    {
      ghost var done := 0;
      NothingMore(out);
      while out_ofs % erase_block_size != 0
        invariant done <= n && out == old(out) + Ff(done) && Offsets() && |out| == |old(out)| + done
        invariant (out_ofs % erase_block_size == 0 <==> done == n)
        invariant done < n ==> out_ofs % erase_block_size + (n - done) == erase_block_size
        decreases n - done
      {
        var left := erase_block_size - out_ofs % erase_block_size;
        var k := if 16 < left then 16 else left;
        if k < left { Further(out_ofs, k, erase_block_size); } else { UpTo(out_ofs, erase_block_size); }
        Regroup(old(out), Ff(done), Ff(k));
        FfJoin(done, k);
        FullWrite(Ff(k));
        done := done + k;
      }
    }

    /** 0xFF up to a given size, in an image without clean markers. */
    method PadWithFf(size: nat) returns (ghost tail: nat)
      requires Valid() && (size > 0 ==> !add_cleanmarkers)
      modifies this`out, this`out_ofs, this`fits, this`ps
      ensures Closed(tail) && LogOf(ps) == LogOf(old(ps))
      ensures out_ofs == if old(out_ofs) < size then size else old(out_ofs)
    {
      hide Print, Laid, LogOf, IsNode;
      tail := 0;
      NothingMore(out);
      assert Ff(0) == [];
      while out_ofs < size
        invariant Closed(tail) && LogOf(ps) == LogOf(old(ps))
        invariant tail > 0 ==> out_ofs >= size
        invariant out_ofs == old(out_ofs) || old(out_ofs) < out_ofs <= size
        decreases size - out_ofs
      {
        var n := if 16 < size - out_ofs then 16 else size - out_ofs;
        NothingMore(Print(ps));
        FillAnywhere(ps, n / 4, erase_block_size);
        FfJoin(4 * (n / 4), n % 4);
        Regroup(Print(ps), Ff(4 * (n / 4)), Ff(n % 4));
        FullWrite(Ff(n));
        ps := ps + Blanks(n / 4);
        tail := n % 4;
      }
    }

    /** A node in two parts, then padword. */
    method WriteNode(head: seq<Byte>, data: seq<Byte>)
      requires Valid() && IsNode(head + data) && Inside(erase_block_size, out_ofs, |head| + |data|)
      requires add_cleanmarkers && out_ofs % erase_block_size == 0 ==> head + data == Marker()
      modifies this`out, this`out_ofs, this`fits, this`ps
      ensures Valid() && out_ofs == old(out_ofs) + |head| + |data| + Slack(|head| + |data|)
      ensures LogOf(ps) == if Get16(head + data, 2) == NODETYPE_CLEANMARKER then LogOf(old(ps)) else LogOf(old(ps)) + [head + data]
    {
      hide Print, Laid, LogOf, IsNode, Inside;
      ghost var b := head + data;
      PrintAligned(ps);
      SlackAligned(out_ofs, |b|);
      NodeFits(out_ofs, |b|, erase_block_size);
      AppendNode(ps, b, erase_block_size, MarkerPiece());
      Regroup(out, head, data);
      Regroup(out, b, Ff(Slack(|b|)));
      FullWrite(head);
      FullWrite(data);
      PadWord();
      ps := ps + [Node(b)];
    }

    /** Every erase block begins with a clean marker. */
    method WriteMarker()
      requires Valid() && add_cleanmarkers && out_ofs % erase_block_size == 0
      modifies this`out, this`out_ofs, this`fits, this`ps
      ensures Valid() && LogOf(ps) == LogOf(old(ps))
      ensures out_ofs == old(out_ofs) + cleanmarker_size + Slack(cleanmarker_size)
    {
      hide Print, Laid, LogOf, IsNode;
      ghost var b := Marker();
      PrintAligned(ps);
      SlackAligned(out_ofs, |b|);
      NodeFits(out_ofs, |b|, erase_block_size);
      AppendNode(ps, b, erase_block_size, MarkerPiece());
      Regroup(out, cleanmarker, Ff(cleanmarker_size - |cleanmarker|));
      Regroup(out, b, Ff(Slack(|b|)));
      FullWrite(cleanmarker);
      PadBytes(cleanmarker_size - |cleanmarker|);
      PadWord();
      ps := ps + [Node(b)];
    }

    /** pad_block_if_less_than: afterwards req bytes fit into the erase block, behind its
        clean marker. */
    method PadBlockIfLessThan(req: nat)
      requires Valid() && Usable(req) && req > 0
      modifies this`out, this`out_ofs, this`fits, this`ps
      ensures Valid() && Inside(erase_block_size, out_ofs, req)
      ensures add_cleanmarkers ==> out_ofs % erase_block_size != 0
      ensures LogOf(ps) == LogOf(old(ps))
    {
      hide Valid, LogOf, IsNode;
      Start(req);
      if out_ofs % erase_block_size + req > erase_block_size {
        PadBlock();
      }
      Start(req);
    }

    /** The clean marker, if it is due here. */
    method Start(req: nat)
      requires Valid() && Usable(req) && req > 0
      modifies this`out, this`out_ofs, this`fits, this`ps
      ensures Valid() && LogOf(ps) == LogOf(old(ps))
      ensures add_cleanmarkers ==> out_ofs % erase_block_size != 0
      ensures old(out_ofs) % erase_block_size == 0 ==> Inside(erase_block_size, out_ofs, req)
      ensures old(out_ofs) % erase_block_size != 0 ==> out_ofs == old(out_ofs)
    {
      hide LogOf, IsNode, Print, Laid;
      if add_cleanmarkers {
        if out_ofs % erase_block_size == 0 {
          Further(out_ofs, cleanmarker_size + Slack(cleanmarker_size), erase_block_size);
          WriteMarker();
        }
      }
    }
  }

  lemma SlackAligned(a: nat, n: nat)
    requires a % 4 == 0
    ensures Slack(a + n) == Slack(n)
  {
  }

  lemma NodeFits(a: nat, n: nat, eraseBlock: nat)
    requires eraseBlock > 0 && eraseBlock % 4 == 0 && a % 4 == 0 && Inside(eraseBlock, a, n)
    ensures Inside(eraseBlock, a, n + Slack(n))
  {
    ModFour(a, eraseBlock);
  }

  lemma AppendNode(ps: seq<Piece>, b: seq<Byte>, eraseBlock: nat, marker: seq<Piece>)
    requires eraseBlock > 0 && Laid(ps, eraseBlock, marker) && IsNode(b)
    requires Inside(eraseBlock, |Print(ps)|, |b| + Slack(|b|))
    requires marker != [] && |Print(ps)| % eraseBlock == 0 ==> Node(b) == marker[0]
    ensures Laid(ps + [Node(b)], eraseBlock, marker) && Print(ps + [Node(b)]) == Print(ps) + (b + Ff(Slack(|b|)))
    ensures LogOf(ps + [Node(b)]) == if Get16(b, 2) == NODETYPE_CLEANMARKER then LogOf(ps) else LogOf(ps) + [b]
  {
    LaidSnoc(ps, Node(b), eraseBlock, marker);
    PrintSnoc(ps, Node(b));
    LaidOk(ps, eraseBlock, marker);
    LaidOk(ps + [Node(b)], eraseBlock, marker);
    LogSnoc(ps, Node(b));
  }

  lemma FillAnywhere(ps: seq<Piece>, n: nat, eraseBlock: nat)
    requires eraseBlock > 0 && eraseBlock % 4 == 0 && Laid(ps, eraseBlock, [])
    ensures Laid(ps + Blanks(n), eraseBlock, []) && Print(ps + Blanks(n)) == Print(ps) + Ff(4 * n)
    ensures LogOf(ps + Blanks(n)) == LogOf(ps)
  {
    LaidAnywhere(ps, n, eraseBlock);
    PrintBlanks(ps, n);
    LaidOk(ps, eraseBlock, []);
    LogBlanks(ps, n);
  }

  /** The number of bytes to the end of the erase block, none at its start. */
  ghost function ToEnd(a: nat, eraseBlock: nat): nat
    requires eraseBlock > 0
  {
    if a % eraseBlock == 0 then 0 else eraseBlock - a % eraseBlock
  }

  lemma EndAligned(a: nat, eraseBlock: nat)
    requires eraseBlock > 0 && eraseBlock % 4 == 0 && a % 4 == 0
    ensures ToEnd(a, eraseBlock) % 4 == 0 && Inside(eraseBlock, a, ToEnd(a, eraseBlock))
  {
    ModFour(a, eraseBlock);
  }

  /** The nodes of a list of pieces that are not clean markers. */
  ghost function LogOf(ps: seq<Piece>): seq<seq<Byte>> {
    if forall i :: 0 <= i < |ps| ==> PieceOk(ps[i]) then Log(ps) else []
  }

  lemma FillLaid(ps: seq<Piece>, n: nat, eraseBlock: nat, marker: seq<Piece>)
    requires eraseBlock > 0 && Laid(ps, eraseBlock, marker)
    requires n > 0 ==> |Print(ps)| % eraseBlock != 0
    requires Inside(eraseBlock, |Print(ps)|, 4 * n)
    ensures Laid(ps + Blanks(n), eraseBlock, marker) && Print(ps + Blanks(n)) == Print(ps) + Ff(4 * n)
    ensures LogOf(ps + Blanks(n)) == LogOf(ps)
  {
    LaidBlanks(ps, n, eraseBlock, marker);
    PrintBlanks(ps, n);
    LaidOk(ps, eraseBlock, marker);
    LogBlanks(ps, n);
  }
}
