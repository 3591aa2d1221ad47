/** How the pieces of an image lie in its erase blocks. */
module Jffs2Layout {
  import opened Buffers
  import opened LittleEndian
  import opened Arithmetic
  import opened Jffs2Format

  /** n bytes from position a on stay inside one erase block. */
  predicate Inside(eraseBlock: nat, a: nat, n: nat)
    requires eraseBlock > 0
  {
    a % eraseBlock + n <= eraseBlock
  }

  /** Every piece is well made and inside one erase block, and with marker set every block
      begins with it. Pieces are always at multiples of four. */
  ghost predicate Laid(ps: seq<Piece>, eraseBlock: nat, marker: seq<Piece>)
    requires eraseBlock > 0
  {
    forall k :: 0 <= k < |ps| ==> PieceLaid(ps, k, eraseBlock, marker)
  }

  ghost predicate PieceLaid(ps: seq<Piece>, k: nat, eraseBlock: nat, marker: seq<Piece>)
    requires eraseBlock > 0 && k < |ps|
  {
    var a := |Print(ps[..k])|;
    && PieceOk(ps[k]) && Inside(eraseBlock, a, |PieceBytes(ps[k])|)
    && (marker != [] && a % eraseBlock == 0 ==> ps[k] == marker[0])
  }

  lemma LaidSnoc(ps: seq<Piece>, p: Piece, eraseBlock: nat, marker: seq<Piece>)
    requires eraseBlock > 0 && Laid(ps, eraseBlock, marker) && PieceOk(p)
    requires Inside(eraseBlock, |Print(ps)|, |PieceBytes(p)|)
    requires marker != [] && |Print(ps)| % eraseBlock == 0 ==> p == marker[0]
    ensures Laid(ps + [p], eraseBlock, marker)
  {
    hide Print, PieceBytes, PieceOk, Inside;
    var qs := ps + [p];
    forall k: nat | k < |qs|
      ensures PieceLaid(qs, k, eraseBlock, marker)
    {
      assert qs[..k] == ps[..k];
      if k == |ps| { assert ps[..k] == ps; } else { assert PieceLaid(ps, k, eraseBlock, marker); }
    }
  }

  lemma {:induction false} LaidBlanks(ps: seq<Piece>, n: nat, eraseBlock: nat, marker: seq<Piece>)
    requires eraseBlock > 0 && Laid(ps, eraseBlock, marker)
    requires n > 0 ==> |Print(ps)| % eraseBlock != 0
    requires Inside(eraseBlock, |Print(ps)|, 4 * n)
    ensures Laid(ps + Blanks(n), eraseBlock, marker)
  {
    hide Print, Laid, Blanks, PieceBytes;
    if n == 0 {
      BlanksNext(1);
      NothingMore(ps);
    } else {
      var a := |Print(ps)|;
      BlankBytes();
      LaidBlanks(ps, n - 1, eraseBlock, marker);
      PrintBlanks(ps, n - 1);
      Further(a, 4 * (n - 1), eraseBlock);
      LaidSnoc(ps + Blanks(n - 1), Blank, eraseBlock, marker);
      BlanksNext(n);
      Regroup(ps, Blanks(n - 1), [Blank]);
    }
  }

  /** Without clean markers, blanks may lie anywhere. */
  lemma {:induction false} LaidAnywhere(ps: seq<Piece>, n: nat, eraseBlock: nat)
    requires eraseBlock > 0 && eraseBlock % 4 == 0 && Laid(ps, eraseBlock, [])
    ensures Laid(ps + Blanks(n), eraseBlock, [])
  {
    hide Print, Laid, Blanks, PieceBytes;
    if n == 0 {
      BlanksNext(1);
      NothingMore(ps);
    } else {
      BlankBytes();
      LaidAnywhere(ps, n - 1, eraseBlock);
      PrintAligned(ps + Blanks(n - 1));
      ModFour(|Print(ps + Blanks(n - 1))|, eraseBlock);
      LaidSnoc(ps + Blanks(n - 1), Blank, eraseBlock, []);
      BlanksNext(n);
      Regroup(ps, Blanks(n - 1), [Blank]);
    }
  }

  /** Moving on inside a block. */
  lemma Further(a: nat, n: nat, eraseBlock: nat)
    requires eraseBlock > 0 && a % eraseBlock + n < eraseBlock
    ensures (a + n) % eraseBlock == a % eraseBlock + n
  {
    var q := a / eraseBlock;
    ModOfMultiple(q, eraseBlock, a % eraseBlock + n);
  }

  lemma UpTo(a: nat, eraseBlock: nat)
    requires eraseBlock > 0 && a % eraseBlock != 0
    ensures (a + (eraseBlock - a % eraseBlock)) % eraseBlock == 0
  {
    var q := a / eraseBlock;
    assert a + (eraseBlock - a % eraseBlock) == (q + 1) * eraseBlock;
    ModOfMultiple(q + 1, eraseBlock, 0);
  }

  lemma ModFour(a: nat, eraseBlock: nat)
    requires eraseBlock > 0 && eraseBlock % 4 == 0 && a % 4 == 0
    ensures a % eraseBlock % 4 == 0
  {
    var q, e := a / eraseBlock, eraseBlock / 4;
    assert a == q * eraseBlock + a % eraseBlock;
    assert q * eraseBlock == 4 * (q * e);
  }

  /** Wherever an erase block ends, a piece ends. */
  lemma {:induction false} BlockEnds(ps: seq<Piece>, eraseBlock: nat, marker: seq<Piece>, at: nat) returns (k: nat)
    requires eraseBlock > 0 && Laid(ps, eraseBlock, marker) && at % eraseBlock == 0 && at <= |Print(ps)|
    ensures k <= |ps| && |Print(ps[..k])| == at
    decreases |ps|
  {
    if at == |Print(ps)| {
      k := |ps|;
      assert ps[..k] == ps;
    } else {
      var n := |ps| - 1;
      var front := ps[..n];
      assert PieceLaid(ps, n, eraseBlock, marker);
      LaidFront(ps, eraseBlock, marker);
      NotAcross(|Print(front)|, |PieceBytes(ps[n])|, at, eraseBlock);
      k := BlockEnds(front, eraseBlock, marker, at);
      assert front[..k] == ps[..k];
    }
  }

  lemma LaidFront(ps: seq<Piece>, eraseBlock: nat, marker: seq<Piece>)
    requires eraseBlock > 0 && ps != [] && Laid(ps, eraseBlock, marker)
    ensures Laid(ps[..|ps| - 1], eraseBlock, marker)
  {
    hide Print;
    var front := ps[..|ps| - 1];
    forall k: nat | k < |front|
      ensures PieceLaid(front, k, eraseBlock, marker)
    {
      assert PieceLaid(ps, k, eraseBlock, marker);
      assert front[..k] == ps[..k];
    }
  }

  lemma NotAcross(a: nat, n: nat, at: nat, eraseBlock: nat)
    requires eraseBlock > 0 && Inside(eraseBlock, a, n) && at % eraseBlock == 0 && at < a + n
    ensures at <= a
  {
    var q, p := a / eraseBlock, at / eraseBlock;
    assert at == p * eraseBlock && a + n <= (q + 1) * eraseBlock;
    QuotientIff(a, eraseBlock, p);
    MulOrder(q + 1, p, eraseBlock);
  }

  /** The nodes that are not clean markers, in order. */
  function Log(ps: seq<Piece>): seq<seq<Byte>>
    requires forall i :: 0 <= i < |ps| ==> PieceOk(ps[i])
  {
    if ps == [] then []
    else
      var p := ps[|ps| - 1];
      assert PieceOk(p);
      if p.Node? && Get16(p.bytes, 2) != NODETYPE_CLEANMARKER then Log(ps[..|ps| - 1]) + [p.bytes] else Log(ps[..|ps| - 1])
  }

  /** The highest inode number of a list of nodes, starting from ino. */
  function TopIno(log: seq<seq<Byte>>, ino: nat): nat
  {
    if log == [] then ino
    else
      var top := TopIno(log[..|log| - 1], ino);
      var b := log[|log| - 1];
      if IsNode(b) && Get16(b, 2) == NODETYPE_INODE && Get32(b, 12) > top then Get32(b, 12) else top
  }

  lemma TopSnoc(log: seq<seq<Byte>>, b: seq<Byte>, ino: nat)
    ensures TopIno(log + [b], ino) ==
            if IsNode(b) && Get16(b, 2) == NODETYPE_INODE && Get32(b, 12) > TopIno(log, ino) then Get32(b, 12) else TopIno(log, ino)
  {
    assert (log + [b])[..|log|] == log;
  }

  /** A scan of the pieces finds the same highest number. */
  lemma {:induction false} HighestIsTop(ps: seq<Piece>, ino: nat)
    requires forall i :: 0 <= i < |ps| ==> PieceOk(ps[i])
    ensures Highest(ps, ino) == TopIno(Log(ps), ino)
  {
    hide Get16, Get32;
    if ps != [] {
      var front, p := ps[..|ps| - 1], ps[|ps| - 1];
      assert PieceOk(p);
      HighestIsTop(front, ino);
      if p.Node? { TopSnoc(Log(front), p.bytes, ino); }
    }
  }

  lemma LaidOk(ps: seq<Piece>, eraseBlock: nat, marker: seq<Piece>)
    requires eraseBlock > 0 && Laid(ps, eraseBlock, marker)
    ensures forall i :: 0 <= i < |ps| ==> PieceOk(ps[i])
  {
    forall i: nat | i < |ps| ensures PieceOk(ps[i]) { assert PieceLaid(ps, i, eraseBlock, marker); }
  }

  lemma LogSnoc(ps: seq<Piece>, p: Piece)
    requires PieceOk(p) && forall i :: 0 <= i < |ps| ==> PieceOk(ps[i])
    ensures Log(ps + [p]) == if p.Node? && Get16(p.bytes, 2) != NODETYPE_CLEANMARKER then Log(ps) + [p.bytes] else Log(ps)
  {
    assert (ps + [p])[..|ps|] == ps;
  }

  lemma {:induction false} LogBlanks(ps: seq<Piece>, n: nat)
    requires forall i :: 0 <= i < |ps| ==> PieceOk(ps[i])
    ensures (forall i :: 0 <= i < |ps + Blanks(n)| ==> PieceOk((ps + Blanks(n))[i])) && Log(ps + Blanks(n)) == Log(ps)
  {
    if n == 0 {
      assert ps + Blanks(0) == ps;
    } else {
      LogBlanks(ps, n - 1);
      BlanksNext(n);
      Regroup(ps, Blanks(n - 1), [Blank]);
      LogSnoc(ps + Blanks(n - 1), Blank);
    }
  }
}
