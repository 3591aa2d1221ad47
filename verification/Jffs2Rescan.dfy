/** Reading an image back: the pass over its erase blocks that an incremental run starts with. */
module Jffs2Rescan {
  import opened Buffers
  import opened LittleEndian
  import opened Arithmetic
  import opened Jffs2Format
  import opened Jffs2Layout

  /** PAD on 32-bit numbers. */
  function Pad(x: Word): Word {
    (x + 3) / 4 * 4 % MAX_U32
  }

  /** PAD makes no progress on exactly these lengths. */
  lemma PadStuck(x: Word)
    ensures Pad(x) == 0 <==> x == 0 || x > MAX_U32 - 4
  {
  }

  // ---------- the scan of any buffer

  /** The type with its accurate bit set. */
  function Accurate(nodetype: nat): nat {
    if nodetype / NODE_ACCURATE % 2 == 0 then nodetype + NODE_ACCURATE else nodetype
  }

  /** A header is taken for a node; anything else is passed over by four bytes. */
  predicate Header(mem: seq<Byte>, p: nat)
    requires p + 16 <= |mem|
  {
    Get16(mem, p) == MAGIC_BITMASK && Accurate(Get16(mem, p + 2)) != 0xffff
  }

  /** The header of a node that claims a length by which PAD makes no progress. */
  predicate Blocked(mem: seq<Byte>, p: nat)
    requires p + 16 <= |mem|
  {
    Header(mem, p) && (Get32(mem, p + 4) == 0 || Get32(mem, p + 4) > MAX_U32 - 4)
  }

  /** How far one round gets. */
  function Stride(mem: seq<Byte>, p: nat): nat
    requires p + 16 <= |mem|
  {
    if Header(mem, p) then Pad(Get32(mem, p + 4)) else 4
  }

  function Raised(mem: seq<Byte>, p: nat, ino: nat): nat
    requires p + 16 <= |mem|
  {
    if Header(mem, p) && Accurate(Get16(mem, p + 2)) == NODETYPE_INODE && Get32(mem, p + 12) > ino then Get32(mem, p + 12) else ino
  }

  function Noted(mem: seq<Byte>, p: nat, visited: seq<nat>): seq<nat>
    requires p + 16 <= |mem|
  {
    if Header(mem, p) then visited + [p] else visited
  }

  lemma StrideMoves(mem: seq<Byte>, p: nat)
    requires p + 16 <= |mem|
    ensures Blocked(mem, p) <==> Stride(mem, p) == 0
    ensures Stride(mem, p) < MAX_U32
  {
    hide Get16, Get32;
    PadStuck(Get32(mem, p + 4));
  }

  /** Where the buffer lies, and how many addresses there are. */
  datatype Host = Host(base: nat, width: nat)

  predicate Fits(h: Host, mem: seq<Byte>, size: nat) {
    size + 16 <= |mem| && MAX_U32 <= h.width && h.base + |mem| <= h.width
  }

  /** The next position in the buffer; None when the pointer, carried over the last address,
      comes back below the buffer. */
  function NextPos(mem: seq<Byte>, h: Host, p: nat): Option<nat>
    requires p + 16 <= |mem|
  {
    var q := p + Stride(mem, p);
    if h.base + q < h.width then Some(q) else if q >= h.width then Some(q - h.width) else None
  }

  /** Where the pointer of process_buffer is after n rounds. */
  function PosAfter(mem: seq<Byte>, size: nat, h: Host, n: nat): Option<nat>
    requires size + 16 <= |mem|
  {
    if n == 0 then Some(0)
    else
      match PosAfter(mem, size, h, n - 1)
      case None => None
      case Some(p) => if p >= size then Some(p) else NextPos(mem, h, p)
  }

  ghost predicate Reaches(mem: seq<Byte>, size: nat, h: Host, n: nat, p: nat)
    requires size + 16 <= |mem|
  {
    PosAfter(mem, size, h, n) == Some(p)
  }

  /** Some number of rounds takes the pointer past the end. */
  ghost predicate Ends(mem: seq<Byte>, size: nat, h: Host)
    requires size + 16 <= |mem|
  {
    exists n: nat, p: nat :: Reaches(mem, size, h, n, p) && p >= size
  }

  ghost predicate LostAt(mem: seq<Byte>, size: nat, h: Host, n: nat)
    requires size + 16 <= |mem|
  {
    PosAfter(mem, size, h, n) == None
  }

  /** The pointer comes out below the buffer. */
  ghost predicate Lost(mem: seq<Byte>, size: nat, h: Host)
    requires size + 16 <= |mem|
  {
    exists n: nat :: LostAt(mem, size, h, n)
  }

  ghost predicate Returns(mem: seq<Byte>, size: nat, h: Host, i: nat, j: nat)
    requires size + 16 <= |mem|
  {
    && i < j && PosAfter(mem, size, h, i).Some? && PosAfter(mem, size, h, i) == PosAfter(mem, size, h, j)
    && PosAfter(mem, size, h, i).value < size
  }

  /** The pointer comes to a place twice. */
  ghost predicate Repeats(mem: seq<Byte>, size: nat, h: Host)
    requires size + 16 <= |mem|
  {
    exists i: nat, j: nat :: Returns(mem, size, h, i, j)
  }

  /** The pointer comes to a header that holds it. */
  ghost predicate Stuck(mem: seq<Byte>, size: nat, h: Host)
    requires size + 16 <= |mem|
  {
    exists n: nat, p: nat :: Reaches(mem, size, h, n, p) && p < size && Blocked(mem, p)
  }

  /** The length of a header would carry the pointer over the last address. */
  predicate Carries(mem: seq<Byte>, h: Host, p: nat)
    requires p + 16 <= |mem|
  {
    h.base + p + Stride(mem, p) >= h.width
  }

  ghost predicate Carried(mem: seq<Byte>, size: nat, h: Host)
    requires size + 16 <= |mem|
  {
    exists n: nat, p: nat :: Reaches(mem, size, h, n, p) && p < size && Carries(mem, h, p)
  }

  /** Past the end, and below the buffer, nothing more happens. */
  lemma {:induction false} PosStays(mem: seq<Byte>, size: nat, h: Host, n: nat, m: nat)
    requires size + 16 <= |mem| && n <= m
    requires PosAfter(mem, size, h, n) == None || PosAfter(mem, size, h, n).value >= size
    ensures PosAfter(mem, size, h, m) == PosAfter(mem, size, h, n)
  {
    hide NextPos;
    if n < m { PosStays(mem, size, h, n, m - 1); }
  }

  lemma {:induction false} PosShifts(mem: seq<Byte>, size: nat, h: Host, i: nat, j: nat, k: nat)
    requires size + 16 <= |mem| && PosAfter(mem, size, h, i) == PosAfter(mem, size, h, j)
    ensures PosAfter(mem, size, h, i + k) == PosAfter(mem, size, h, j + k)
  {
    hide NextPos;
    if k > 0 { PosShifts(mem, size, h, i, j, k - 1); }
  }

  /** Once it has come to a place twice, it goes round for ever. */
  lemma {:induction false} RoundForEver(mem: seq<Byte>, size: nat, h: Host, i: nat, j: nat, n: nat)
    requires size + 16 <= |mem| && Returns(mem, size, h, i, j)
    ensures PosAfter(mem, size, h, n).Some? && PosAfter(mem, size, h, n).value < size
  {
    hide PosAfter;
    if n <= j {
      if PosAfter(mem, size, h, n) == None || PosAfter(mem, size, h, n).value >= size { PosStays(mem, size, h, n, j); }
    } else {
      PosShifts(mem, size, h, i, j, n - j);
      RoundForEver(mem, size, h, i, j, i + (n - j));
    }
  }

  /** The pointer is past the end after as many rounds as there are bytes. */
  predicate PastEnd(mem: seq<Byte>, size: nat, h: Host)
    requires size + 16 <= |mem|
  {
    PosAfter(mem, size, h, size).Some? && PosAfter(mem, size, h, size).value >= size
  }

  /** The scan of any buffer ends if and only if its pointer comes neither out below the
      buffer nor to any place twice; and whether it does shows within as many rounds as the
      buffer has bytes. */
  lemma EndsIff(mem: seq<Byte>, size: nat, h: Host)
    requires size + 16 <= |mem|
    ensures Ends(mem, size, h) <==> !Lost(mem, size, h) && !Repeats(mem, size, h)
    ensures Ends(mem, size, h) <==> PastEnd(mem, size, h)
  {
    hide PosAfter;
    if Ends(mem, size, h) {
      var n: nat, p: nat :| Reaches(mem, size, h, n, p) && p >= size;
      forall m: nat ensures !LostAt(mem, size, h, m) {
        if LostAt(mem, size, h, m) {
          if m <= n { PosStays(mem, size, h, m, n); } else { PosStays(mem, size, h, n, m); }
        }
      }
      forall i: nat, j: nat ensures !Returns(mem, size, h, i, j) {
        if Returns(mem, size, h, i, j) { RoundForEver(mem, size, h, i, j, n); }
      }
    }
    if !Lost(mem, size, h) && !Repeats(mem, size, h) {
      Crowded(mem, size, h);
    }
    if PastEnd(mem, size, h) {
      assert Reaches(mem, size, h, size, PosAfter(mem, size, h, size).value);
    }
  }

  /** There are more rounds than places. */
  lemma Crowded(mem: seq<Byte>, size: nat, h: Host)
    requires size + 16 <= |mem| && !Lost(mem, size, h) && !Repeats(mem, size, h)
    ensures PastEnd(mem, size, h)
  {
    hide PosAfter;
    forall n: nat ensures PosAfter(mem, size, h, n).Some? {
      assert !LostAt(mem, size, h, n);
    }
    var s := seq(size + 1, n requires 0 <= n <= size => PosAfter(mem, size, h, n).value);
    if forall n :: 0 <= n <= size ==> s[n] < size {
      forall i, j | 0 <= i < j < |s| ensures s[i] != s[j] {
        assert !Returns(mem, size, h, i, j);
      }
      DistinctFit(s, Below(size));
    } else {
      var n :| 0 <= n <= size && s[n] >= size;
      PosStays(mem, size, h, n, size);
    }
  }

  lemma {:induction false} PosGrows(mem: seq<Byte>, size: nat, h: Host, i: nat, j: nat)
    requires size + 16 <= |mem| && !Stuck(mem, size, h) && !Carried(mem, size, h) && i <= j
    ensures PosAfter(mem, size, h, i).Some? && PosAfter(mem, size, h, j).Some?
    ensures var p, q := PosAfter(mem, size, h, i).value, PosAfter(mem, size, h, j).value;
            p <= q && (p < size && i < j ==> p < q)
    decreases j
  {
    hide Blocked, Stride;
    if j > 0 {
      PosGrows(mem, size, h, if i < j then i else j - 1, j - 1);
      var p := PosAfter(mem, size, h, j - 1).value;
      if p < size {
        assert Reaches(mem, size, h, j - 1, p);
        StrideMoves(mem, p);
      }
    }
  }

  lemma StuckRepeats(mem: seq<Byte>, size: nat, h: Host)
    requires size + 16 <= |mem| && Stuck(mem, size, h) && !Carried(mem, size, h)
    ensures Repeats(mem, size, h)
  {
    hide Blocked, Stride;
    var n: nat, p: nat :| Reaches(mem, size, h, n, p) && p < size && Blocked(mem, p);
    StrideMoves(mem, p);
    assert !Carries(mem, h, p);
    assert Returns(mem, size, h, n, n + 1);
  }

  /** As long as no length carries the pointer over the last address, the scan ends if and
      only if it comes to no header with the magic and a real type whose length is 0 or above
      2^32 - 4. */
  lemma EndsUnlessStuck(mem: seq<Byte>, size: nat, h: Host)
    requires size + 16 <= |mem| && !Carried(mem, size, h)
    ensures Ends(mem, size, h) <==> !Stuck(mem, size, h)
  {
    hide Blocked, Carries, PosAfter;
    EndsIff(mem, size, h);
    if Stuck(mem, size, h) {
      StuckRepeats(mem, size, h);
    } else {
      forall n: nat ensures !LostAt(mem, size, h, n) { PosGrows(mem, size, h, n, n); }
      forall i: nat, j: nat ensures !Returns(mem, size, h, i, j) {
        if i < j { PosGrows(mem, size, h, i, j); }
      }
    }
  }

  /** Addresses of more than 32 bits, with 4 GB of them behind the buffer, rule that out. */
  lemma NotCarried(mem: seq<Byte>, size: nat, h: Host)
    requires size + 16 <= |mem| && h.base + size + MAX_U32 <= h.width
    ensures !Carried(mem, size, h)
  {
    hide Stride;
    forall n: nat, p: nat | Reaches(mem, size, h, n, p) && p < size ensures !Carries(mem, h, p) { StrideMoves(mem, p); }
  }

  /** An inode node that claims no bytes holds the scan for ever. */
  lemma StuckExample(h: Host)
    requires MAX_U32 <= h.width && h.base + 32 <= h.width
    ensures var mem := [0x85, 0x19, 0x02, 0xE0, 0, 0, 0, 0] + Ff(24); Fits(h, mem, 16) && !Ends(mem, 16, h)
  {
    var mem := [0x85, 0x19, 0x02, 0xE0, 0, 0, 0, 0] + Ff(24);
    assert Get16(mem, 0) == MAGIC_BITMASK && Get16(mem, 2) == NODETYPE_INODE && Get32(mem, 4) == 0;
    assert Stride(mem, 0) == 0;
    assert PosAfter(mem, 16, h, 0) == Some(0) && PosAfter(mem, 16, h, 1) == Some(0);
    assert Returns(mem, 16, h, 0, 1);
    EndsIff(mem, 16, h);
  }

  /** With addresses of 32 bits a length of 2^32 - 8, which is one that makes progress, takes
      the pointer back to the beginning for ever. */
  lemma CarriedExample(base: nat)
    requires base + 32 <= MAX_U32
    ensures var mem, h := Ff(8) + [0x85, 0x19, 0x02, 0xE0, 0xF8, 0xFF, 0xFF, 0xFF] + Ff(16), Host(base, MAX_U32);
            Fits(h, mem, 16) && !Blocked(mem, 8) && !Ends(mem, 16, h)
  {
    var mem, h := Ff(8) + [0x85, 0x19, 0x02, 0xE0, 0xF8, 0xFF, 0xFF, 0xFF] + Ff(16), Host(base, MAX_U32);
    assert Get16(mem, 0) == 0xffff && Get16(mem, 4) == 0xffff;
    assert Get16(mem, 8) == MAGIC_BITMASK && Get16(mem, 10) == NODETYPE_INODE && Get32(mem, 12) == MAX_U32 - 8;
    assert Stride(mem, 0) == 4 && Stride(mem, 4) == 4 && Stride(mem, 8) == MAX_U32 - 8;
    assert PosAfter(mem, 16, h, 0) == Some(0) && PosAfter(mem, 16, h, 1) == Some(4);
    assert PosAfter(mem, 16, h, 2) == Some(8) && PosAfter(mem, 16, h, 3) == Some(0);
    assert Returns(mem, 16, h, 0, 3);
    EndsIff(mem, 16, h);
  }

  // ---------- what the scan finds

  datatype Result = Result(ino: nat, visited: seq<nat>)

  /** The inode number and the places noted after n rounds. */
  function Trace(mem: seq<Byte>, size: nat, h: Host, ino: nat, n: nat): Result
    requires size + 16 <= |mem|
  {
    if n == 0 then Result(ino, [])
    else
      var t := Trace(mem, size, h, ino, n - 1);
      match PosAfter(mem, size, h, n - 1)
      case None => t
      case Some(p) => if p >= size then t else Result(Raised(mem, p, t.ino), Noted(mem, p, t.visited))
  }

  /** After n rounds the scan is past the end, with this result. */
  ghost predicate Finds(mem: seq<Byte>, size: nat, h: Host, ino: nat, n: nat, t: Result)
    requires size + 16 <= |mem|
  {
    PosAfter(mem, size, h, n).Some? && PosAfter(mem, size, h, n).value >= size && t == Trace(mem, size, h, ino, n)
  }

  lemma {:induction false} TraceStays(mem: seq<Byte>, size: nat, h: Host, ino: nat, n: nat, m: nat)
    requires size + 16 <= |mem| && n <= m && PosAfter(mem, size, h, n).Some? && PosAfter(mem, size, h, n).value >= size
    ensures Trace(mem, size, h, ino, m) == Trace(mem, size, h, ino, n)
  {
    hide NextPos, Raised, Noted;
    if n < m {
      PosStays(mem, size, h, n, m - 1);
      TraceStays(mem, size, h, ino, n, m - 1);
    }
  }

  /** There is one result. */
  lemma FindsOne(mem: seq<Byte>, size: nat, h: Host, ino: nat, n: nat, t: Result, m: nat, u: Result)
    requires size + 16 <= |mem| && Finds(mem, size, h, ino, n, t) && Finds(mem, size, h, ino, m, u)
    ensures t == u
  {
    hide PosAfter, Trace;
    if n <= m { TraceStays(mem, size, h, ino, n, m); } else { TraceStays(mem, size, h, ino, m, n); }
  }

  /** process_buffer on the first inp_size bytes of a buffer; the rest of mem is what lies
      behind them. p is an address. */
  method ProcessBuffer(mem: seq<Byte>, inp_size: nat, h: Host, ino0: nat) returns (ino: nat, visited: seq<nat>)
    requires Fits(h, mem, inp_size) && Ends(mem, inp_size, h)
    ensures exists n: nat :: Finds(mem, inp_size, h, ino0, n, Result(ino, visited))
  {
    hide Get16, Get32, Pad, PosAfter, Trace, NextPos;
    ghost var last: nat, end: nat :| Reaches(mem, inp_size, h, last, end) && end >= inp_size;
    ghost var n: nat := 0;
    var p := h.base;
    ino, visited := ino0, [];
    TraceStart(mem, inp_size, h, ino0);
    while p < h.base + inp_size
      invariant h.base <= p && n <= last && PosAfter(mem, inp_size, h, n) == Some(p - h.base)
      invariant Trace(mem, inp_size, h, ino0, n) == Result(ino, visited)
      decreases last - n
    {
      var at := p - h.base;
      TraceStep(mem, inp_size, h, ino0, n, last);
      n := n + 1;
      var magic, nodetype := Get16(mem, at), Get16(mem, at + 2);
      if magic == 0xffff && nodetype == 0xffff {
        p := (p + 4) % h.width;
      } else if magic != MAGIC_BITMASK {
        p := (p + 4) % h.width;
      } else {
        if nodetype / NODE_ACCURATE % 2 == 0 { nodetype := nodetype + NODE_ACCURATE; }
        if nodetype == 0xffff {
          p := (p + 4) % h.width;
        } else {
          visited := visited + [at];
          if nodetype == NODETYPE_INODE && Get32(mem, at + 12) > ino {
            ino := Get32(mem, at + 12);
          }
          p := (p + Pad(Get32(mem, at + 4))) % h.width;
        }
      }
    }
    assert Finds(mem, inp_size, h, ino0, n, Result(ino, visited));
  }

  lemma TraceStart(mem: seq<Byte>, size: nat, h: Host, ino: nat)
    requires size + 16 <= |mem|
    ensures PosAfter(mem, size, h, 0) == Some(0) && Trace(mem, size, h, ino, 0) == Result(ino, [])
  {
  }

  /** One round of a scan that ends after last rounds. */
  lemma TraceStep(mem: seq<Byte>, size: nat, h: Host, ino: nat, n: nat, last: nat)
    requires Fits(h, mem, size) && n <= last
    requires PosAfter(mem, size, h, n).Some? && PosAfter(mem, size, h, n).value < size
    requires PosAfter(mem, size, h, last).Some? && PosAfter(mem, size, h, last).value >= size
    ensures n < last
    ensures var p := PosAfter(mem, size, h, n).value;
            var a := (h.base + p + Stride(mem, p)) % h.width;
            h.base <= a && PosAfter(mem, size, h, n + 1) == Some(a - h.base)
    ensures var p, t := PosAfter(mem, size, h, n).value, Trace(mem, size, h, ino, n);
            Trace(mem, size, h, ino, n + 1) == Result(Raised(mem, p, t.ino), Noted(mem, p, t.visited))
  {
    hide Stride, Raised, Noted;
    var p := PosAfter(mem, size, h, n).value;
    StrideMoves(mem, p);
    if PosAfter(mem, size, h, n + 1) == None { PosStays(mem, size, h, n + 1, last); }
    Around(h.base + p + Stride(mem, p), h.width);
  }

  lemma Around(a: nat, width: nat)
    requires 0 < width && a < 2 * width
    ensures a % width == if a < width then a else a - width
  {
  }

  // ---------- the scan of a block that was written

  lemma PadPiece(b: seq<Byte>)
    requires IsNode(b)
    ensures Pad(|b|) == |PieceBytes(Node(b))| > 0
  {
    PadRounds(|b|);
  }

  lemma PadRounds(x: Word)
    requires 0 < x < MAX_U32 - 3
    ensures Pad(x) == x + Slack(x)
  {
    assert x + Slack(x) == (x + 3) / 4 * 4;
  }

  /** The first bytes of the piece at a scan position. */
  lemma AtPiece(buf: seq<Byte>, ps: seq<Piece>, k: nat)
    requires buf == Print(ps) && k < |ps| && PieceOk(ps[k])
    ensures var p := |Print(ps[..k])|;
            && p + 4 <= |buf| && p + |PieceBytes(ps[k])| == |Print(ps[..k + 1])| <= |buf|
            && match ps[k]
               case Blank => Get16(buf, p) == 0xffff && Get16(buf, p + 2) == 0xffff
               case Node(b) =>
                 && p + |b| <= |buf| && Get16(buf, p) == MAGIC_BITMASK && Get16(buf, p + 2) == Get16(b, 2)
                 && Get32(buf, p + 4) == |b| && (Get16(b, 2) == NODETYPE_INODE ==> Get32(buf, p + 12) == Get32(b, 12))
  {
    hide Print, Get16, Get32;
    PrintAt(ps, k);
    var p := |Print(ps[..k])|;
    match ps[k]
    case Blank =>
      GetInside(buf, p, Ff(4), 0);
      GetInside(buf, p, Ff(4), 2);
      GetBlank();
    case Node(b) =>
      var s := b + Ff(Slack(|b|));
      assert buf[p..p + |b|] == s[..|b|] == b;
      GetInside(buf, p, b, 0);
      GetInside(buf, p, b, 2);
      GetInside(buf, p, b, 4);
      if Get16(b, 2) == NODETYPE_INODE { GetInside(buf, p, b, 12); }
  }

  lemma GetInside(buf: seq<Byte>, p: nat, s: seq<Byte>, i: nat)
    requires p + |s| <= |buf| && buf[p..p + |s|] == s && i + 2 <= |s|
    ensures Get16(buf, p + i) == Get16(s, i)
    ensures i + 4 <= |s| ==> Get32(buf, p + i) == Get32(s, i)
  {
    forall j: nat | j < |s| ensures buf[p + j] == s[j] { assert buf[p..p + |s|][j] == buf[p + j]; }
  }

  lemma GetBlank()
    ensures Get16(Ff(4), 0) == 0xffff && Get16(Ff(4), 2) == 0xffff
  {
  }

  lemma FoundNext(ps: seq<Piece>, k: nat, ino: nat)
    requires k < |ps| && forall i :: 0 <= i < |ps| ==> PieceOk(ps[i])
    ensures Found(ps[..k + 1]) == if ps[k].Node? then Found(ps[..k]) + [|Print(ps[..k])|] else Found(ps[..k])
    ensures Highest(ps[..k + 1], ino) ==
            if ps[k].Node? && Get16(ps[k].bytes, 2) == NODETYPE_INODE && Get32(ps[k].bytes, 12) > Highest(ps[..k], ino)
            then Get32(ps[k].bytes, 12) else Highest(ps[..k], ino)
  {
    assert ps[..k + 1][..k] == ps[..k];
    assert PieceOk(ps[k]);
  }

  /** A block that was written as ps: after k rounds the scan has passed k pieces. */
  lemma {:induction false} PrintedTrace(mem: seq<Byte>, ps: seq<Piece>, size: nat, h: Host, ino: nat, k: nat)
    requires Fits(h, mem, size) && |Print(ps)| <= size && mem[..|Print(ps)|] == Print(ps)
    requires k <= |ps| && forall i :: 0 <= i < |ps| ==> PieceOk(ps[i])
    ensures PosAfter(mem, size, h, k) == Some(|Print(ps[..k])|)
    ensures Trace(mem, size, h, ino, k) == Result(Highest(ps[..k], ino), Found(ps[..k]))
  {
    hide Print, Found, Highest, PieceBytes, Header, Stride, Raised, Noted;
    if k == 0 {
      ScanStart(ino);
      assert ps[..0] == [];
    } else {
      PrintedTrace(mem, ps, size, h, ino, k - 1);
      PrintLess(ps, k - 1);
      PrintedStep(mem, ps, k - 1, ino);
      PrintGrows(ps, k, |ps|);
      assert ps[..|ps|] == ps;
    }
  }

  /** A byte of 0xFF begins no header, whatever lies behind it. */
  lemma TailStep(mem: seq<Byte>, p: nat, tail: nat, body: seq<Byte>, ino: nat, visited: seq<nat>)
    requires p == |body| && 0 < tail < 4 && p + tail + 16 <= |mem| && mem[..p + tail] == body + Ff(tail)
    ensures !Blocked(mem, p) && Stride(mem, p) == 4
    ensures forall n: nat :: Raised(mem, p, n) == n
    ensures Noted(mem, p, visited) == visited
  {
    assert mem[p] == mem[..p + tail][p] == 0xff;
  }

  lemma PrintedStep(mem: seq<Byte>, ps: seq<Piece>, k: nat, ino: nat)
    requires var size := |Print(ps)|; size + 16 <= |mem| && mem[..size] == Print(ps)
    requires k < |ps| && forall i :: 0 <= i < |ps| ==> PieceOk(ps[i])
    ensures var p := |Print(ps[..k])|;
            && p < |Print(ps)| && !Blocked(mem, p) && p + Stride(mem, p) == |Print(ps[..k + 1])|
            && Raised(mem, p, Highest(ps[..k], ino)) == Highest(ps[..k + 1], ino)
            && Noted(mem, p, Found(ps[..k])) == Found(ps[..k + 1])
  {
    hide Print, Found, Highest, PieceBytes, Get16, Get32, Pad;
    var p, size := |Print(ps[..k])|, |Print(ps)|;
    PrintLess(ps, k);
    AtPiece(Print(ps), ps, k);
    FoundNext(ps, k, ino);
    AccurateTypes();
    GetInside(mem, 0, Print(ps), p);
    GetInside(mem, 0, Print(ps), p + 2);
    match ps[k]
    case Blank =>
    case Node(b) =>
      GetInside(mem, 0, Print(ps), p + 4);
      if Get16(b, 2) == NODETYPE_INODE { GetInside(mem, 0, Print(ps), p + 12); }
      PadPiece(b);
      StrideMoves(mem, p);
  }

  lemma AccurateTypes()
    ensures Accurate(NODETYPE_INODE) == NODETYPE_INODE && Accurate(NODETYPE_DIRENT) == NODETYPE_DIRENT
    ensures Accurate(NODETYPE_CLEANMARKER) == NODETYPE_CLEANMARKER
  {
  }

  /** With a few bytes of 0xFF behind it, too, the scan ends, stops at exactly the nodes of ps,
      and leaves the highest inode number. */
  lemma PrintedEnds(mem: seq<Byte>, ps: seq<Piece>, tail: nat, h: Host, ino: nat)
    requires var size := |Print(ps)| + tail; Fits(h, mem, size) && tail < 4 && mem[..size] == Print(ps) + Ff(tail)
    requires forall i :: 0 <= i < |ps| ==> PieceOk(ps[i])
    ensures var size := |Print(ps)| + tail;
            Ends(mem, size, h) && exists n: nat :: Finds(mem, size, h, ino, n, Result(Highest(ps, ino), Found(ps)))
  {
    hide Print, Found, Highest, Stride, Raised, Noted;
    var size := |Print(ps)| + tail;
    assert mem[..|Print(ps)|] == (Print(ps) + Ff(tail))[..|Print(ps)|] == Print(ps);
    PrintedTrace(mem, ps, size, h, ino, |ps|);
    assert ps[..|ps|] == ps;
    var n := |ps|;
    if tail > 0 {
      TailStep(mem, |Print(ps)|, tail, Print(ps), ino, Found(ps));
      n := n + 1;
    }
    assert Finds(mem, size, h, ino, n, Result(Highest(ps, ino), Found(ps)));
    assert Reaches(mem, size, h, n, PosAfter(mem, size, h, n).value);
  }

  lemma ScanStart(ino: nat)
    ensures Print([]) == [] && Found([]) == [] && Highest([], ino) == ino
  {
  }

  /** Nothing is left when the whole buffer has been passed over. */
  lemma ScanDone(ps: seq<Piece>, k: nat)
    requires k <= |ps| && |Print(ps[..k])| >= |Print(ps)| && forall i :: 0 <= i < |ps| ==> PieceOk(ps[i])
    ensures ps[..k] == ps
  {
    assert ps[..|ps|] == ps;
    if k < |ps| { PrintLess(ps, k); }
  }

  lemma PrintLess(ps: seq<Piece>, k: nat)
    requires k < |ps| && PieceOk(ps[k])
    ensures |Print(ps[..k])| < |Print(ps)|
  {
    PrintAt(ps, k);
    assert |PieceBytes(ps[k])| > 0;
  }

  // ---------- the whole image

  function Shifted(xs: seq<nat>, base: nat): (ys: seq<nat>)
    ensures |ys| == |xs| && forall i :: 0 <= i < |xs| ==> ys[i] == xs[i] + base
  {
    seq(|xs|, i requires 0 <= i < |xs| => xs[i] + base)
  }

  /** A scan may stop and go on at any piece. */
  lemma {:induction false} ScanJoin(ps: seq<Piece>, i: nat, ino: nat)
    requires i <= |ps| && forall j :: 0 <= j < |ps| ==> PieceOk(ps[j])
    ensures Found(ps) == Found(ps[..i]) + Shifted(Found(ps[i..]), |Print(ps[..i])|)
    ensures Highest(ps, ino) == Highest(ps[i..], Highest(ps[..i], ino))
    decreases |ps| - i
  {
    hide Print, PieceBytes, Get16, Get32, PieceOk;
    if i == |ps| {
      assert ps[..i] == ps;
      NothingMore(Found(ps));
    } else {
      var n := |ps| - 1;
      ScanJoin(ps[..n], i, ino);
      assert ps[..n][..i] == ps[..i] && ps[..n][i..] == ps[i..][..n - i] && ps[i..][n - i] == ps[n];
      assert PieceOk(ps[n]);
      PrintJoin(ps[..n], i);
      ShiftSnoc(Found(ps[i..][..n - i]), |Print(ps[i..][..n - i])|, |Print(ps[..i])|);
      JoinSnoc(Found(ps[..i]), Shifted(Found(ps[i..][..n - i]), |Print(ps[..i])|), |Print(ps[..n])|);
    }
  }

  lemma ShiftSnoc(xs: seq<nat>, x: nat, base: nat)
    ensures Shifted(xs + [x], base) == Shifted(xs, base) + [x + base]
  {
  }

  lemma JoinSnoc(xs: seq<nat>, ys: seq<nat>, z: nat)
    ensures (xs + ys) + [z] == xs + (ys + [z])
  {
  }

  /** Reading the image erase block by erase block, as load_next_block does, visits exactly
      the nodes that were written, and ends with the highest inode number among them. */
  method Rescan(image: seq<Byte>, erase_block_size: nat, h: Host, ino0: nat, ghost ps: seq<Piece>, ghost tail: nat, ghost marker: seq<Piece>)
    returns (ino: nat, visited: seq<nat>)
    requires erase_block_size > 0 && erase_block_size % 4 == 0 && tail < 4
    requires MAX_U32 <= h.width && h.base + erase_block_size + 16 <= h.width
    requires image == Print(ps) + Ff(tail) && Laid(ps, erase_block_size, marker)
    ensures forall i :: 0 <= i < |ps| ==> PieceOk(ps[i])
    ensures visited == Found(ps) && ino == Highest(ps, ino0)
  {
    hide Print, Found, Highest, Laid, PieceOk, Ends, Finds;
    LaidOk(ps, erase_block_size, marker);
    ino, visited := ino0, [];
    var at := 0;
    ghost var k := 0;
    ScanStart(ino0);
    assert ps[..0] == [];
    ModZero(erase_block_size);
    if |image| == 0 { WholeScan(ps, 0); }
    while at < |image|
      invariant 0 <= k <= |ps| && at <= |image|
      invariant at < |image| ==> at == |Print(ps[..k])| && at % erase_block_size == 0
      invariant at == |image| ==> k == |ps|
      invariant visited == Found(ps[..k]) && ino == Highest(ps[..k], ino0)
      decreases |image| - at
    {
      var ret := if |image| - at < erase_block_size then |image| - at else erase_block_size;
      ghost var next, rest := BlockCut(ps, tail, erase_block_size, marker, k, ret);
      var block := image[at..at + ret];
      var more;
      var behind := new Byte[16];
      assert (block + behind[..])[..ret] == block;
      ghost var found := Result(Highest(ps[k..next], ino), Found(ps[k..next]));
      PrintedEnds(block + behind[..], ps[k..next], rest, h, ino);
      ghost var n: nat :| Finds(block + behind[..], ret, h, ino, n, found);
      ghost var before := ino;
      ino, more := ProcessBuffer(block + behind[..], ret, h, ino);
      ghost var m: nat :| Finds(block + behind[..], ret, h, before, m, Result(ino, more));
      FindsOne(block + behind[..], ret, h, before, n, found, m, Result(ino, more));
      visited := visited + seq(|more|, i requires 0 <= i < |more| => more[i] + at);
      assert seq(|more|, i requires 0 <= i < |more| => more[i] + at) == Shifted(more, at);
      assert ps[..next][..k] == ps[..k] && ps[..next][k..] == ps[k..next];
      ScanJoin(ps[..next], k, ino0);
      at := at + ret;
      k := next;
    }
    assert ps[..k] == ps;
  }

  /** The pieces of the next erase block, and the bytes behind them in the last one. */
  lemma BlockCut(ps: seq<Piece>, tail: nat, eraseBlock: nat, marker: seq<Piece>, k: nat, ret: nat) returns (next: nat, rest: nat)
    requires eraseBlock > 0 && eraseBlock % 4 == 0 && tail < 4 && Laid(ps, eraseBlock, marker) && k <= |ps|
    requires |Print(ps[..k])| < |Print(ps)| + tail && |Print(ps[..k])| % eraseBlock == 0
    requires var left := |Print(ps)| + tail - |Print(ps[..k])|; ret == if left < eraseBlock then left else eraseBlock
    ensures k <= next <= |ps| && rest < 4 && |Print(ps[k..next])| + rest == ret
    ensures var at := |Print(ps[..k])|;
            && at + ret <= |Print(ps)| + tail
            && (Print(ps) + Ff(tail))[at..at + ret] == Print(ps[k..next]) + Ff(rest)
    ensures var at' := |Print(ps[..k])| + ret;
            if at' < |Print(ps)| + tail then at' == |Print(ps[..next])| && at' % eraseBlock == 0 else next == |ps|
  {
    hide Print, Laid;
    var at, body := |Print(ps[..k])|, |Print(ps)|;
    LaidOk(ps, eraseBlock, marker);
    PrintAligned(ps);
    PrintAligned(ps[..k]);
    PrintGrows(ps, k, |ps|);
    assert ps[..|ps|] == ps;
    if at < body {
      var ret0 := if body - at < eraseBlock then body - at else eraseBlock;
      CutSizes(at, body, tail, eraseBlock, ret, ret0);
      next := NextCut(ps, eraseBlock, marker, k, ret0);
      rest := ret - ret0;
      if at + ret0 == body { WholeScan(ps, next); }
      SliceTail(Print(ps), tail, at, at + ret0, rest);
      PrintCut(ps, k, next);
    } else {
      WholeScan(ps, k);
      next, rest := |ps|, tail;
      assert ps[k..next] == [];
      ScanStart(0);
      SliceTail(Print(ps), tail, at, at, rest);
      assert Print(ps)[at..at] == [];
    }
  }

  lemma CutSizes(at: nat, body: nat, tail: nat, eraseBlock: nat, ret: nat, ret0: nat)
    requires eraseBlock > 0 && eraseBlock % 4 == 0 && at % eraseBlock == 0 && at % 4 == 0 && body % 4 == 0 && tail < 4 && at < body
    requires ret == if body + tail - at < eraseBlock then body + tail - at else eraseBlock
    requires ret0 == if body - at < eraseBlock then body - at else eraseBlock
    ensures 0 <= ret - ret0 < 4 && (ret == ret0 || (at + ret0 == body && ret - ret0 == tail))
    ensures at + ret < body + tail ==> ret == ret0 && (at + ret) % eraseBlock == 0
    ensures at + ret == body + tail ==> at + ret0 == body
  {
    OneBlockOn(at, eraseBlock);
    if body - at < eraseBlock { FourApart(at, body, eraseBlock); }
  }

  lemma FourApart(a: nat, b: nat, m: nat)
    requires a % 4 == 0 && b % 4 == 0 && m % 4 == 0 && a <= b < a + m
    ensures b + 4 <= a + m
  {
  }

  lemma PrintCut(ps: seq<Piece>, k: nat, next: nat)
    requires k <= next <= |ps|
    ensures |Print(ps[..next])| == |Print(ps[..k])| + |Print(ps[k..next])|
  {
    hide Print;
    PrintJoin(ps[..next], k);
    assert ps[..next][..k] == ps[..k] && ps[..next][k..] == ps[k..next];
  }

  lemma SliceTail(body: seq<Byte>, tail: nat, lo: nat, hi: nat, rest: nat)
    requires lo <= hi <= |body| && (rest == 0 || (hi == |body| && rest == tail))
    ensures (body + Ff(tail))[lo..hi + rest] == body[lo..hi] + Ff(rest)
  {
  }

  /** The node at a position, unless it is a clean marker. */
  function NodeAt(image: seq<Byte>, x: nat): seq<seq<Byte>> {
    if x + UNKNOWN_NODE_SIZE <= |image| && Get16(image, x + 2) != NODETYPE_CLEANMARKER && x + Get32(image, x + 4) <= |image|
    then [image[x..x + Get32(image, x + 4)]] else []
  }

  function NodesAt(image: seq<Byte>, xs: seq<nat>): seq<seq<Byte>> {
    if xs == [] then [] else NodesAt(image, xs[..|xs| - 1]) + NodeAt(image, xs[|xs| - 1])
  }

  lemma NodesSnoc(image: seq<Byte>, xs: seq<nat>, x: nat, b: seq<Byte>)
    requires |b| >= UNKNOWN_NODE_SIZE && x + |b| <= |image| && image[x..x + |b|] == b && Get32(b, 4) == |b|
    ensures NodesAt(image, xs + [x]) == NodesAt(image, xs) + if Get16(b, 2) != NODETYPE_CLEANMARKER then [b] else []
  {
    hide Get16, Get32;
    GetInside(image, x, b, 2);
    GetInside(image, x, b, 4);
    assert NodeAt(image, x) == if Get16(b, 2) != NODETYPE_CLEANMARKER then [b] else [];
    NodesNext(image, xs, x);
  }

  lemma NodesNext(image: seq<Byte>, xs: seq<nat>, x: nat)
    ensures NodesAt(image, xs + [x]) == NodesAt(image, xs) + NodeAt(image, x)
  {
    hide NodeAt;
    assert (xs + [x])[..|xs|] == xs;
  }

  /** What a scan stops at is what was written. */
  lemma {:induction false} NodesFound(ps: seq<Piece>, tail: nat, k: nat)
    requires k <= |ps| && forall i :: 0 <= i < |ps| ==> PieceOk(ps[i])
    ensures NodesAt(Print(ps) + Ff(tail), Found(ps[..k])) == Log(ps[..k])
  {
    hide Print, Get16, Get32, NodesAt, PieceBytes, Found, Log;
    var image := Print(ps) + Ff(tail);
    if k == 0 {
      assert ps[..0] == [];
      NoNodes(image);
    } else {
      NodesFound(ps, tail, k - 1);
      FoundNext(ps, k - 1, 0);
      AtPiece(Print(ps), ps, k - 1);
      PrintAt(ps, k - 1);
      LogNext(ps, k - 1);
      match ps[k - 1]
      case Blank =>
      case Node(b) =>
        var p := |Print(ps[..k - 1])|;
        InPiece(Print(ps), p, b);
        SliceLeft(Print(ps), Ff(tail), p, p + |b|);
        NodesSnoc(image, Found(ps[..k - 1]), p, b);
    }
  }

  lemma NoNodes(image: seq<Byte>)
    ensures NodesAt(image, Found([])) == Log([])
  {
  }

  lemma LogNext(ps: seq<Piece>, k: nat)
    requires k < |ps| && forall i :: 0 <= i < |ps| ==> PieceOk(ps[i])
    ensures Log(ps[..k + 1]) ==
            Log(ps[..k]) + if ps[k].Node? && Get16(ps[k].bytes, 2) != NODETYPE_CLEANMARKER then [ps[k].bytes] else []
  {
    assert ps[..k + 1][..k] == ps[..k];
    assert PieceOk(ps[k]);
    NothingMore(Log(ps[..k]));
  }

  lemma InPiece(image: seq<Byte>, p: nat, b: seq<Byte>)
    requires var s := PieceBytes(Node(b)); p + |s| <= |image| && image[p..p + |s|] == s
    ensures p + |b| <= |image| && image[p..p + |b|] == b
  {
    var s := PieceBytes(Node(b));
    assert image[p..p + |b|] == s[..|b|] == b;
  }

  lemma ModZero(m: nat)
    requires m > 0
    ensures 0 % m == 0
  {
  }

  lemma WholeScan(ps: seq<Piece>, k: nat)
    requires k <= |ps| && |Print(ps[..k])| >= |Print(ps)| && forall i :: 0 <= i < |ps| ==> PieceOk(ps[i])
    ensures ps[..k] == ps
  {
    ScanDone(ps, k);
  }

  /** The pieces of the next erase block, or of what is left of the image. */
  lemma NextCut(ps: seq<Piece>, eraseBlock: nat, marker: seq<Piece>, k: nat, ret: nat) returns (next: nat)
    requires eraseBlock > 0 && Laid(ps, eraseBlock, marker) && k <= |ps| && |Print(ps[..k])| < |Print(ps)|
    requires |Print(ps[..k])| % eraseBlock == 0
    requires var left := |Print(ps)| - |Print(ps[..k])|; ret == if left < eraseBlock then left else eraseBlock
    ensures k <= next <= |ps| && |Print(ps[..next])| == |Print(ps[..k])| + ret <= |Print(ps)|
    ensures Print(ps)[|Print(ps[..k])|..|Print(ps[..k])| + ret] == Print(ps[k..next])
    ensures |Print(ps[..next])| < |Print(ps)| ==> |Print(ps[..next])| % eraseBlock == 0
  {
    hide Print, Laid;
    var at := |Print(ps[..k])|;
    LaidOk(ps, eraseBlock, marker);
    if ret == |Print(ps)| - at {
      next := |ps|;
      assert ps[..next] == ps;
    } else {
      OneBlockOn(at, eraseBlock);
      next := BlockEnds(ps, eraseBlock, marker, at + eraseBlock);
      if next < k { PrintGrows(ps, next, k); }
    }
    PrintJoin(ps[..next], k);
    PrintJoin(ps, next);
    assert ps[..next][..k] == ps[..k] && ps[..next][k..] == ps[k..next];
    SliceOf(Print(ps[..k]), Print(ps[k..next]), Print(ps[next..]));
  }

  lemma SliceOf(a: seq<Byte>, b: seq<Byte>, c: seq<Byte>)
    ensures ((a + b) + c)[|a|..|a| + |b|] == b
  {
  }

  lemma OneBlockOn(a: nat, m: nat)
    requires m > 0 && a % m == 0
    ensures (a + m) % m == 0
  {
    var q := a / m;
    assert a + m == (q + 1) * m;
    ModOfMultiple(q + 1, m, 0);
  }

  lemma PrintGrows(ps: seq<Piece>, i: nat, j: nat)
    requires i <= j <= |ps|
    ensures |Print(ps[..i])| <= |Print(ps[..j])|
  {
    PrintJoin(ps[..j], i);
    assert ps[..j][..i] == ps[..i];
  }
}
