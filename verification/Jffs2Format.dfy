/** JFFS2 images as values: nodes, the pieces a little-endian image is made of, and what a
    scan of the image finds. */
module Jffs2Format {
  import opened Buffers
  import opened LittleEndian

  const MAGIC_BITMASK := 0x1985
  const NODE_ACCURATE := 0x2000
  const NODETYPE_DIRENT := 0xe001
  const NODETYPE_INODE := 0xe002
  const NODETYPE_CLEANMARKER := 0x2003
  const UNKNOWN_NODE_SIZE := 12
  const RAW_INODE_SIZE := 68
  const RAW_DIRENT_SIZE := 40
  const MIN_DATA_LEN := 128
  const MAX_U32 := 0x1_0000_0000

  // ---------- nodes

  /** Every node begins with magic, type, its own length and a checksum of these. */
  function NodeHead(nodetype: nat, totlen: Word, hdrCrc: Word): (b: seq<Byte>)
    requires nodetype < 0x10000
    ensures |b| == UNKNOWN_NODE_SIZE
  {
    Le16(MAGIC_BITMASK) + Le16(nodetype) + Le32(totlen) + Le32(hdrCrc)
  }

  function NodeBytes(nodetype: nat, hdrCrc: Word, body: seq<Byte>): (b: seq<Byte>)
    requires nodetype < 0x10000 && UNKNOWN_NODE_SIZE + |body| < MAX_U32
    ensures |b| == UNKNOWN_NODE_SIZE + |body|
  {
    NodeHead(nodetype, UNKNOWN_NODE_SIZE + |body|, hdrCrc) + body
  }

  predicate IsNode(b: seq<Byte>) {
    && UNKNOWN_NODE_SIZE <= |b| < MAX_U32 - 3
    && Get16(b, 0) == MAGIC_BITMASK && Get32(b, 4) == |b|
    && Get16(b, 2) in {NODETYPE_DIRENT, NODETYPE_INODE, NODETYPE_CLEANMARKER}
    && (Get16(b, 2) == NODETYPE_INODE ==> |b| >= RAW_INODE_SIZE)
  }

  lemma NodeBytesIs(nodetype: nat, hdrCrc: Word, body: seq<Byte>)
    requires nodetype in {NODETYPE_DIRENT, NODETYPE_INODE, NODETYPE_CLEANMARKER} && UNKNOWN_NODE_SIZE + |body| < MAX_U32 - 3
    requires nodetype == NODETYPE_INODE ==> UNKNOWN_NODE_SIZE + |body| >= RAW_INODE_SIZE
    ensures var b := NodeBytes(nodetype, hdrCrc, body);
            && IsNode(b) && Get16(b, 2) == nodetype && b[UNKNOWN_NODE_SIZE..] == body
  {
    hide Le16, Le32, Get16, Get32;
    var b := NodeBytes(nodetype, hdrCrc, body);
    assert b[0..2] == Le16(MAGIC_BITMASK) && b[2..4] == Le16(nodetype) && b[4..8] == Le32(|b|);
    Le16Back(b, 0, MAGIC_BITMASK);
    Le16Back(b, 2, nodetype);
    Le32Back(b, 4, |b|);
  }

  /** An inode node without its checksums; attrs are mode, owner, size and times. */
  datatype Inode = Inode(ino: Word, version: Word, attrs: seq<Byte>, offset: Word, dsize: Word, compr: Byte, payload: seq<Byte>)

  predicate InodeOk(i: Inode) {
    |i.attrs| == 24 && RAW_INODE_SIZE + |i.payload| < MAX_U32 - 3
  }

  function InodeFields(i: Inode, dataCrc: Word, nodeCrc: Word): (b: seq<Byte>)
    requires InodeOk(i)
    ensures |b| == RAW_INODE_SIZE - UNKNOWN_NODE_SIZE
  {
    Le32(i.ino) + Le32(i.version) + i.attrs + Le32(i.offset) + Le32(|i.payload|) + Le32(i.dsize)
    + [i.compr, 0, 0, 0] + Le32(dataCrc) + Le32(nodeCrc)
  }

  function InodeBody(i: Inode, dataCrc: Word, nodeCrc: Word): (b: seq<Byte>)
    requires InodeOk(i)
    ensures |b| == RAW_INODE_SIZE - UNKNOWN_NODE_SIZE + |i.payload|
  {
    InodeFields(i, dataCrc, nodeCrc) + i.payload
  }

  /** The inode that a node's bytes stand for. */
  function InodeOf(b: seq<Byte>): Inode
    requires |b| >= RAW_INODE_SIZE
  {
    Inode(Get32(b, 12), Get32(b, 16), b[20..44], Get32(b, 44), Get32(b, 52), b[56], b[RAW_INODE_SIZE..])
  }

  /** Writing an inode and reading it back. */
  lemma InodeBack(i: Inode, hdrCrc: Word, dataCrc: Word, nodeCrc: Word)
    requires InodeOk(i)
    ensures var b := NodeBytes(NODETYPE_INODE, hdrCrc, InodeBody(i, dataCrc, nodeCrc));
            && IsNode(b) && Get16(b, 2) == NODETYPE_INODE && |b| == RAW_INODE_SIZE + |i.payload|
            && InodeOf(b) == i && Get32(b, 48) == |i.payload|
  {
    hide Le16, Le32, Get16, Get32;
    var body := InodeBody(i, dataCrc, nodeCrc);
    var b := NodeBytes(NODETYPE_INODE, hdrCrc, body);
    NodeBytesIs(NODETYPE_INODE, hdrCrc, body);
    InodeSlices(i, dataCrc, nodeCrc, b);
    Le32Back(b, 12, i.ino);
    Le32Back(b, 16, i.version);
    Le32Back(b, 44, i.offset);
    Le32Back(b, 48, |i.payload|);
    Le32Back(b, 52, i.dsize);
  }

  lemma InodeSlices(i: Inode, dataCrc: Word, nodeCrc: Word, b: seq<Byte>)
    requires InodeOk(i) && |b| >= UNKNOWN_NODE_SIZE && b[UNKNOWN_NODE_SIZE..] == InodeBody(i, dataCrc, nodeCrc)
    ensures |b| == RAW_INODE_SIZE + |i.payload|
    ensures b[12..16] == Le32(i.ino) && b[16..20] == Le32(i.version) && b[20..44] == i.attrs && b[44..48] == Le32(i.offset)
    ensures b[48..52] == Le32(|i.payload|) && b[52..56] == Le32(i.dsize) && b[56] == i.compr && b[RAW_INODE_SIZE..] == i.payload
  {
    hide Le32;
    var body := InodeBody(i, dataCrc, nodeCrc);
    assert b[56] == body[44];
    assert b[12..16] == body[0..4];
    assert b[16..20] == body[4..8];
    assert b[20..44] == body[8..32];
    assert b[44..48] == body[32..36];
    assert b[48..52] == body[36..40];
    assert b[52..56] == body[40..44];
    assert b[RAW_INODE_SIZE..] == body[56..];
  }

  /** The three checksums of an inode node: of the header, of the data, and of everything
      before these two. */
  ghost predicate InodeSealed(crc: seq<Byte> -> Word, b: seq<Byte>) {
    && |b| >= RAW_INODE_SIZE && Get32(b, 8) == crc(b[..8])
    && Get32(b, 60) == crc(b[RAW_INODE_SIZE..]) && Get32(b, 64) == crc(b[..60])
  }

  ghost predicate DirentSealed(crc: seq<Byte> -> Word, b: seq<Byte>) {
    && |b| >= RAW_DIRENT_SIZE && Get32(b, 8) == crc(b[..8])
    && Get32(b, 32) == crc(b[..32]) && Get32(b, 36) == crc(b[RAW_DIRENT_SIZE..])
  }

  /** The header without its checksum. */
  lemma HeadFront(nodetype: nat, totlen: Word, a: Word, b: Word)
    requires nodetype < 0x10000
    ensures NodeHead(nodetype, totlen, a)[..8] == NodeHead(nodetype, totlen, b)[..8]
    ensures NodeHead(nodetype, totlen, a)[8..12] == Le32(a)
  {
    hide Le16, Le32;
  }

  lemma InodeSeal(crc: seq<Byte> -> Word, i: Inode, hdrCrc: Word, dataCrc: Word, nodeCrc: Word)
    requires InodeOk(i)
    requires var head := NodeHead(NODETYPE_INODE, RAW_INODE_SIZE + |i.payload|, hdrCrc);
             && hdrCrc == crc(NodeHead(NODETYPE_INODE, RAW_INODE_SIZE + |i.payload|, 0)[..8])
             && nodeCrc == crc((head + InodeFields(i, 0, 0))[..60]) && dataCrc == crc(i.payload)
    ensures InodeSealed(crc, NodeBytes(NODETYPE_INODE, hdrCrc, InodeBody(i, dataCrc, nodeCrc)))
  {
    hide Le16, Le32, Get32, NodeHead, InodeFields;
    var head := NodeHead(NODETYPE_INODE, RAW_INODE_SIZE + |i.payload|, hdrCrc);
    var fields := InodeFields(i, dataCrc, nodeCrc);
    var b := NodeBytes(NODETYPE_INODE, hdrCrc, InodeBody(i, dataCrc, nodeCrc));
    HeadFront(NODETYPE_INODE, RAW_INODE_SIZE + |i.payload|, hdrCrc, 0);
    InodeFront(i, dataCrc, nodeCrc);
    Regroup(head, fields, i.payload);
    Nested(head, fields, InodeFields(i, 0, 0), i.payload, 48);
    assert b[8..12] == head[8..12];
    assert b[60..64] == fields[48..52] && b[64..68] == fields[52..56];
    Le32Back(b, 8, hdrCrc);
    Le32Back(b, 60, dataCrc);
    Le32Back(b, 64, nodeCrc);
  }

  lemma InodeFront(i: Inode, dataCrc: Word, nodeCrc: Word)
    requires InodeOk(i)
    ensures InodeFields(i, dataCrc, nodeCrc)[..48] == InodeFields(i, 0, 0)[..48]
    ensures InodeFields(i, dataCrc, nodeCrc)[48..52] == Le32(dataCrc) && InodeFields(i, dataCrc, nodeCrc)[52..56] == Le32(nodeCrc)
  {
    hide Le32;
  }

  lemma Nested(head: seq<Byte>, fields: seq<Byte>, fields0: seq<Byte>, rest: seq<Byte>, n: nat)
    requires n <= |fields| && n <= |fields0| && fields[..n] == fields0[..n] && |head| >= 8
    ensures (head + (fields + rest))[..|head| + n] == (head + fields0)[..|head| + n]
    ensures (head + (fields + rest))[..8] == head[..8]
    ensures (head + (fields + rest))[|head| + |fields|..] == rest
  {
  }

  /** A directory entry without its checksums. */
  datatype Dirent = Dirent(pino: Word, version: Word, ino: Word, mctime: Word, dtype: Byte, name: seq<Byte>)

  const MAX_NAME_LEN := 255

  function DirentFields(d: Dirent, nodeCrc: Word, nameCrc: Word): (b: seq<Byte>)
    requires |d.name| <= MAX_NAME_LEN
    ensures |b| == RAW_DIRENT_SIZE - UNKNOWN_NODE_SIZE
  {
    Le32(d.pino) + Le32(d.version) + Le32(d.ino) + Le32(d.mctime) + [|d.name|, d.dtype, 0, 0]
    + Le32(nodeCrc) + Le32(nameCrc)
  }

  function DirentBody(d: Dirent, nodeCrc: Word, nameCrc: Word): (b: seq<Byte>)
    requires |d.name| <= MAX_NAME_LEN
    ensures |b| == RAW_DIRENT_SIZE - UNKNOWN_NODE_SIZE + |d.name|
  {
    DirentFields(d, nodeCrc, nameCrc) + d.name
  }

  function DirentOf(b: seq<Byte>): Dirent
    requires |b| >= RAW_DIRENT_SIZE
  {
    Dirent(Get32(b, 12), Get32(b, 16), Get32(b, 20), Get32(b, 24), b[29], b[RAW_DIRENT_SIZE..])
  }

  /** Writing a directory entry and reading it back. */
  lemma DirentBack(d: Dirent, hdrCrc: Word, nodeCrc: Word, nameCrc: Word)
    requires |d.name| <= MAX_NAME_LEN
    ensures var b := NodeBytes(NODETYPE_DIRENT, hdrCrc, DirentBody(d, nodeCrc, nameCrc));
            && IsNode(b) && Get16(b, 2) == NODETYPE_DIRENT && |b| == RAW_DIRENT_SIZE + |d.name|
            && DirentOf(b) == d && b[28] == |d.name|
  {
    hide Le16, Le32, Get16, Get32;
    var body := DirentBody(d, nodeCrc, nameCrc);
    var b := NodeBytes(NODETYPE_DIRENT, hdrCrc, body);
    NodeBytesIs(NODETYPE_DIRENT, hdrCrc, body);
    DirentSlices(d, nodeCrc, nameCrc, b);
    Le32Back(b, 12, d.pino);
    Le32Back(b, 16, d.version);
    Le32Back(b, 20, d.ino);
    Le32Back(b, 24, d.mctime);
  }

  lemma DirentSlices(d: Dirent, nodeCrc: Word, nameCrc: Word, b: seq<Byte>)
    requires |d.name| <= MAX_NAME_LEN && |b| >= UNKNOWN_NODE_SIZE && b[UNKNOWN_NODE_SIZE..] == DirentBody(d, nodeCrc, nameCrc)
    ensures |b| == RAW_DIRENT_SIZE + |d.name|
    ensures b[12..16] == Le32(d.pino) && b[16..20] == Le32(d.version) && b[20..24] == Le32(d.ino) && b[24..28] == Le32(d.mctime)
    ensures b[28] == |d.name| && b[29] == d.dtype && b[RAW_DIRENT_SIZE..] == d.name
  {
    hide Le32;
    var body := DirentBody(d, nodeCrc, nameCrc);
    assert b[28] == body[16] && b[29] == body[17];
    assert b[12..16] == body[0..4];
    assert b[16..20] == body[4..8];
    assert b[20..24] == body[8..12];
    assert b[24..28] == body[12..16];
    assert b[RAW_DIRENT_SIZE..] == body[28..];
  }

  lemma DirentSeal(crc: seq<Byte> -> Word, d: Dirent, hdrCrc: Word, nodeCrc: Word, nameCrc: Word)
    requires |d.name| <= MAX_NAME_LEN
    requires var head := NodeHead(NODETYPE_DIRENT, RAW_DIRENT_SIZE + |d.name|, hdrCrc);
             && hdrCrc == crc(NodeHead(NODETYPE_DIRENT, RAW_DIRENT_SIZE + |d.name|, 0)[..8])
             && nodeCrc == crc((head + DirentFields(d, 0, 0))[..32]) && nameCrc == crc(d.name)
    ensures DirentSealed(crc, NodeBytes(NODETYPE_DIRENT, hdrCrc, DirentBody(d, nodeCrc, nameCrc)))
  {
    hide Le16, Le32, Get32, NodeHead, DirentFields;
    var head := NodeHead(NODETYPE_DIRENT, RAW_DIRENT_SIZE + |d.name|, hdrCrc);
    var fields := DirentFields(d, nodeCrc, nameCrc);
    var b := NodeBytes(NODETYPE_DIRENT, hdrCrc, DirentBody(d, nodeCrc, nameCrc));
    HeadFront(NODETYPE_DIRENT, RAW_DIRENT_SIZE + |d.name|, hdrCrc, 0);
    DirentFront(d, nodeCrc, nameCrc);
    Regroup(head, fields, d.name);
    Nested(head, fields, DirentFields(d, 0, 0), d.name, 20);
    assert b[8..12] == head[8..12];
    assert b[32..36] == fields[20..24] && b[36..40] == fields[24..28];
    Le32Back(b, 8, hdrCrc);
    Le32Back(b, 32, nodeCrc);
    Le32Back(b, 36, nameCrc);
  }

  lemma DirentFront(d: Dirent, nodeCrc: Word, nameCrc: Word)
    requires |d.name| <= MAX_NAME_LEN
    ensures DirentFields(d, nodeCrc, nameCrc)[..20] == DirentFields(d, 0, 0)[..20]
    ensures DirentFields(d, nodeCrc, nameCrc)[20..24] == Le32(nodeCrc) && DirentFields(d, nodeCrc, nameCrc)[24..28] == Le32(nameCrc)
  {
    hide Le32;
  }

  // ---------- pieces

  /** A node, filled up with 0xFF to a multiple of four, or four bytes of 0xFF. */
  datatype Piece = Node(bytes: seq<Byte>) | Blank

  function Ff(n: nat): (s: seq<Byte>)
    ensures |s| == n && forall i :: 0 <= i < n ==> s[i] == 0xff
  {
    seq(n, _ => 0xff)
  }

  /** What is missing to a multiple of four. */
  function Slack(n: nat): nat {
    if n % 4 == 0 then 0 else 4 - n % 4
  }

  function PieceBytes(p: Piece): (s: seq<Byte>)
    ensures p.Blank? ==> |s| == 4
  {
    match p
    case Node(b) => b + Ff(Slack(|b|))
    case Blank => Ff(4)
  }

  predicate PieceOk(p: Piece) {
    p.Node? ==> IsNode(p.bytes)
  }

  function Print(ps: seq<Piece>): seq<Byte> {
    if ps == [] then [] else Print(ps[..|ps| - 1]) + PieceBytes(ps[|ps| - 1])
  }

  lemma PrintSnoc(ps: seq<Piece>, p: Piece)
    ensures Print(ps + [p]) == Print(ps) + PieceBytes(p)
  {
    assert (ps + [p])[..|ps|] == ps;
  }

  lemma SlackIs(n: nat)
    ensures (n + Slack(n)) % 4 == 0
  {
  }

  lemma {:induction false} PrintAligned(ps: seq<Piece>)
    ensures |Print(ps)| % 4 == 0
  {
    if ps != [] {
      PrintAligned(ps[..|ps| - 1]);
      var p := ps[|ps| - 1];
      if p.Node? { SlackIs(|p.bytes|); }
    }
  }

  lemma {:induction false} PrintJoin(ps: seq<Piece>, i: nat)
    requires i <= |ps|
    ensures Print(ps) == Print(ps[..i]) + Print(ps[i..])
    decreases |ps| - i
  {
    hide PieceBytes;
    if i == |ps| {
      assert ps[..i] == ps;
      NothingMore(Print(ps));
    } else {
      var n := |ps| - 1;
      PrintJoin(ps[..n], i);
      assert ps[..n][..i] == ps[..i] && ps[..n][i..] == ps[i..][..n - i] && ps[i..][n - i] == ps[n];
      Regroup(Print(ps[..i]), Print(ps[i..n]), PieceBytes(ps[n]));
    }
  }

  /** Where piece k is in the print. */
  lemma {:induction false} PrintAt(ps: seq<Piece>, k: nat)
    requires k < |ps|
    ensures var a, b := |Print(ps[..k])|, |Print(ps[..k + 1])|;
            a <= b <= |Print(ps)| && Print(ps)[a..b] == PieceBytes(ps[k]) && b == a + |PieceBytes(ps[k])|
    decreases |ps|
  {
    hide PieceBytes;
    var front := ps[..|ps| - 1];
    if k == |ps| - 1 {
      assert ps[..k + 1] == ps;
      Halves(Print(front), PieceBytes(ps[k]));
    } else {
      PrintAt(front, k);
      assert front[..k] == ps[..k] && front[..k + 1] == ps[..k + 1];
      SliceLeft(Print(front), PieceBytes(ps[|ps| - 1]), |Print(ps[..k])|, |Print(ps[..k + 1])|);
    }
  }

  function Blanks(n: nat): (ps: seq<Piece>)
    ensures |ps| == n && forall i :: 0 <= i < n ==> ps[i] == Blank
  {
    seq(n, _ => Blank)
  }

  lemma {:induction false} PrintBlanks(ps: seq<Piece>, n: nat)
    ensures Print(ps + Blanks(n)) == Print(ps) + Ff(4 * n)
  {
    hide Print, PieceBytes;
    if n == 0 {
      NothingMore(ps);
      NothingMore(Print(ps));
    } else {
      PrintBlanks(ps, n - 1);
      BlanksNext(n);
      FfJoin(4 * (n - 1), 4);
      Regroup(ps, Blanks(n - 1), [Blank]);
      PrintSnoc(ps + Blanks(n - 1), Blank);
      BlankBytes();
      Regroup(Print(ps), Ff(4 * (n - 1)), Ff(4));
    }
  }

  lemma BlanksNext(n: nat)
    requires n > 0
    ensures Blanks(n) == Blanks(n - 1) + [Blank] && Blanks(0) == []
  {
  }

  lemma BlankBytes()
    ensures PieceBytes(Blank) == Ff(4)
  {
  }

  lemma FfJoin(a: nat, b: nat)
    ensures Ff(a) + Ff(b) == Ff(a + b)
  {
  }

  // ---------- what a scan finds

  /** The positions of the nodes. */
  function Found(ps: seq<Piece>): seq<nat> {
    if ps == [] then []
    else
      var front := ps[..|ps| - 1];
      if ps[|ps| - 1].Node? then Found(front) + [|Print(front)|] else Found(front)
  }

  /** The highest inode number, starting from ino. */
  function Highest(ps: seq<Piece>, ino: nat): nat
    requires forall i :: 0 <= i < |ps| ==> PieceOk(ps[i])
  {
    if ps == [] then ino
    else
      var h := Highest(ps[..|ps| - 1], ino);
      var p := ps[|ps| - 1];
      assert PieceOk(p);
      if p.Node? && Get16(p.bytes, 2) == NODETYPE_INODE && Get32(p.bytes, 12) > h then Get32(p.bytes, 12) else h
  }
}
