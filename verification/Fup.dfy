/** Update files for receivers: a header block and data blocks, each with its length and a
    checksum. A file that is appended is cut into blocks of one type; extraction appends the
    blocks of a type to one file again. */
module Fup {
  import opened Buffers
  import opened Integers

  type Short = x: int | 0 <= x < 0x10000

  const DATA_BLOCKSIZE := 0x7FFA
  const MAX_PART_NUMBER := 17
  const HEADER_TYPE := 0x10
  const RESELLER_ID := 0x2303

  /** crc16, from 0 */
  type Crc = seq<Byte> -> Short

  // ---------- numbers

  function Be16(x: Short): (s: seq<Byte>)
    ensures |s| == 2
  {
    [x / 256, x % 256]
  }

  /** toShort */
  function ToShort(b: seq<Byte>, pos: nat): Short
    requires pos + 2 <= |b|
  {
    var hi: nat, lo: nat := b[pos], b[pos + 1];
    lo + 256 * hi
  }

  lemma ShortBack(b: seq<Byte>, pos: nat, x: Short)
    requires pos + 2 <= |b| && b[pos..pos + 2] == Be16(x)
    ensures ToShort(b, pos) == x
  {
    assert b[pos] == b[pos..pos + 2][0] && b[pos + 1] == b[pos..pos + 2][1];
  }

  // ---------- blocks

  datatype Block = Block(kind: Short, data: seq<Byte>)

  predicate BlockOk(b: Block) {
    |b.data| <= DATA_BLOCKSIZE
  }

  /** What the checksum of a data block is taken of. */
  function Body(b: Block): (s: seq<Byte>)
    requires BlockOk(b)
    ensures |s| == |b.data| + 4
  {
    Be16(b.kind) + Be16(|b.data|) + b.data
  }

  function Framed(crc: Crc, body: seq<Byte>): seq<Byte>
    requires |body| + 2 < 0x10000
  {
    Be16(|body| + 2) + Be16(crc(body)) + body
  }

  function Print(crc: Crc, bs: seq<Block>): seq<Byte>
    requires forall i :: 0 <= i < |bs| ==> BlockOk(bs[i])
  {
    if bs == [] then [] else Print(crc, bs[..|bs| - 1]) + Framed(crc, Body(bs[|bs| - 1]))
  }

  /** The 16 bytes of the header block. */
  function HeaderBody(count: Short): (s: seq<Byte>)
    ensures |s| == 16
  {
    Be16(HEADER_TYPE) + Be16(RESELLER_ID) + Be16(0) + Be16(0) + Be16(count) + Be16(0) + Be16(0) + Be16(0)
  }

  /** The blocks of one file: full ones, and one that is not full, perhaps empty. */
  function Chunks(kind: Short, data: seq<Byte>): (bs: seq<Block>)
    ensures |bs| == |data| / DATA_BLOCKSIZE + 1 && forall i :: 0 <= i < |bs| ==> BlockOk(bs[i]) && bs[i].kind == kind
    decreases |data|
  {
    if |data| < DATA_BLOCKSIZE then [Block(kind, data)]
    else [Block(kind, data[..DATA_BLOCKSIZE])] + Chunks(kind, data[DATA_BLOCKSIZE..])
  }

  datatype Part = Part(kind: Short, data: seq<Byte>)

  function AllChunks(ps: seq<Part>): (bs: seq<Block>)
    ensures forall i :: 0 <= i < |bs| ==> BlockOk(bs[i])
  {
    if ps == [] then [] else AllChunks(ps[..|ps| - 1]) + Chunks(ps[|ps| - 1].kind, ps[|ps| - 1].data)
  }

  /** What belongs to one type, in order. */
  function Gathered(bs: seq<Block>, kind: Short): seq<Byte> {
    if bs == [] then []
    else Gathered(bs[..|bs| - 1], kind) + if bs[|bs| - 1].kind == kind then bs[|bs| - 1].data else []
  }

  function Wanted(ps: seq<Part>, kind: Short): seq<Byte> {
    if ps == [] then []
    else Wanted(ps[..|ps| - 1], kind) + if ps[|ps| - 1].kind == kind then ps[|ps| - 1].data else []
  }

  lemma GatheredSnoc(bs: seq<Block>, b: Block, kind: Short)
    ensures Gathered(bs + [b], kind) == Gathered(bs, kind) + if b.kind == kind then b.data else []
  {
    assert (bs + [b])[..|bs|] == bs;
  }

  lemma {:induction false} GatheredJoin(a: seq<Block>, b: seq<Block>, kind: Short)
    ensures Gathered(a + b, kind) == Gathered(a, kind) + Gathered(b, kind)
    decreases |b|
  {
    if b == [] {
      NothingMore(a);
    } else {
      hide Gathered;
      var n := |b| - 1;
      GatheredJoin(a, b[..n], kind);
      GatheredSnoc(a + b[..n], b[n], kind);
      GatheredSnoc(b[..n], b[n], kind);
      assert b[..n] + [b[n]] == b && (a + b[..n]) + [b[n]] == a + b;
      Regroup(Gathered(a, kind), Gathered(b[..n], kind), if b[n].kind == kind then b[n].data else []);
    }
  }

  lemma {:induction false} ChunksGathered(kind: Short, data: seq<Byte>, k: Short)
    ensures Gathered(Chunks(kind, data), k) == if k == kind then data else []
    decreases |data|
  {
    if |data| < DATA_BLOCKSIZE {
      GatheredOne(Block(kind, data), k);
    } else {
      var b, rest := Block(kind, data[..DATA_BLOCKSIZE]), data[DATA_BLOCKSIZE..];
      ChunksGathered(kind, rest, k);
      GatheredOne(b, k);
      GatheredJoin([b], Chunks(kind, rest), k);
      Whole(data, DATA_BLOCKSIZE);
    }
  }

  lemma GatheredOne(b: Block, k: Short)
    ensures Gathered([b], k) == if k == b.kind then b.data else []
  {
    assert [b][..0] == [];
    assert Gathered([], k) == [];
  }

  /** Cutting files into blocks and gathering the blocks of a type gives the files of that
      type, one behind the other, also when a file fills its last block. */
  lemma {:induction false} AllGathered(ps: seq<Part>, k: Short)
    ensures Gathered(AllChunks(ps), k) == Wanted(ps, k)
  {
    hide Chunks;
    if ps != [] {
      var p := ps[|ps| - 1];
      AllGathered(ps[..|ps| - 1], k);
      GatheredJoin(AllChunks(ps[..|ps| - 1]), Chunks(p.kind, p.data), k);
      ChunksGathered(p.kind, p.data, k);
    }
  }

  // ---------- creating

  /** n more, in 16 bits. */
  function Counted(count: Short, n: nat): Short {
    (count + n) % 0x10000
  }

  lemma CountedNone(count: Short)
    ensures Counted(count, 0) == count
  {
  }

  lemma CountedNext(count: Short, n: nat)
    ensures Counted(count, n + 1) == (Counted(count, n) + 1) % 0x10000
  {
  }

  class Creator {
    const crc16: Crc
    var irdFile: seq<Byte>
    var totalBlockCount: Short

    constructor (crc16: Crc)
      ensures this.crc16 == crc16 && irdFile == [] && totalBlockCount == 0
    {
      this.crc16, irdFile, totalBlockCount := crc16, [], 0;
    }

    /** writeBlock of a header: the count is filled in later. */
    method WriteHeader() returns (headerDataBlockLen: nat)
      modifies this`irdFile
      ensures irdFile == old(irdFile) + Framed(crc16, HeaderBody(0xFFFF)) && headerDataBlockLen == 12
    {
      var dataBuf := Be16(HEADER_TYPE) + Be16(RESELLER_ID) + Be16(0) + Be16(0) + Be16(0xFFFF) + Be16(0) + Be16(0) + Be16(0);
      var compressedDataLen := 12;
      var dataCrc := crc16(dataBuf[..compressedDataLen + 4]);
      assert dataBuf[..compressedDataLen + 4] == dataBuf == HeaderBody(0xFFFF);
      irdFile := irdFile + (Be16(compressedDataLen + 6) + Be16(dataCrc));
      irdFile := irdFile + dataBuf[..compressedDataLen + 4];
      headerDataBlockLen := compressedDataLen;
    }

    /** writeBlock of file data, from pos on. */
    method WriteBlock(kind: Short, file: seq<Byte>, pos: nat) returns (uncompressedDataLen: nat)
      requires pos <= |file|
      modifies this`irdFile
      ensures uncompressedDataLen == (if |file| - pos < DATA_BLOCKSIZE then |file| - pos else DATA_BLOCKSIZE)
      ensures irdFile == old(irdFile) + Framed(crc16, Body(Block(kind, file[pos..pos + uncompressedDataLen])))
    {
      uncompressedDataLen := if |file| - pos < DATA_BLOCKSIZE then |file| - pos else DATA_BLOCKSIZE;
      var data := file[pos..pos + uncompressedDataLen];
      var dataBuf := Be16(kind) + Be16(uncompressedDataLen) + data;
      assert dataBuf == Body(Block(kind, data));
      var dataCrc := crc16(dataBuf);
      var blockHeader := Be16(uncompressedDataLen + 6) + Be16(dataCrc);
      irdFile := irdFile + blockHeader;
      irdFile := irdFile + dataBuf;
    }

    /** One file of the command line: blocks are written until one is not full. */
    method Append(kind: Short, file: seq<Byte>)
      modifies this`irdFile, this`totalBlockCount
      ensures irdFile == old(irdFile) + Print(crc16, Chunks(kind, file))
      ensures totalBlockCount == Counted(old(totalBlockCount), |Chunks(kind, file)|)
    {
      hide Framed, Body, Print, Chunks, Written, Counted;
      CountedNone(totalBlockCount);
      var pos: nat := 0;
      var n: nat := WriteBlock(kind, file, pos);
      ghost var done := [Block(kind, file[..n])];
      WrittenStart(kind, file, n);
      PrintOne(crc16, done[0]);
      while n == DATA_BLOCKSIZE
        invariant Written(kind, file, pos, n, done) && AllOk(done)
        invariant irdFile == old(irdFile) + Print(crc16, done)
        invariant |done| >= 1 && totalBlockCount == Counted(old(totalBlockCount), |done| - 1)
        invariant pos + n <= |file|
        decreases |file| - pos
      {
        CountedNext(old(totalBlockCount), |done| - 1);
        totalBlockCount := (totalBlockCount + 1) % 0x10000;
        pos := pos + n;
        ghost var before := done;
        n := WriteBlock(kind, file, pos);
        WrittenStep(kind, file, pos, n, done);
        done := done + [Block(kind, file[pos..pos + n])];
        PrintSnoc(crc16, before, done[|before|]);
      }
      WrittenEnd(kind, file, pos, n, done);
      CountedNext(old(totalBlockCount), |done| - 1);
      totalBlockCount := (totalBlockCount + 1) % 0x10000;
    }

    /** The header gets the count and a new checksum, in place. */
    method RefreshHeader(headerDataBlockLen: nat, ghost rest: seq<Byte>)
      requires headerDataBlockLen == 16 && irdFile == Framed(crc16, HeaderBody(0xFFFF)) + rest
      modifies this`irdFile
      ensures irdFile == Framed(crc16, HeaderBody(totalBlockCount)) + rest
    {
      var dataBuf := irdFile[4..4 + headerDataBlockLen];
      assert dataBuf == HeaderBody(0xFFFF);
      dataBuf := dataBuf[..8] + Be16(totalBlockCount) + dataBuf[10..];
      assert dataBuf == HeaderBody(totalBlockCount);
      irdFile := irdFile[..4] + dataBuf + irdFile[4 + headerDataBlockLen..];
      var dataCrc := crc16(dataBuf);
      irdFile := irdFile[..2] + Be16(dataCrc) + irdFile[4..];
      assert irdFile == Be16(18) + Be16(dataCrc) + dataBuf + rest;
    }

    /** fup -c with a type and a file for each part. The arguments behind the name of the
        image are counted in eight bits. */
    method Create(parts: seq<Part>)
      requires irdFile == [] && totalBlockCount == 0
      modifies this`irdFile, this`totalBlockCount
      ensures var written := parts[..Appended(parts)];
              && irdFile == Framed(crc16, HeaderBody(|AllChunks(written)| % 0x10000)) + Print(crc16, AllChunks(written))
              && totalBlockCount == |AllChunks(written)| % 0x10000
    {
      hide Framed, Body, Print, Chunks, AllChunks, HeaderBody;
      var headerDataBlockLen := WriteHeader();
      headerDataBlockLen := headerDataBlockLen + 4;
      ghost var head := irdFile;
      NoChunks(crc16, parts);
      NothingMore(head);
      var appendPartCount := 2 * |parts| % 256;
      CountWraps(|parts|);
      var i := 0;
      ghost var k := 0;
      while i < appendPartCount
        invariant 0 <= i <= appendPartCount && i == 2 * k && k <= Appended(parts)
        invariant irdFile == head + Print(crc16, AllChunks(parts[..k]))
        invariant totalBlockCount == |AllChunks(parts[..k])| % 0x10000
      {
        var p := parts[i / 2];
        AllChunksNext(parts, k);
        PrintJoin(crc16, AllChunks(parts[..k]), Chunks(p.kind, p.data));
        Regroup(head, Print(crc16, AllChunks(parts[..k])), Print(crc16, Chunks(p.kind, p.data)));
        Append(p.kind, p.data);
        i := i + 2;
        k := k + 1;
      }
      RefreshHeader(headerDataBlockLen, Print(crc16, AllChunks(parts[..k])));
    }
  }

  lemma NoChunks(crc: Crc, parts: seq<Part>)
    ensures AllChunks(parts[..0]) == [] && Print(crc, AllChunks(parts[..0])) == []
  {
  }

  lemma AllChunksNext(parts: seq<Part>, k: nat)
    requires k < |parts|
    ensures AllChunks(parts[..k + 1]) == AllChunks(parts[..k]) + Chunks(parts[k].kind, parts[k].data)
  {
    assert parts[..k + 1][..k] == parts[..k];
  }

  /** How many of the files are appended. */
  function Appended(parts: seq<Part>): (n: nat)
    ensures n <= |parts|
  {
    |parts| % 128
  }

  lemma CountWraps(n: nat)
    ensures 2 * n % 256 == 2 * (n % 128)
  {
  }

  /** Every file is appended if and only if there are fewer than 128. */
  lemma AppendedIff(parts: seq<Part>)
    ensures parts[..Appended(parts)] == parts <==> |parts| < 128
  {
  }

  /** Of 128 files of one byte none is appended, and the header counts no block. */
  lemma NoneAppended(kind: Short, b: Byte)
    ensures var parts := seq(128, _ => Part(kind, [b])); parts[..Appended(parts)] == [] && |AllChunks(parts)| == 128
  {
    SingleChunks(kind, b, 128);
  }

  lemma {:induction false} SingleChunks(kind: Short, b: Byte, n: nat)
    ensures |AllChunks(seq(n, _ => Part(kind, [b])))| == n
  {
    var parts := seq(n, _ => Part(kind, [b]));
    if n > 0 {
      assert parts[..n - 1] == seq(n - 1, _ => Part(kind, [b]));
      SingleChunks(kind, b, n - 1);
    }
  }

  ghost predicate AllOk(bs: seq<Block>) {
    forall i :: 0 <= i < |bs| ==> BlockOk(bs[i])
  }

  /** The blocks done, of which the last has the n bytes from pos on, are the first of the file. */
  ghost predicate Written(kind: Short, file: seq<Byte>, pos: nat, n: nat, done: seq<Block>) {
    && pos + n <= |file| && n == (if |file| - pos < DATA_BLOCKSIZE then |file| - pos else DATA_BLOCKSIZE)
    && Chunks(kind, file) == done + if n == DATA_BLOCKSIZE then Chunks(kind, file[pos + n..]) else []
  }

  lemma WrittenStart(kind: Short, file: seq<Byte>, n: nat)
    requires n == if |file| < DATA_BLOCKSIZE then |file| else DATA_BLOCKSIZE
    ensures Written(kind, file, 0, n, [Block(kind, file[..n])])
  {
    assert file[0..] == file;
    ChunksFrom(kind, file, 0, n);
  }

  lemma WrittenStep(kind: Short, file: seq<Byte>, pos: nat, n: nat, done: seq<Block>)
    requires pos >= DATA_BLOCKSIZE && Written(kind, file, pos - DATA_BLOCKSIZE, DATA_BLOCKSIZE, done)
    requires n == if |file| - pos < DATA_BLOCKSIZE then |file| - pos else DATA_BLOCKSIZE
    ensures Written(kind, file, pos, n, done + [Block(kind, file[pos..pos + n])])
  {
    hide Chunks;
    ChunksFrom(kind, file, pos, n);
    Regroup(done, [Block(kind, file[pos..pos + n])], if n == DATA_BLOCKSIZE then Chunks(kind, file[pos + n..]) else []);
  }

  lemma WrittenEnd(kind: Short, file: seq<Byte>, pos: nat, n: nat, done: seq<Block>)
    requires Written(kind, file, pos, n, done) && n != DATA_BLOCKSIZE
    ensures done == Chunks(kind, file)
  {
    hide Chunks;
    NothingMore(done);
  }

  lemma ChunksFrom(kind: Short, file: seq<Byte>, pos: nat, n: nat)
    requires pos <= |file| && n == if |file| - pos < DATA_BLOCKSIZE then |file| - pos else DATA_BLOCKSIZE
    ensures Chunks(kind, file[pos..]) ==
            [Block(kind, file[pos..pos + n])] + if n == DATA_BLOCKSIZE then Chunks(kind, file[pos + n..]) else []
  {
    var rest := file[pos..];
    if |rest| < DATA_BLOCKSIZE {
      assert rest == file[pos..pos + n];
    } else {
      assert rest[..n] == file[pos..pos + n] && rest[n..] == file[pos + n..];
    }
  }

  lemma PrintNone(crc: Crc)
    ensures Print(crc, []) == []
  {
  }

  lemma PrintOne(crc: Crc, b: Block)
    requires BlockOk(b)
    ensures Print(crc, [b]) == Framed(crc, Body(b))
  {
    hide Framed, Body;
    PrintSnoc(crc, [], b);
    assert [] + [b] == [b];
  }

  lemma PrintSnoc(crc: Crc, bs: seq<Block>, b: Block)
    requires BlockOk(b) && forall i :: 0 <= i < |bs| ==> BlockOk(bs[i])
    ensures Print(crc, bs + [b]) == Print(crc, bs) + Framed(crc, Body(b))
  {
    hide Framed, Body;
    assert (bs + [b])[..|bs|] == bs;
  }

  lemma {:induction false} PrintJoin(crc: Crc, a: seq<Block>, b: seq<Block>)
    requires (forall i :: 0 <= i < |a| ==> BlockOk(a[i])) && forall i :: 0 <= i < |b| ==> BlockOk(b[i])
    ensures Print(crc, a + b) == Print(crc, a) + Print(crc, b)
    decreases |b|
  {
    hide Framed, Body;
    if b == [] {
      NothingMore(a);
    } else {
      var n := |b| - 1;
      PrintJoin(crc, a, b[..n]);
      assert (a + b)[..|a + b| - 1] == a + b[..n];
      Regroup(Print(crc, a), Print(crc, b[..n]), Framed(crc, Body(b[n])));
    }
  }

  // ---------- extracting

  /** readShort: 0 at the end of the file */
  function ReadShort(file: seq<Byte>, pos: nat): Short {
    if pos + 2 <= |file| then ToShort(file, pos) else 0
  }

  /** The length field of a block that is complete. */
  function BlockLength(file: seq<Byte>, pos: nat): (len: Short)
    ensures len != 0 ==> 6 <= len && pos + 2 + len <= |file|
  {
    var len := ReadShort(file, pos);
    if len < 6 || pos + 2 + len > |file| then 0 else len
  }

  /** fseek to a position kept in an int32_t: a negative one is refused, and the file stays
      where it is. */
  function SeekFrom(at: nat, pos: int): nat {
    if pos < 0 then at else pos
  }

  /** Seeking to the place where the file already is leaves it there. */
  predicate SeekKeeps(at: nat) {
    SeekFrom(at, Int32(at)) == at
  }

  lemma SeekBelow(at: nat)
    requires at < WORD
    ensures SeekKeeps(at)
  {
  }

  lemma SeekBack(at: nat)
    requires WORD <= at < WORD + INT_LIMIT
    ensures !SeekKeeps(at) && SeekFrom(at, Int32(at)) == at - WORD
  {
  }

  /** Where the block bs[k] begins. */
  function BlockStart(crc: Crc, bs: seq<Block>, k: nat): nat
    requires k <= |bs| && AllOk(bs)
  {
    20 + |Print(crc, bs[..k])|
  }

  lemma BlockStartNext(crc: Crc, bs: seq<Block>, k: nat)
    requires k < |bs| && AllOk(bs)
    ensures BlockStart(crc, bs, k) < BlockStart(crc, bs, k + 1) <= BlockStart(crc, bs, k) + 0x8002
  {
    assert bs[..k + 1][..k] == bs[..k];
  }

  lemma {:induction false} BlockStartUp(crc: Crc, bs: seq<Block>, i: nat, j: nat)
    requires i <= j <= |bs| && AllOk(bs)
    ensures BlockStart(crc, bs, i) <= BlockStart(crc, bs, j)
  {
    hide BlockStart;
    if i < j {
      BlockStartUp(crc, bs, i, j - 1);
      BlockStartNext(crc, bs, j - 1);
    }
  }

  /** The place of the first block beyond 2^32 bytes. */
  lemma {:induction false} BlockBeyond(crc: Crc, bs: seq<Block>, n: nat) returns (k: nat)
    requires n <= |bs| && AllOk(bs) && BlockStart(crc, bs, n) >= WORD
    ensures k <= n && WORD <= BlockStart(crc, bs, k) < WORD + INT_LIMIT
    decreases n
  {
    hide Print, Body, BlockStart;
    StartIs(crc, bs, 0);
    if BlockStart(crc, bs, n - 1) >= WORD {
      k := BlockBeyond(crc, bs, n - 1);
    } else {
      BlockStartNext(crc, bs, n - 1);
      k := n;
    }
  }

  /** Extraction stays on the blocks of a file that was created if and only if the file has
      fewer than 2^32 bytes; otherwise some seek takes it back towards the beginning. */
  lemma SeeksIff(crc: Crc, count: Short, bs: seq<Block>)
    requires AllOk(bs)
    ensures (forall k :: 0 <= k <= |bs| ==> SeekKeeps(BlockStart(crc, bs, k))) <==>
            |Framed(crc, HeaderBody(count)) + Print(crc, bs)| < WORD
  {
    hide SeekKeeps, Print, Framed, HeaderBody, BlockStart;
    FileSize(crc, count, bs);
    var size := BlockStart(crc, bs, |bs|);
    if size < WORD {
      forall k | 0 <= k <= |bs| ensures SeekKeeps(BlockStart(crc, bs, k)) {
        BlockStartUp(crc, bs, k, |bs|);
        SeekBelow(BlockStart(crc, bs, k));
      }
    } else {
      var k := BlockBeyond(crc, bs, |bs|);
      SeekBack(BlockStart(crc, bs, k));
    }
  }

  lemma FileSize(crc: Crc, count: Short, bs: seq<Block>)
    requires AllOk(bs)
    ensures |Framed(crc, HeaderBody(count))| == 20
    ensures |Framed(crc, HeaderBody(count)) + Print(crc, bs)| == BlockStart(crc, bs, |bs|)
  {
    hide Print, Framed;
    assert bs[..|bs|] == bs;
    FramedSize(crc, HeaderBody(count));
  }

  class Extractor {
    const crc16: Crc
    var has: seq<bool>
    var fd: seq<seq<Byte>>
    var damaged: bool          // a block with a wrong checksum, or of a type too large, was met

    constructor (crc16: Crc)
      ensures this.crc16 == crc16 && Open() && !damaged
      ensures forall t :: 0 <= t < MAX_PART_NUMBER ==> !has[t] && fd[t] == []
    {
      this.crc16, damaged := crc16, false;
      has, fd := seq(MAX_PART_NUMBER, _ => false), seq(MAX_PART_NUMBER, _ => []);
    }

    predicate Open()
      reads this`has, this`fd
    {
      |has| == |fd| == MAX_PART_NUMBER
    }

    /** readBlock: the length field of the block at pos, or 0 when there is none. The first
        byte of the payload of a data block comes behind its type and its length. */
    method ReadBlock(file: seq<Byte>, pos: nat, firstBlock: bool) returns (len: nat)
      requires Open()
      modifies this`has, this`fd, this`damaged
      ensures Open()
      ensures len == BlockLength(file, pos)
      ensures len == 0 ==> fd == old(fd) && has == old(has) && damaged == old(damaged)
      ensures len != 0 ==>
                var body := file[pos + 4..pos + 2 + len];
                var kind := ToShort(body, 0);
                var data := !(firstBlock && kind == HEADER_TYPE) && kind < MAX_PART_NUMBER;
                && damaged == (old(damaged) || crc16(body) != ToShort(file, pos + 2)
                               || (!(firstBlock && kind == HEADER_TYPE) && kind >= MAX_PART_NUMBER))
                && fd == (if data then old(fd)[kind := old(fd)[kind] + body[4..]] else old(fd))
                && has == (if data then old(has)[kind := true] else old(has))
    {
      len := ReadShort(file, pos);
      if len < 6 || pos + 2 + len > |file| { return 0; }
      var crc := ReadShort(file, pos + 2);
      var dataBuf := file[pos + 4..pos + 2 + len];
      var dataCrc := crc16(dataBuf);
      if crc != dataCrc { damaged := true; }
      var kind := ToShort(dataBuf, 0);
      if firstBlock && kind == HEADER_TYPE {
      } else if kind < MAX_PART_NUMBER {
        if !has[kind] {
          has := has[kind := true];
        }
        fd := fd[kind := fd[kind] + dataBuf[4..]];
      } else {
        damaged := true;
      }
    }

    /** fup -x on a file of less than 2^32 bytes that was created: every checksum is right, and
        each type gets what belongs to it. */
    method Extract(file: seq<Byte>, ghost count: Short, ghost bs: seq<Block>) returns (blockCounterTotal: Short)
      requires Open() && !damaged && forall t :: 0 <= t < MAX_PART_NUMBER ==> !has[t] && fd[t] == []
      requires forall i :: 0 <= i < |bs| ==> BlockOk(bs[i]) && bs[i].kind < MAX_PART_NUMBER
      requires file == Framed(crc16, HeaderBody(count)) + Print(crc16, bs) && |file| < WORD
      modifies this`has, this`fd, this`damaged
      ensures Open() && !damaged && blockCounterTotal == (1 + |bs|) % 0x10000
      ensures forall t :: 0 <= t < MAX_PART_NUMBER ==> fd[t] == Gathered(bs, t)
      ensures forall t :: 0 <= t < MAX_PART_NUMBER ==> (has[t] <==> exists i :: 0 <= i < |bs| && bs[i].kind == t)
    {
      hide Framed, Body, Print, BlockLength, HeaderBody, ToShort, Gathered, Sorted, SeekKeeps, SeekFrom, Int32, BlockStart;
      FileSize(crc16, count, bs);
      HeaderThere(crc16, file, count, Print(crc16, bs));
      var len := ReadBlock(file, 0, true);
      SeekBelow(20);
      var at := Seek(len + 2, Int32(len + 2));
      blockCounterTotal := 1;
      ghost var k := 0;
      NothingYet(crc16, has, fd, bs);
      StartIs(crc16, bs, 0);
      while len > 0
        invariant 0 <= k <= |bs| && blockCounterTotal == (1 + k) % 0x10000 && Open() && !damaged
        invariant at == BlockStart(crc16, bs, k)
        invariant Sorted(has, fd, bs, k)
        invariant len == 0 ==> k == |bs|
        decreases |bs| - k, len
      {
        BlockStep(crc16, file, count, bs, k);
        if k < |bs| { SortedNext(has, fd, bs, k); }
        len := ReadBlock(file, at, false);
        if len > 0 {
          at := Seek(at + len + 2, Int32(at + len + 2));
          blockCounterTotal := (blockCounterTotal + 1) % 0x10000;
          k := k + 1;
        }
      }
      SortedAll(has, fd, bs);
    }
  }

  /** One block, and the seek to the next; or the end of the file. */
  lemma BlockStep(crc: Crc, file: seq<Byte>, count: Short, bs: seq<Block>, k: nat)
    requires AllOk(bs) && k <= |bs| && file == Framed(crc, HeaderBody(count)) + Print(crc, bs) && |file| < WORD
    ensures k == |bs| ==> BlockLength(file, BlockStart(crc, bs, k)) == 0
    ensures k < |bs| ==>
              var at, body := BlockStart(crc, bs, k), Body(bs[k]);
              var next := at + |body| + 4;
              && BlockLength(file, at) == |body| + 2 && next == BlockStart(crc, bs, k + 1) <= |file|
              && file[at + 4..next] == body && crc(body) == ToShort(file, at + 2)
              && ToShort(body, 0) == bs[k].kind && body[4..] == bs[k].data
              && SeekFrom(next, Int32(next)) == next
  {
    hide Framed, Body, Print, BlockLength, HeaderBody, ToShort, SeekFrom, Int32, BlockStart;
    FileSize(crc, count, bs);
    StartIs(crc, bs, k);
    if k < |bs| {
      BlockThere(crc, file, Framed(crc, HeaderBody(count)), bs, k);
      StartIs(crc, bs, k + 1);
      BlockStartUp(crc, bs, k + 1, |bs|);
      SeekBelow(BlockStart(crc, bs, k + 1));
    } else {
      NothingThere(file, BlockStart(crc, bs, k));
    }
  }

  /** fseek, when reading has taken the file to at. */
  method Seek(at: nat, pos: int) returns (at': nat)
    ensures at' == SeekFrom(at, pos)
  {
    at' := at;
    if pos >= 0 { at' := pos; }
  }

  lemma StartIs(crc: Crc, bs: seq<Block>, k: nat)
    requires k <= |bs| && AllOk(bs)
    ensures BlockStart(crc, bs, k) == 20 + |Print(crc, bs[..k])|
    ensures k == 0 ==> BlockStart(crc, bs, k) == 20
  {
    hide Print;
    if k == 0 {
      assert bs[..0] == [];
      PrintNone(crc);
    }
  }

  /** The blocks before bs[k] have gone to the files of their types. */
  ghost predicate Sorted(has: seq<bool>, fd: seq<seq<Byte>>, bs: seq<Block>, k: nat)
    requires |has| == |fd| == MAX_PART_NUMBER && k <= |bs|
  {
    forall t :: 0 <= t < MAX_PART_NUMBER ==>
      fd[t] == Gathered(bs[..k], t) && (has[t] <==> exists i :: 0 <= i < k && bs[i].kind == t)
  }

  lemma NothingYet(crc: Crc, has: seq<bool>, fd: seq<seq<Byte>>, bs: seq<Block>)
    requires |has| == |fd| == MAX_PART_NUMBER && forall t :: 0 <= t < MAX_PART_NUMBER ==> !has[t] && fd[t] == []
    requires AllOk(bs)
    ensures bs[..0] == [] && Print(crc, bs[..0]) == [] && Sorted(has, fd, bs, 0)
  {
  }

  lemma SortedNext(has: seq<bool>, fd: seq<seq<Byte>>, bs: seq<Block>, k: nat)
    requires |has| == |fd| == MAX_PART_NUMBER && k < |bs| && Sorted(has, fd, bs, k) && bs[k].kind < MAX_PART_NUMBER
    ensures var t := bs[k].kind; Sorted(has[t := true], fd[t := fd[t] + bs[k].data], bs, k + 1)
  {
    hide Gathered;
    GatheredNext(bs, k);
    NothingMoreOf(bs, k);
  }

  lemma NothingMoreOf(bs: seq<Block>, k: nat)
    requires k < |bs|
    ensures forall t: Short :: bs[k].kind != t ==> Gathered(bs[..k], t) + [] == Gathered(bs[..k], t)
  {
  }

  lemma SortedAll(has: seq<bool>, fd: seq<seq<Byte>>, bs: seq<Block>)
    requires |has| == |fd| == MAX_PART_NUMBER && Sorted(has, fd, bs, |bs|)
    ensures forall t :: 0 <= t < MAX_PART_NUMBER ==> fd[t] == Gathered(bs, t) && (has[t] <==> exists i :: 0 <= i < |bs| && bs[i].kind == t)
  {
    assert bs[..|bs|] == bs;
  }

  lemma NothingThere(file: seq<Byte>, pos: nat)
    requires pos == |file|
    ensures BlockLength(file, pos) == 0
  {
  }

  lemma GatheredNext(bs: seq<Block>, k: nat)
    requires k < |bs|
    ensures forall t: Short :: Gathered(bs[..k + 1], t) == Gathered(bs[..k], t) + if bs[k].kind == t then bs[k].data else []
  {
    assert bs[..k + 1][..k] == bs[..k];
  }

  /** A frame is read back. */
  lemma FramedThere(crc: Crc, file: seq<Byte>, pos: nat, body: seq<Byte>)
    requires 4 <= |body| && |body| + 2 < 0x10000
    requires var s := Framed(crc, body); pos + |s| <= |file| && file[pos..pos + |s|] == s
    ensures |Framed(crc, body)| == |body| + 4 && BlockLength(file, pos) == |body| + 2
    ensures ToShort(file, pos + 2) == crc(body) && file[pos + 4..pos + 4 + |body|] == body
  {
    var s := Framed(crc, body);
    hide Be16;
    var a, b := Be16(|body| + 2), Be16(crc(body));
    assert s == a + b + body;
    assert s[..2] == a && s[2..4] == b && s[4..] == body;
    PartOf(file, pos, s, 0, 2);
    PartOf(file, pos, s, 2, 4);
    PartOf(file, pos, s, 4, |s|);
    ShortBack(file, pos, |body| + 2);
    ShortBack(file, pos + 2, crc(body));
  }

  lemma HeaderThere(crc: Crc, file: seq<Byte>, count: Short, rest: seq<Byte>)
    requires file == Framed(crc, HeaderBody(count)) + rest
    ensures |Framed(crc, HeaderBody(count))| == 20 && BlockLength(file, 0) == 18
    ensures ToShort(file, 2) == crc(file[4..20]) && ToShort(file[4..20], 0) == HEADER_TYPE
  {
    hide Framed, BlockLength;
    var body := HeaderBody(count);
    var s := Framed(crc, body);
    FramedSize(crc, body);
    assert file[0..0 + |s|] == s;
    FramedThere(crc, file, 0, body);
    ShortBack(body, 0, HEADER_TYPE);
  }

  lemma FramedSize(crc: Crc, body: seq<Byte>)
    requires |body| + 2 < 0x10000
    ensures |Framed(crc, body)| == |body| + 4
  {
  }

  lemma BlockThere(crc: Crc, file: seq<Byte>, head: seq<Byte>, bs: seq<Block>, k: nat)
    requires k < |bs| && forall i :: 0 <= i < |bs| ==> BlockOk(bs[i])
    requires file == head + Print(crc, bs)
    ensures var pos := |head| + |Print(crc, bs[..k])|;
            var body := Body(bs[k]);
            && BlockLength(file, pos) == |body| + 2 && pos + |body| + 4 <= |file|
            && file[pos + 4..pos + 4 + |body|] == body && crc(body) == ToShort(file, pos + 2)
            && ToShort(body, 0) == bs[k].kind && body[4..] == bs[k].data
            && pos + |body| + 4 == |head| + |Print(crc, bs[..k + 1])|
  {
    hide Framed, BlockLength, ToShort, Print, Body;
    var pos, body := |head| + |Print(crc, bs[..k])|, Body(bs[k]);
    FrameAt(crc, file, head, bs, k);
    FramedSize(crc, body);
    FramedThere(crc, file, pos, body);
    BodyFields(bs[k]);
  }

  /** Where the frame of a block stands in the file. */
  lemma FrameAt(crc: Crc, file: seq<Byte>, head: seq<Byte>, bs: seq<Block>, k: nat)
    requires k < |bs| && forall i :: 0 <= i < |bs| ==> BlockOk(bs[i])
    requires file == head + Print(crc, bs)
    ensures var pos, s := |head| + |Print(crc, bs[..k])|, Framed(crc, Body(bs[k]));
            && pos + |s| == |head| + |Print(crc, bs[..k + 1])| <= |file| && file[pos..pos + |s|] == s
  {
    hide Framed, Body, Print;
    PrintJoin(crc, bs[..k + 1], bs[k + 1..]);
    PrintSnoc(crc, bs[..k], bs[k]);
    assert bs[..k + 1] + bs[k + 1..] == bs && bs[..k] + [bs[k]] == bs[..k + 1];
    InTheMiddle(head, Print(crc, bs[..k]), Framed(crc, Body(bs[k])), Print(crc, bs[k + 1..]));
  }

  lemma InTheMiddle(a: seq<Byte>, b: seq<Byte>, c: seq<Byte>, d: seq<Byte>)
    ensures var s := a + ((b + c) + d); |a| + |b| + |c| <= |s| && s[|a| + |b|..|a| + |b| + |c|] == c
  {
  }

  lemma BodyFields(b: Block)
    requires BlockOk(b)
    ensures var body := Body(b); ToShort(body, 0) == b.kind && body[4..] == b.data
  {
    hide ToShort;
    assert Body(b)[0..2] == Be16(b.kind);
    ShortBack(Body(b), 0, b.kind);
  }

  /** What was created is extracted: each type gets its files, one behind the other. */
  method RoundTrip(crc16: Crc, parts: seq<Part>) returns (fd: seq<seq<Byte>>)
    requires |parts| < 128 && forall i :: 0 <= i < |parts| ==> parts[i].kind < MAX_PART_NUMBER
    requires 20 + |Print(crc16, AllChunks(parts))| < WORD
    ensures |fd| == MAX_PART_NUMBER && forall t :: 0 <= t < MAX_PART_NUMBER ==> fd[t] == Wanted(parts, t)
  {
    hide Framed, Print, Wanted, Gathered, Chunks, HeaderBody, AllChunks;
    var creator := new Creator(crc16);
    creator.Create(parts);
    AppendedIff(parts);
    var extractor := new Extractor(crc16);
    AllKinds(parts);
    HeaderSize(crc16, |AllChunks(parts)| % 0x10000);
    var n := extractor.Extract(creator.irdFile, |AllChunks(parts)| % 0x10000, AllChunks(parts));
    fd := extractor.fd;
    forall t | 0 <= t < MAX_PART_NUMBER ensures fd[t] == Wanted(parts, t) { AllGathered(parts, t); }
  }

  lemma HeaderSize(crc: Crc, count: Short)
    ensures |Framed(crc, HeaderBody(count))| == 20
  {
    FramedSize(crc, HeaderBody(count));
  }

  lemma {:induction false} AllKinds(ps: seq<Part>)
    requires forall i :: 0 <= i < |ps| ==> ps[i].kind < MAX_PART_NUMBER
    ensures forall i :: 0 <= i < |AllChunks(ps)| ==> AllChunks(ps)[i].kind < MAX_PART_NUMBER
  {
    hide Chunks;
    if ps != [] { AllKinds(ps[..|ps| - 1]); }
  }
}
