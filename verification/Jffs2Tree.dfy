/** What the nodes of an image stand for when they are read: files as their fragments put
    together, directories as their entries, trees as what hangs below them. */
module Jffs2Tree {
  import opened Buffers
  import opened LittleEndian
  import opened Jffs2Format
  import opened Jffs2Layout
  import opened Jffs2Compress

  const MAX_FILE_SIZE := 0xffffffff
  const MAX_SYMLINK_LEN := 254

  // ---------- fragments

  /** Versions 1, 2, ... of one inode whose fragments lie end to end and unpack to the data. */
  ghost predicate Tiles(cs: seq<Compressor>, fs: seq<Inode>, ino: Word, data: seq<Byte>)
    decreases |fs|
  {
    if fs == [] then data == []
    else
      var f := fs[|fs| - 1];
      && f.ino == ino && f.version == |fs| && f.dsize <= |data| && f.offset == |data| - f.dsize
      && Unpack(cs, f.compr, f.payload, f.dsize) == Some(data[f.offset..])
      && Tiles(cs, fs[..|fs| - 1], ino, data[..f.offset])
  }

  /** Reading a file: its nodes in the order of their versions, each written over what is
      there at its offset. */
  function Replay(cs: seq<Compressor>, fs: seq<Inode>): Option<seq<Byte>> {
    if fs == [] then Some([])
    else
      var file := Replay(cs, fs[..|fs| - 1]);
      var f := fs[|fs| - 1];
      var text := Unpack(cs, f.compr, f.payload, f.dsize);
      if file.None? || text.None? || f.offset > |file.value| then None
      else Some(Overlay(file.value, f.offset, text.value))
  }

  function Overlay(file: seq<Byte>, offset: nat, text: seq<Byte>): seq<Byte>
    requires offset <= |file|
  {
    file[..offset] + text + if offset + |text| <= |file| then file[offset + |text|..] else []
  }

  /** Fragments that tile the data read back as the data. */
  lemma {:induction false} TilesReplay(cs: seq<Compressor>, fs: seq<Inode>, ino: Word, data: seq<Byte>)
    requires Tiles(cs, fs, ino, data)
    ensures Replay(cs, fs) == Some(data)
    decreases |fs|
  {
    hide Unpack;
    if fs != [] {
      var f := fs[|fs| - 1];
      TilesReplay(cs, fs[..|fs| - 1], ino, data[..f.offset]);
      Whole(data, f.offset);
      assert Overlay(data[..f.offset], f.offset, data[f.offset..]) == data;
    }
  }

  lemma TilesSnoc(cs: seq<Compressor>, fs: seq<Inode>, ino: Word, data: seq<Byte>, f: Inode, text: seq<Byte>)
    requires Tiles(cs, fs, ino, data)
    requires f.ino == ino && f.version == |fs| + 1 && f.dsize == |text| && f.offset == |data|
    requires Unpack(cs, f.compr, f.payload, f.dsize) == Some(text)
    ensures Tiles(cs, fs + [f], ino, data + text)
  {
    hide Unpack;
    assert (fs + [f])[..|fs|] == fs;
    Halves(data, text);
  }

  /** Mode, owner, size and times of an inode, with the size set. */
  function Sized(attrs: seq<Byte>, size: Word): (r: seq<Byte>)
    requires |attrs| == 24
    ensures |r| == 24
  {
    attrs[..8] + Le32(size) + attrs[12..]
  }

  lemma SizeBack(attrs: seq<Byte>, size: Word)
    requires |attrs| == 24
    ensures Get32(Sized(attrs, size), 8) == size
  {
    assert Sized(attrs, size)[8..12] == Le32(size);
    Le32Back(Sized(attrs, size), 8, size);
  }

  /** Every fragment repeats the file's mode, owner, size and times. */
  ghost predicate SameAttrs(fs: seq<Inode>, attrs: seq<Byte>) {
    forall k :: 0 <= k < |fs| ==> fs[k].attrs == attrs
  }

  /** The node bytes of a list of inodes. */
  ghost predicate Holds(bs: seq<seq<Byte>>, fs: seq<Inode>) {
    |bs| == |fs| && forall k :: 0 <= k < |bs| ==> IsInode(bs[k], fs[k])
  }

  ghost predicate IsInode(b: seq<Byte>, f: Inode) {
    IsNode(b) && Get16(b, 2) == NODETYPE_INODE && |b| >= RAW_INODE_SIZE && InodeOf(b) == f && Get32(b, 48) == |f.payload|
  }

  ghost predicate IsDirent(b: seq<Byte>, d: Dirent) {
    IsNode(b) && Get16(b, 2) == NODETYPE_DIRENT && |b| >= RAW_DIRENT_SIZE && DirentOf(b) == d && b[28] == |d.name|
  }

  /** Every node carries the right checksums. */
  ghost predicate AllSealed(crc: seq<Byte> -> Word, log: seq<seq<Byte>>) {
    forall i :: 0 <= i < |log| ==> NodeSealed(crc, log[i])
  }

  ghost predicate NodeSealed(crc: seq<Byte> -> Word, b: seq<Byte>) {
    IsNode(b) && if Get16(b, 2) == NODETYPE_INODE then InodeSealed(crc, b)
                 else Get16(b, 2) == NODETYPE_DIRENT && DirentSealed(crc, b)
  }

  lemma SealedSnoc(crc: seq<Byte> -> Word, log: seq<seq<Byte>>, b: seq<Byte>)
    requires AllSealed(crc, log) && NodeSealed(crc, b)
    ensures AllSealed(crc, log + [b])
  {
    hide NodeSealed;
  }

  /** A directory tree; content is a link's target or a device number. */
  datatype Entry =
    | Regular(name: seq<Byte>, mctime: Word, attrs: seq<Byte>, data: seq<Byte>)
    | Other(dtype: Byte, name: seq<Byte>, mctime: Word, attrs: seq<Byte>, content: seq<Byte>)
    | Directory(name: seq<Byte>, mctime: Word, attrs: seq<Byte>, files: seq<Entry>)

  const DT_DIR: Byte := 4
  const DT_REG: Byte := 8

  /** The number of entries in a tree. */
  function Count(dir: seq<Entry>): nat {
    if dir == [] then 0
    else Count(dir[..|dir| - 1]) + 1 + (if dir[|dir| - 1].Directory? then Count(dir[|dir| - 1].files) else 0)
  }

  predicate Proper(dir: seq<Entry>) {
    forall i :: 0 <= i < |dir| ==>
      |dir[i].name| <= MAX_NAME_LEN && |dir[i].attrs| == 24 && (dir[i].Directory? ==> Proper(dir[i].files))
  }

  lemma {:induction false} CountPrefix(dir: seq<Entry>, k: nat)
    requires k < |dir|
    ensures Count(dir[..k + 1]) == Count(dir[..k]) + 1 + (if dir[k].Directory? then Count(dir[k].files) else 0)
    ensures Count(dir[..k + 1]) <= Count(dir)
    decreases |dir|
  {
    assert dir[..k + 1][..k] == dir[..k];
    if k + 1 == |dir| {
      assert dir[..k + 1] == dir;
    } else {
      CountPrefix(dir[..|dir| - 1], k);
      assert dir[..|dir| - 1][..k] == dir[..k] && dir[..|dir| - 1][..k + 1] == dir[..k + 1];
    }
  }

  // ---------- the highest inode number

  lemma TopDirent(log: seq<seq<Byte>>, b: seq<Byte>, d: Dirent, s: nat)
    requires IsDirent(b, d)
    ensures TopIno(log + [b], s) == TopIno(log, s)
  {
    TopSnoc(log, b, s);
  }

  lemma TopInode(log: seq<seq<Byte>>, b: seq<Byte>, f: Inode, s: nat)
    requires IsInode(b, f) && TopIno(log, s) <= f.ino
    ensures TopIno(log + [b], s) == f.ino
  {
    TopSnoc(log, b, s);
  }

  lemma {:induction false} TopFrom(log: seq<seq<Byte>>, s: nat)
    ensures TopIno(log, s) == if TopIno(log, 0) > s then TopIno(log, 0) else s
  {
    hide Get16, Get32, IsNode;
    if log != [] { TopFrom(log[..|log| - 1], s); }
  }

  lemma {:induction false} TopFile(cs: seq<Compressor>, log: seq<seq<Byte>>, bs: seq<seq<Byte>>, fs: seq<Inode>, ino: Word, data: seq<Byte>, s: nat)
    requires Holds(bs, fs) && Tiles(cs, fs, ino, data) && TopIno(log, s) <= ino
    ensures TopIno(log + bs, s) == if bs == [] then TopIno(log, s) else ino
    decreases |bs|
  {
    hide Unpack, IsInode, TopIno;
    if bs == [] {
      NothingMore(log);
    } else {
      var n := |bs| - 1;
      HoldsFront(bs, fs);
      TopFile(cs, log, bs[..n], fs[..n], ino, data[..fs[n].offset], s);
      TopInode(log + bs[..n], bs[n], fs[n], s);
      assert log + bs == (log + bs[..n]) + [bs[n]];
    }
  }

  lemma HoldsFront(bs: seq<seq<Byte>>, fs: seq<Inode>)
    requires Holds(bs, fs) && bs != []
    ensures Holds(bs[..|bs| - 1], fs[..|fs| - 1]) && IsInode(bs[|bs| - 1], fs[|fs| - 1])
  {
    hide IsInode;
  }

  lemma HoldsSame(bs: seq<seq<Byte>>, fs: seq<Inode>)
    requires Holds(bs, fs)
    ensures bs == [] <==> fs == []
  {
  }

  lemma {:induction false} CountAtLeast(dir: seq<Entry>, k: nat)
    requires k <= |dir|
    ensures k <= Count(dir[..k]) && k <= Count(dir)
    decreases |dir| + k
  {
    if k > 0 {
      CountAtLeast(dir[..k - 1], k - 1);
      assert dir[..k - 1][..k - 1] == dir[..k - 1];
      CountPrefix(dir, k - 1);
    }
  }

  /** The entries not yet visited. */
  lemma {:induction false} CountRest(dir: seq<Entry>, k: nat)
    requires k <= |dir|
    ensures Count(dir[..k]) + (|dir| - k) <= Count(dir)
    decreases |dir| - k
  {
    if k == |dir| {
      assert dir[..k] == dir;
    } else {
      CountPrefix(dir, k);
      CountRest(dir, k + 1);
    }
  }

  lemma HoldsSnoc(bs: seq<seq<Byte>>, fs: seq<Inode>, b: seq<Byte>, f: Inode)
    requires Holds(bs, fs) && IsInode(b, f)
    ensures Holds(bs + [b], fs + [f])
  {
    hide IsInode;
  }

  lemma NothingYet(cs: seq<Compressor>, ino: Word)
    ensures Tiles(cs, [], ino, []) && Holds([], [])
  {
  }

  lemma Cutting(data: seq<Byte>, offset: nat, tbuf: seq<Byte>, n: nat)
    requires n <= |tbuf| && offset + |tbuf| <= |data| && tbuf == data[offset..offset + |tbuf|]
    ensures data[..offset] + tbuf[..n] == data[..offset + n]
    ensures tbuf[n..] == data[offset + n..offset + n + |tbuf[n..]|]
  {
  }

  // ---------- reading a tree back

  datatype Content = Names(d: Dirent) | Holding(i: Inode) | Neither

  /** What one node says. */
  function Read(b: seq<Byte>): Content {
    if IsNode(b) && Get16(b, 2) == NODETYPE_INODE then Holding(InodeOf(b))
    else if IsNode(b) && Get16(b, 2) == NODETYPE_DIRENT && |b| >= RAW_DIRENT_SIZE then Names(DirentOf(b))
    else Neither
  }

  /** The entries of directory p, in the order in which they were written. */
  function Children(log: seq<seq<Byte>>, p: nat): seq<Dirent> {
    if log == [] then []
    else
      var c := Read(log[|log| - 1]);
      Children(log[..|log| - 1], p) + if c.Names? && c.d.pino == p then [c.d] else []
  }

  /** The inode nodes numbered c. */
  function Fragments(log: seq<seq<Byte>>, c: nat): seq<Inode> {
    if log == [] then []
    else
      var n := Read(log[|log| - 1]);
      Fragments(log[..|log| - 1], c) + if n.Holding? && n.i.ino == c then [n.i] else []
  }

  lemma ReadSnoc(log: seq<seq<Byte>>, b: seq<Byte>, c: nat)
    ensures Children(log + [b], c) == Children(log, c) + if Read(b).Names? && Read(b).d.pino == c then [Read(b).d] else []
    ensures Fragments(log + [b], c) == Fragments(log, c) + if Read(b).Holding? && Read(b).i.ino == c then [Read(b).i] else []
  {
    assert (log + [b])[..|log|] == log;
  }

  lemma ReadInode(b: seq<Byte>, f: Inode)
    requires IsInode(b, f)
    ensures Read(b) == Holding(f)
  {
  }

  lemma ReadDirent(b: seq<Byte>, d: Dirent)
    requires IsDirent(b, d)
    ensures Read(b) == Names(d)
  {
  }

  ghost predicate Numbered(fs: seq<Inode>, ino: nat) {
    forall k :: 0 <= k < |fs| ==> fs[k].ino == ino
  }

  lemma {:induction false} TilesNumbered(cs: seq<Compressor>, fs: seq<Inode>, ino: Word, data: seq<Byte>)
    requires Tiles(cs, fs, ino, data)
    ensures Numbered(fs, ino)
    decreases |fs|
  {
    hide Unpack;
    if fs != [] {
      var n := |fs| - 1;
      TilesNumbered(cs, fs[..n], ino, data[..fs[n].offset]);
      assert forall k :: 0 <= k < n ==> fs[..n][k] == fs[k];
    }
  }

  /** Nodes of one inode are found under its number and nowhere else. */
  lemma {:induction false} ReadFile(log: seq<seq<Byte>>, bs: seq<seq<Byte>>, fs: seq<Inode>, ino: nat, c: nat)
    requires Holds(bs, fs) && Numbered(fs, ino)
    ensures Children(log + bs, c) == Children(log, c)
    ensures Fragments(log + bs, c) == Fragments(log, c) + if c == ino then fs else []
    decreases |bs|
  {
    hide IsInode, Children, Fragments, Read;
    if bs == [] {
      NothingMore(log);
    } else {
      var n := |bs| - 1;
      HoldsFront(bs, fs);
      ReadFile(log, bs[..n], fs[..n], ino, c);
      ReadInode(bs[n], fs[n]);
      ReadSnoc(log + bs[..n], bs[n], c);
      assert log + bs == (log + bs[..n]) + [bs[n]];
      assert fs == fs[..n] + [fs[n]];
    }
  }

  /** Files of 4 GB are left out. */
  predicate TooLarge(e: Entry) {
    e.Regular? && |e.data| >= MAX_FILE_SIZE
  }

  /** The number of entries among the first n that are not left out. */
  function Rank(dir: seq<Entry>, n: nat): (r: nat)
    requires n <= |dir|
    ensures r <= n
  {
    if n == 0 then 0 else Rank(dir, n - 1) + if TooLarge(dir[n - 1]) then 0 else 1
  }

  lemma {:induction false} RankUp(dir: seq<Entry>, m: nat, n: nat)
    requires m < n <= |dir| && !TooLarge(dir[m])
    ensures Rank(dir, m) < Rank(dir, n)
  {
    if m + 1 < n { RankUp(dir, m, n - 1); }
  }

  lemma RankNext(dir: seq<Entry>, n: nat)
    requires n < |dir|
    ensures Rank(dir, n + 1) == Rank(dir, n) + if TooLarge(dir[n]) then 0 else 1
  {
  }

  function TypeOf(e: Entry): Byte {
    match e
    case Regular(_, _, _, _) => DT_REG
    case Other(dtype, _, _, _, _) => dtype
    case Directory(_, _, _, _) => DT_DIR
  }

  /** The directory entry d and the inode it names show the entry e. */
  ghost predicate Shows(cs: seq<Compressor>, log: seq<seq<Byte>>, e: Entry, d: Dirent) {
    && d.name == e.name && d.mctime == e.mctime && d.dtype == TypeOf(e)
    && var nodes := Fragments(log, d.ino);
       match e
       case Regular(_, _, attrs, data) =>
         && nodes != [] && |attrs| == 24 && |data| < MAX_FILE_SIZE && SameAttrs(nodes, Sized(attrs, |data|))
         && Replay(cs, nodes) == Some(data)
       case Other(_, _, _, attrs, content) => |attrs| == 24 && nodes == [Single(d.ino, attrs, content)]
       case Directory(_, _, attrs, _) => |attrs| == 24 && nodes == [Single(d.ino, attrs, [])]
  }

  /** The one inode of what is not a regular file; long links are cut off, and the size of
      what has no content is 0. */
  function Single(ino: Word, attrs: seq<Byte>, content: seq<Byte>): Inode
    requires |attrs| == 24
  {
    var len := if |content| > MAX_SYMLINK_LEN then MAX_SYMLINK_LEN else |content|;
    Inode(ino, 1, if content == [] then Sized(attrs, 0) else attrs, 0, len, COMPR_NONE, content[..len])
  }

  /** The directory entries ds show the first n entries of dir, with numbers above lo. */
  ghost predicate Lists(cs: seq<Compressor>, log: seq<seq<Byte>>, dir: seq<Entry>, n: nat, ds: seq<Dirent>, lo: nat, hi: nat) {
    && n <= |dir| && |ds| == Rank(dir, n)
    && forall i :: 0 <= i < n && !TooLarge(dir[i]) ==>
         Rank(dir, i) < |ds| && lo < ds[Rank(dir, i)].ino <= hi && Shows(cs, log, dir[i], ds[Rank(dir, i)])
  }

  /** Read from the nodes, ds and what hangs below them are exactly the tree dir. */
  ghost predicate Tree(cs: seq<Compressor>, log: seq<seq<Byte>>, dir: seq<Entry>, ds: seq<Dirent>, lo: nat, hi: nat)
    decreases dir
  {
    && Lists(cs, log, dir, |dir|, ds, lo, hi)
    && forall i :: 0 <= i < |dir| && dir[i].Directory? ==>
         Rank(dir, i) < |ds| && Tree(cs, log, dir[i].files, Children(log, ds[Rank(dir, i)].ino), lo, hi)
  }

  /** Nodes added below directory p, with numbers above n. */
  ghost predicate Grown(log: seq<seq<Byte>>, log': seq<seq<Byte>>, p: nat, n: nat) {
    forall c :: 0 <= c <= n ==> Fragments(log', c) == Fragments(log, c) && (c != p ==> Children(log', c) == Children(log, c))
  }

  /** No number above n is used. */
  ghost predicate Bounded(log: seq<seq<Byte>>, n: nat) {
    forall c :: c > n ==> Fragments(log, c) == [] && Children(log, c) == []
  }

  lemma ShowsSame(cs: seq<Compressor>, log: seq<seq<Byte>>, log': seq<seq<Byte>>, e: Entry, d: Dirent)
    requires Shows(cs, log, e, d) && Fragments(log', d.ino) == Fragments(log, d.ino)
    ensures Shows(cs, log', e, d)
  {
  }

  lemma ListsSame(cs: seq<Compressor>, log: seq<seq<Byte>>, log': seq<seq<Byte>>, dir: seq<Entry>, n: nat, ds: seq<Dirent>,
                  lo: nat, hi: nat, lo': nat, hi': nat)
    requires Lists(cs, log, dir, n, ds, lo, hi) && lo' <= lo && hi <= hi'
    requires forall c :: lo < c <= hi ==> Fragments(log', c) == Fragments(log, c)
    ensures Lists(cs, log', dir, n, ds, lo', hi')
  {
    hide Fragments, Shows;
    forall i | 0 <= i < n && !TooLarge(dir[i])
      ensures Rank(dir, i) < |ds| && Shows(cs, log', dir[i], ds[Rank(dir, i)])
    {
      ShowsSame(cs, log, log', dir[i], ds[Rank(dir, i)]);
    }
  }

  /** What is added elsewhere does not change a tree. */
  lemma {:induction false} TreeSame(cs: seq<Compressor>, log: seq<seq<Byte>>, log': seq<seq<Byte>>, dir: seq<Entry>, ds: seq<Dirent>,
                                    lo: nat, hi: nat, lo': nat, hi': nat)
    requires Tree(cs, log, dir, ds, lo, hi) && lo' <= lo && hi <= hi'
    requires forall c :: lo < c <= hi ==> Fragments(log', c) == Fragments(log, c) && Children(log', c) == Children(log, c)
    ensures Tree(cs, log', dir, ds, lo', hi')
    decreases dir
  {
    hide Fragments, Children, Shows;
    ListsSame(cs, log, log', dir, |dir|, ds, lo, hi, lo', hi');
    forall i | 0 <= i < |dir| && dir[i].Directory?
      ensures Rank(dir, i) < |ds| && Tree(cs, log', dir[i].files, Children(log', ds[Rank(dir, i)].ino), lo', hi')
    {
      TreeSame(cs, log, log', dir[i].files, Children(log, ds[Rank(dir, i)].ino), lo, hi, lo', hi');
    }
  }

  /** One more entry of a directory. */
  lemma ListsSnoc(cs: seq<Compressor>, log: seq<seq<Byte>>, dir: seq<Entry>, n: nat, ds: seq<Dirent>, d: Dirent, lo: nat, hi: nat)
    requires n < |dir| && Lists(cs, log, dir, n, ds, lo, hi) && !TooLarge(dir[n]) && Shows(cs, log, dir[n], d) && lo < d.ino <= hi
    ensures Lists(cs, log, dir, n + 1, ds + [d], lo, hi)
  {
    hide Shows, Rank;
    RankNext(dir, n);
    forall i | 0 <= i < n + 1 && !TooLarge(dir[i])
      ensures Rank(dir, i) < |ds + [d]| && lo < (ds + [d])[Rank(dir, i)].ino <= hi && Shows(cs, log, dir[i], (ds + [d])[Rank(dir, i)])
    {
      if i < n { assert (ds + [d])[Rank(dir, i)] == ds[Rank(dir, i)]; }
    }
  }

  lemma ListsSkip(cs: seq<Compressor>, log: seq<seq<Byte>>, dir: seq<Entry>, n: nat, ds: seq<Dirent>, lo: nat, hi: nat)
    requires n < |dir| && Lists(cs, log, dir, n, ds, lo, hi) && TooLarge(dir[n])
    ensures Lists(cs, log, dir, n + 1, ds, lo, hi)
  {
    hide Shows, Rank;
    RankNext(dir, n);
  }

  lemma GrownTwice(log: seq<seq<Byte>>, log': seq<seq<Byte>>, log'': seq<seq<Byte>>, p: nat, n: nat, q: nat, m: nat)
    requires Grown(log, log', p, n) && Grown(log', log'', q, m) && n <= m && (q == p || q > n)
    ensures Grown(log, log'', p, n)
  {
    hide Fragments, Children;
  }

  /** A directory entry with a new number, and the inode nodes of that number. */
  lemma EntryAdded(log: seq<seq<Byte>>, b: seq<Byte>, d: Dirent, bs: seq<seq<Byte>>, fs: seq<Inode>, n: nat)
    requires Bounded(log, n) && IsDirent(b, d) && d.ino == n + 1 && d.pino <= n
    requires Holds(bs, fs) && Numbered(fs, n + 1)
    ensures var log' := log + [b] + bs;
            && Bounded(log', n + 1) && Grown(log, log', d.pino, n)
            && Children(log', d.pino) == Children(log, d.pino) + [d]
            && Children(log', n + 1) == [] && Fragments(log', n + 1) == fs
  {
    hide IsDirent, Children, Fragments, Holds;
    var log' := log + [b] + bs;
    forall c: nat
      ensures Children(log', c) == Children(log, c) + if c == d.pino then [d] else []
      ensures Fragments(log', c) == Fragments(log, c) + if c == n + 1 then fs else []
    {
      ReadDirent(b, d);
      ReadSnoc(log, b, c);
      ReadFile(log + [b], bs, fs, n + 1, c);
      NothingMore(Fragments(log, c));
      NothingMore(Children(log, c));
    }
    assert Fragments(log, n + 1) == [] && Children(log, n + 1) == [];
  }

  // ---------- while a directory is written

  /** The numbers given to the first n entries of a directory, in increasing order. */
  ghost predicate Fresh(dir: seq<Entry>, n: nat, ds: seq<Dirent>, inos: seq<Word>, lo: nat, hi: nat) {
    && n <= |dir| && |inos| == n && |ds| == Rank(dir, n)
    && (forall i :: 0 <= i < n && !TooLarge(dir[i]) ==> Rank(dir, i) < |ds| && inos[i] == ds[Rank(dir, i)].ino)
    && (forall i :: 0 <= i < |ds| ==> lo < ds[i].ino <= hi)
    && (forall i, j :: 0 <= i < j < |ds| ==> ds[i].ino < ds[j].ino)
  }

  lemma FreshSkip(dir: seq<Entry>, n: nat, ds: seq<Dirent>, inos: seq<Word>, lo: nat, hi: nat, ino: Word)
    requires n < |dir| && Fresh(dir, n, ds, inos, lo, hi) && TooLarge(dir[n])
    ensures Fresh(dir, n + 1, ds, inos + [ino], lo, hi)
  {
    hide Rank;
    RankNext(dir, n);
  }

  lemma FreshSnoc(dir: seq<Entry>, n: nat, ds: seq<Dirent>, inos: seq<Word>, d: Dirent, lo: nat, hi: nat)
    requires n < |dir| && Fresh(dir, n, ds, inos, lo, hi) && !TooLarge(dir[n]) && lo <= hi && d.ino == hi + 1
    ensures Fresh(dir, n + 1, ds + [d], inos + [d.ino], lo, d.ino)
  {
    hide Rank;
    RankNext(dir, n);
    var ds', inos' := ds + [d], inos + [d.ino];
    forall i | 0 <= i < n + 1 && !TooLarge(dir[i])
      ensures Rank(dir, i) < |ds'| && inos'[i] == ds'[Rank(dir, i)].ino
    {
      if i < n { assert Rank(dir, i) < |ds| && inos[i] == ds[Rank(dir, i)].ino; }
    }
    forall i, j | 0 <= i < j < |ds'| ensures ds'[i].ino < ds'[j].ino {
      if j < |ds| { assert ds[i].ino < ds[j].ino; } else { assert ds[i].ino <= hi; }
    }
  }

  lemma NoneYet(cs: seq<Compressor>, log: seq<seq<Byte>>, dir: seq<Entry>, p: nat, n: nat)
    ensures Lists(cs, log, dir, 0, [], n, n) && Fresh(dir, 0, [], [], n, n) && Grown(log, log, p, n)
  {
  }

  /** One more entry leaves those before it as they are, still without anything below. */
  lemma GrownLists(cs: seq<Compressor>, log: seq<seq<Byte>>, log': seq<seq<Byte>>, dir: seq<Entry>, k: nat, ds: seq<Dirent>,
                   inos: seq<Word>, p: nat, lo: nat, n: nat, n': nat)
    requires Lists(cs, log, dir, k, ds, lo, n) && Fresh(dir, k, ds, inos, lo, n) && Grown(log, log', p, n) && p <= lo <= n <= n'
    requires forall i :: 0 <= i < |ds| ==> Children(log, ds[i].ino) == []
    ensures Lists(cs, log', dir, k, ds, lo, n')
    ensures forall i :: 0 <= i < |ds| ==> Children(log', ds[i].ino) == []
  {
    hide Children, Fragments, Lists;
    ListsSame(cs, log, log', dir, k, ds, lo, n, lo, n');
  }

  lemma FreshApart(dir: seq<Entry>, ds: seq<Dirent>, inos: seq<Word>, i: nat, j: nat, lo: nat, hi: nat)
    requires Fresh(dir, |dir|, ds, inos, lo, hi) && i < j < |dir| && !TooLarge(dir[i]) && !TooLarge(dir[j])
    ensures inos[i] < inos[j]
  {
    RankUp(dir, i, j);
  }

  /** The first k directories of dir have been filled; log continues flat, in which none was. */
  ghost predicate Progress(cs: seq<Compressor>, flat: seq<seq<Byte>>, log: seq<seq<Byte>>, dir: seq<Entry>, inos: seq<Word>,
                           k: nat, lo: nat, n: nat, m: nat)
  {
    && k <= |dir| == |inos| && lo <= n <= m
    && (forall c :: 0 <= c <= n ==> Fragments(log, c) == Fragments(flat, c))
    && (forall c :: 0 <= c <= lo ==> Children(log, c) == Children(flat, c))
    && (forall i :: 0 <= i < k && dir[i].Directory? ==> Tree(cs, log, dir[i].files, Children(log, inos[i]), n, m))
    && (forall i :: k <= i < |dir| && dir[i].Directory? ==> Children(log, inos[i]) == [])
  }

  lemma ProgressStart(cs: seq<Compressor>, flat: seq<seq<Byte>>, dir: seq<Entry>, ds: seq<Dirent>, inos: seq<Word>, lo: nat, n: nat)
    requires Fresh(dir, |dir|, ds, inos, lo, n) && lo <= n
    requires forall i :: 0 <= i < |ds| ==> Children(flat, ds[i].ino) == []
    ensures Progress(cs, flat, flat, dir, inos, 0, lo, n, n)
  {
    hide Children, Fragments, Tree;
  }

  /** The listings of the other directories stay as they are. */
  lemma StepApart(dir: seq<Entry>, ds: seq<Dirent>, inos: seq<Word>, i: nat, k: nat, lo: nat, n: nat, m: nat,
                  log: seq<seq<Byte>>, log': seq<seq<Byte>>)
    requires Fresh(dir, |dir|, ds, inos, lo, n) && i < |dir| && k < |dir| && i != k && dir[i].Directory? && dir[k].Directory?
    requires Grown(log, log', inos[k], m) && n <= m
    ensures Children(log', inos[i]) == Children(log, inos[i])
  {
    hide Children, Fragments, Fresh;
    FreshApart(dir, ds, inos, if i < k then i else k, if i < k then k else i, lo, n);
    FreshBelow(dir, ds, inos, i, lo, n);
  }

  lemma ProgressSkip(cs: seq<Compressor>, flat: seq<seq<Byte>>, log: seq<seq<Byte>>, dir: seq<Entry>,
                     inos: seq<Word>, k: nat, lo: nat, n: nat, m: nat)
    requires Progress(cs, flat, log, dir, inos, k, lo, n, m) && k < |dir|
    requires dir[k].Directory? ==> dir[k].files == []
    ensures Progress(cs, flat, log, dir, inos, k + 1, lo, n, m)
  {
    hide Children, Fragments, Tree;
    NoEntries(cs, log, n, m);
  }

  lemma ProgressStep(cs: seq<Compressor>, flat: seq<seq<Byte>>, log: seq<seq<Byte>>, log': seq<seq<Byte>>, dir: seq<Entry>,
                     ds: seq<Dirent>, inos: seq<Word>, k: nat, below: seq<Dirent>, lo: nat, n: nat, m: nat, m': nat)
    requires Fresh(dir, |dir|, ds, inos, lo, n) && k < |dir| && m <= m' && dir[k].Directory?
    requires Progress(cs, flat, log, dir, inos, k, lo, n, m)
    requires Grown(log, log', inos[k], m) && Tree(cs, log', dir[k].files, below, m, m')
    requires Children(log', inos[k]) == Children(log, inos[k]) + below
    ensures Progress(cs, flat, log', dir, inos, k + 1, lo, n, m')
  {
    hide Children, Fragments, Tree, Fresh;
    FreshBelow(dir, ds, inos, k, lo, n);
    forall i | 0 <= i < k && dir[i].Directory?
      ensures Tree(cs, log', dir[i].files, Children(log', inos[i]), n, m')
    {
      StepApart(dir, ds, inos, i, k, lo, n, m, log, log');
      TreeSame(cs, log, log', dir[i].files, Children(log, inos[i]), n, m, n, m');
    }
    TreeSame(cs, log', log', dir[k].files, below, m, m', n, m');
    assert Children(log, inos[k]) + below == below;
    forall i | k + 1 <= i < |dir| && dir[i].Directory?
      ensures Children(log', inos[i]) == []
    {
      StepApart(dir, ds, inos, i, k, lo, n, m, log, log');
    }
  }

  lemma NoEntries(cs: seq<Compressor>, log: seq<seq<Byte>>, lo: nat, hi: nat)
    ensures Tree(cs, log, [], [], lo, hi)
  {
  }

  /** The directory is complete. */
  lemma TreeBuilt(cs: seq<Compressor>, flat: seq<seq<Byte>>, log: seq<seq<Byte>>, dir: seq<Entry>,
                  ds: seq<Dirent>, inos: seq<Word>, lo: nat, n: nat, m: nat)
    requires Lists(cs, flat, dir, |dir|, ds, lo, n) && Fresh(dir, |dir|, ds, inos, lo, n)
    requires Progress(cs, flat, log, dir, inos, |dir|, lo, n, m)
    ensures Tree(cs, log, dir, ds, lo, m)
  {
    hide Children, Fragments, Lists;
    ListsSame(cs, flat, log, dir, |dir|, ds, lo, n, lo, m);
    forall i | 0 <= i < |dir| && dir[i].Directory?
      ensures Rank(dir, i) < |ds| && Tree(cs, log, dir[i].files, Children(log, ds[Rank(dir, i)].ino), lo, m)
    {
      TreeSame(cs, log, log, dir[i].files, Children(log, inos[i]), n, m, lo, m);
    }
  }

  lemma ProgressGrown(cs: seq<Compressor>, log: seq<seq<Byte>>, flat: seq<seq<Byte>>, log': seq<seq<Byte>>, dir: seq<Entry>,
                      inos: seq<Word>, p: nat, lo: nat, n: nat, m: nat)
    requires Grown(log, flat, p, lo) && p <= lo && Progress(cs, flat, log', dir, inos, |dir|, lo, n, m)
    ensures Grown(log, log', p, lo) && Children(log', p) == Children(flat, p)
  {
    hide Fragments, Children, Tree;
  }

  lemma FreshBelow(dir: seq<Entry>, ds: seq<Dirent>, inos: seq<Word>, k: nat, lo: nat, hi: nat)
    requires Fresh(dir, |dir|, ds, inos, lo, hi) && k < |dir| && dir[k].Directory?
    ensures lo < inos[k] <= hi
  {
  }
}
