/** Files and directory entries as nodes: every file is cut into fragments that fit the erase
    blocks, each compressed on its own. */
module Jffs2Files {
  import opened Buffers
  import opened Integers
  import opened LittleEndian
  import opened Jffs2Format
  import opened Jffs2Layout
  import opened Jffs2Compress
  import opened Jffs2Tree
  import opened Jffs2Writer
  import Rescan = Jffs2Rescan

  class Builder {
    const image: Image
    const page_size: nat
    const mode: Mode
    const cs: seq<Compressor>
    const crc32: seq<Byte> -> Word
    var ino: nat
    var version: nat           // of the last directory entry

    /** There is room for any node besides file data: directory entries and links. */
    ghost predicate Valid()
      reads image
    {
      && image.Valid() && Registry(cs, page_size) && page_size > 0
      && image.Usable(RAW_INODE_SIZE + MIN_DATA_LEN) && image.Usable(RAW_DIRENT_SIZE + MAX_NAME_LEN)
      && image.Usable(RAW_INODE_SIZE + MAX_SYMLINK_LEN)
      && image.erase_block_size < 0x8000_0000
      && AllSealed(crc32, LogOf(image.ps))
    }

    /** The same for an image that is finished. */
    ghost predicate Finished(tail: nat)
      reads image
    {
      && image.Closed(tail) && Registry(cs, page_size) && page_size > 0
      && image.erase_block_size < 0x8000_0000
      && AllSealed(crc32, LogOf(image.ps))
    }

    ghost function Written(): seq<seq<Byte>>
      reads image
    {
      LogOf(image.ps)
    }

    constructor (image: Image, page_size: nat, mode: Mode, cs: seq<Compressor>, crc32: seq<Byte> -> Word, ino: nat)
      requires image.Valid() && Registry(cs, page_size) && page_size > 0 && image.erase_block_size < 0x8000_0000
      requires image.Usable(RAW_INODE_SIZE + MIN_DATA_LEN) && image.Usable(RAW_DIRENT_SIZE + MAX_NAME_LEN)
      requires image.Usable(RAW_INODE_SIZE + MAX_SYMLINK_LEN) && AllSealed(crc32, LogOf(image.ps))
      ensures Valid() && this.image == image && this.ino == ino && version == 0
    {
      this.image, this.page_size, this.mode, this.cs, this.crc32 := image, page_size, mode, cs, crc32;
      this.ino, this.version := ino, 0;
    }

    /** The first bytes of a node, with their checksum. */
    method Header(nodetype: nat, totlen: Word) returns (head: seq<Byte>, hdrCrc: Word)
      requires nodetype < 0x10000
      ensures head == NodeHead(nodetype, totlen, hdrCrc)
      ensures hdrCrc == crc32(NodeHead(nodetype, totlen, 0)[..UNKNOWN_NODE_SIZE - 4])
    {
      hdrCrc := crc32(NodeHead(nodetype, totlen, 0)[..UNKNOWN_NODE_SIZE - 4]);
      head := NodeHead(nodetype, totlen, hdrCrc);
    }

    /** write_dirent */
    method WriteDirent(pino: Word, child: Word, mctime: Word, dtype: Byte, name: seq<Byte>) returns (ghost b: seq<Byte>)
      requires Valid() && |name| <= MAX_NAME_LEN && version < MAX_U32
      modifies this`version, image
      ensures Valid() && version == old(version) + 1
      ensures Written() == old(Written()) + [b] && IsDirent(b, Dirent(pino, old(version), child, mctime, dtype, name))
    {
      hide Image.Valid, LogOf, IsNode, Registry, NodeHead, DirentFields, DirentSealed, AllSealed;
      var d := Dirent(pino, version, child, mctime, dtype, name);
      version := version + 1;
      var head, hdrCrc := Header(NODETYPE_DIRENT, RAW_DIRENT_SIZE + |name|);
      var nodeCrc := crc32((head + DirentFields(d, 0, 0))[..RAW_DIRENT_SIZE - 8]);
      var nameCrc := crc32(name);
      var rd := head + DirentFields(d, nodeCrc, nameCrc);
      DirentBack(d, hdrCrc, nodeCrc, nameCrc);
      DirentSeal(crc32, d, hdrCrc, nodeCrc, nameCrc);
      SealedSnoc(crc32, Written(), NodeBytes(NODETYPE_DIRENT, hdrCrc, DirentBody(d, nodeCrc, nameCrc)));
      Regroup(head, DirentFields(d, nodeCrc, nameCrc), name);
      b := rd + name;
      assert b == NodeBytes(NODETYPE_DIRENT, hdrCrc, DirentBody(d, nodeCrc, nameCrc));
      image.PadBlockIfLessThan(RAW_DIRENT_SIZE + |name|);
      image.WriteNode(rd, name);
    }

    /** An inode node at the place where there is room for it. */
    method WriteInode(i: Inode) returns (ghost b: seq<Byte>)
      requires Valid() && InodeOk(i) && Inside(image.erase_block_size, image.out_ofs, RAW_INODE_SIZE + |i.payload|)
      requires image.add_cleanmarkers ==> image.out_ofs % image.erase_block_size != 0
      modifies image
      ensures Valid() && Written() == old(Written()) + [b] && IsInode(b, i)
    {
      hide Image.Valid, LogOf, IsNode, Registry, NodeHead, InodeFields, InodeSealed, AllSealed;
      var head, hdrCrc := Header(NODETYPE_INODE, RAW_INODE_SIZE + |i.payload|);
      var nodeCrc := crc32((head + InodeFields(i, 0, 0))[..RAW_INODE_SIZE - 8]);
      var dataCrc := crc32(i.payload);
      var ri := head + InodeFields(i, dataCrc, nodeCrc);
      InodeBack(i, hdrCrc, dataCrc, nodeCrc);
      InodeSeal(crc32, i, hdrCrc, dataCrc, nodeCrc);
      SealedSnoc(crc32, Written(), NodeBytes(NODETYPE_INODE, hdrCrc, InodeBody(i, dataCrc, nodeCrc)));
      Regroup(head, InodeFields(i, dataCrc, nodeCrc), i.payload);
      b := ri + i.payload;
      assert b == NodeBytes(NODETYPE_INODE, hdrCrc, InodeBody(i, dataCrc, nodeCrc));
      image.WriteNode(ri, i.payload);
    }

    /** An inode node that is not a file fragment. */
    method PlaceInode(i: Inode) returns (ghost b: seq<Byte>)
      requires Valid() && InodeOk(i) && |i.payload| <= MAX_SYMLINK_LEN
      modifies image
      ensures Valid() && Written() == old(Written()) + [b] && IsInode(b, i)
    {
      hide Image.Valid, LogOf, IsNode, Registry, AllSealed;
      image.PadBlockIfLessThan(RAW_INODE_SIZE + |i.payload|);
      b := WriteInode(i);
    }

    /** One fragment: as much of the page as fits into the rest of the erase block. */
    method WriteFragment(child: Word, ver: Word, attrs: seq<Byte>, offset: Word, tbuf: seq<Byte>)
      returns (dsize: nat, ghost i: Inode, ghost b: seq<Byte>)
      requires Valid() && |attrs| == 24 && 0 < |tbuf| < MAX_U32 && |tbuf| <= page_size
      modifies image
      ensures Valid() && Written() == old(Written()) + [b] && IsInode(b, i)
      ensures 0 < dsize <= |tbuf| && i.ino == child && i.version == ver && i.offset == offset && i.dsize == dsize && i.attrs == attrs
      ensures Unpack(cs, i.compr, i.payload, dsize) == Some(tbuf[..dsize])
    {
      hide Image.Valid, LogOf, IsNode, Registry, AllSealed, Unpack, Chosen, Succeeds;
      image.PadBlockIfLessThan(RAW_INODE_SIZE + MIN_DATA_LEN);
      var space := image.erase_block_size - image.out_ofs % image.erase_block_size - RAW_INODE_SIZE;
      if space > |tbuf| { space := |tbuf|; }
      var compr, csize, wbuf;
      var past: nat := *;
      compr, dsize, csize, wbuf := Jffs2Compress.Compress(cs, mode, tbuf, space, page_size, past);
      var node := Inode(child, ver, attrs, offset, dsize, compr, wbuf);
      i := node;
      b := WriteInode(node);
    }

    /** The inner loop over one page that was read. */
    method WritePage(child: Word, attrs: seq<Byte>, data: seq<Byte>, from: nat, page: seq<Byte>,
                     ghost fs0: seq<Inode>, ghost bs0: seq<seq<Byte>>, ver0: nat)
      returns (ver: nat, ghost fs: seq<Inode>, ghost bs: seq<seq<Byte>>)
      requires Valid() && |attrs| == 24 && |data| < MAX_FILE_SIZE && |page| <= page_size && from + |page| <= |data| && page == data[from..from + |page|]
      requires Tiles(cs, fs0, child, data[..from]) && Holds(bs0, fs0) && SameAttrs(fs0, attrs) && ver0 == |fs0| <= from
      modifies image
      ensures Valid() && Tiles(cs, fs, child, data[..from + |page|]) && Holds(bs, fs) && SameAttrs(fs, attrs)
      ensures ver == |fs| <= from + |page|
      ensures |fs| > |fs0| || page == []
      ensures exists more :: bs == bs0 + more && Written() == old(Written()) + more
    {
      hide Valid, Written, Tiles, Unpack, Holds;
      var tbuf := page;
      var offset := from;
      ver, fs, bs := ver0, fs0, bs0;
      ghost var more: seq<seq<Byte>> := [];
      NothingMore(bs0);
      NothingMore(Written());
      while |tbuf| > 0
        invariant Valid() && offset + |tbuf| == from + |page| && |tbuf| <= |page| && tbuf == data[offset..offset + |tbuf|]
        invariant Tiles(cs, fs, child, data[..offset]) && Holds(bs, fs) && SameAttrs(fs, attrs) && ver == |fs| <= offset
        invariant bs == bs0 + more && Written() == old(Written()) + more
        invariant |fs| >= |fs0| && (|fs| > |fs0| || tbuf == page)
        decreases |tbuf|
      {
        ghost var i, b;
        var dsize;
        dsize, i, b := WriteFragment(child, ver + 1, attrs, offset, tbuf);
        ver := ver + 1;
        TilesSnoc(cs, fs, child, data[..offset], i, tbuf[..dsize]);
        HoldsSnoc(bs, fs, b, i);
        Cutting(data, offset, tbuf, dsize);
        Regroup(bs0, more, [b]);
        Regroup(old(Written()), more, [b]);
        fs, bs, more := fs + [i], bs + [b], more + [b];
        tbuf := tbuf[dsize..];
        offset := offset + dsize;
      }
    }

    /** write_regular_file. The file is read in pages of at most page_size bytes. */
    method WriteRegularFile(pino: Word, mctime: Word, dtype: Byte, name: seq<Byte>, attrs: seq<Byte>, data: seq<Byte>)
      returns (skipped: bool, ghost d: seq<Byte>, ghost fs: seq<Inode>, ghost bs: seq<seq<Byte>>)
      requires Valid() && |name| <= MAX_NAME_LEN && |attrs| == 24 && version < MAX_U32 && ino + 1 < MAX_U32
      modifies this`ino, this`version, image
      ensures Valid() && skipped == (|data| >= MAX_FILE_SIZE)
      ensures skipped ==> Written() == old(Written()) && ino == old(ino) && version == old(version)
      ensures !skipped ==>
                && ino == old(ino) + 1 && version == old(version) + 1
                && IsDirent(d, Dirent(pino, old(version), ino, mctime, dtype, name))
                && fs != [] && Tiles(cs, fs, ino, data) && Holds(bs, fs) && SameAttrs(fs, Sized(attrs, |data|))
                && Written() == old(Written()) + [d] + bs
    {
      hide Valid, Written, Tiles, Unpack, Holds, IsDirent;
      d, fs, bs := [], [], [];
      if |data| >= MAX_FILE_SIZE { return true, d, fs, bs; }
      skipped := false;
      var ri := Sized(attrs, |data|);
      var child := ino + 1;
      ino := ino + 1;
      d := WriteDirent(pino, child, mctime, dtype, name);
      ghost var base := Written();
      FacesPage();
      NothingYet(cs, child);
      NothingMore(base);
      var ver, from := 0, 0;
      while from < |data|
        invariant Valid() && ino == child && version == old(version) + 1 && 0 <= from <= |data|
        invariant Tiles(cs, fs, child, data[..from]) && Holds(bs, fs) && SameAttrs(fs, ri) && 0 <= ver == |fs| <= from
        invariant from > 0 ==> fs != []
        invariant Written() == base + bs
        decreases |data| - from
      {
        var len: nat :| 1 <= len <= page_size && from + len <= |data|;
        ghost var before := bs;
        ver, fs, bs := WritePage(child, ri, data, from, data[from..from + len], fs, bs, ver);
        ghost var more :| bs == before + more && Written() == base + before + more;
        Regroup(base, before, more);
        from := from + len;
        FacesPage();
      }
      assert data[..|data|] == data;
      if ver == 0 {
        var node := Inode(child, 1, ri, 0, 0, COMPR_NONE, []);
        ghost var b := PlaceInode(node);
        UnpackNone(cs, [], 0);
        TilesSnoc(cs, fs, child, data, node, []);
        NothingMore(data);
        HoldsSnoc(bs, fs, b, node);
        NothingMore(base);
        fs, bs := fs + [node], bs + [b];
      }
    }

    /** write_symlink, write_pipe and write_special_file: a directory entry and one inode
        node, with the link's target, nothing, or the device number as data. */
    method WriteOther(pino: Word, mctime: Word, dtype: Byte, name: seq<Byte>, attrs: seq<Byte>, content: seq<Byte>)
      returns (ghost d: seq<Byte>, ghost b: seq<Byte>)
      requires Valid() && |name| <= MAX_NAME_LEN && |attrs| == 24 && version < MAX_U32 && ino + 1 < MAX_U32
      modifies this`ino, this`version, image
      ensures Valid() && ino == old(ino) + 1 && version == old(version) + 1
      ensures IsDirent(d, Dirent(pino, old(version), ino, mctime, dtype, name))
      ensures IsInode(b, Single(ino, attrs, content))
      ensures Written() == old(Written()) + [d] + [b]
    {
      hide Valid, Written, IsDirent;
      var child := ino + 1;
      ino := ino + 1;
      d := WriteDirent(pino, child, mctime, dtype, name);
      var len := |content|;
      if len > MAX_SYMLINK_LEN { len := MAX_SYMLINK_LEN; }
      var ri := if len == 0 then Sized(attrs, 0) else attrs;
      b := PlaceInode(Inode(child, 1, ri, 0, len, COMPR_NONE, content[..len]));
    }

    /** The end of create_target_filesystem: fill the erase block, or the whole image up to
        pad_fs_size. */
    method PadImage(pad_fs_size: int) returns (ghost tail: nat)
      requires Valid() && pad_fs_size >= -1
      modifies image
      ensures Finished(tail) && Written() == old(Written()) && image.out_ofs >= pad_fs_size
      ensures image.fits <==> |image.out| < INT_LIMIT
      ensures pad_fs_size == -1 || (pad_fs_size != 0 && image.add_cleanmarkers) ==> image.out_ofs % image.erase_block_size == 0
      ensures pad_fs_size > 0 && !image.add_cleanmarkers ==>
                image.out_ofs == if old(image.out_ofs) < pad_fs_size then pad_fs_size else old(image.out_ofs)
    {
      hide Image.Valid, Image.Closed, LogOf;
      tail := 0;
      if pad_fs_size == -1 {
        image.PadBlock();
      } else if pad_fs_size != 0 && image.add_cleanmarkers {
        image.PadBlock();
        while image.out_ofs < pad_fs_size
          invariant image.Valid() && LogOf(image.ps) == LogOf(old(image.ps)) && image.out_ofs % image.erase_block_size == 0
          decreases pad_fs_size - image.out_ofs
        {
          image.WriteMarker();
          image.PadBlock();
        }
      } else {
        tail := image.PadWithFf(pad_fs_size);
        image.ClosedOffsets(tail);
        return;
      }
      image.ValidClosed();
      image.ClosedOffsets(0);
    }

    /** One entry, without what is below it: its number is new, and read back from the nodes
        it is what it was. */
    method WriteEntry(e: Entry, parent: Word, ghost s: nat) returns (ghost d: Dirent)
      requires Valid() && |e.name| <= MAX_NAME_LEN && |e.attrs| == 24 && version + 1 < MAX_U32 && ino + 1 < MAX_U32
      requires TopIno(Written(), s) == ino && Bounded(Written(), ino) && parent <= ino
      modifies this`ino, this`version, image
      ensures Valid() && TopIno(Written(), s) == ino && Bounded(Written(), ino)
      ensures version - old(version) == ino - old(ino) == if TooLarge(e) then 0 else 1
      ensures Grown(old(Written()), Written(), parent, old(ino))
      ensures TooLarge(e) ==> Written() == old(Written())
      ensures !TooLarge(e) ==>
                && d.ino == ino && Shows(cs, Written(), e, d) && Children(Written(), ino) == []
                && Children(Written(), parent) == Children(old(Written()), parent) + [d]
    {
      hide Valid, Written, IsDirent, IsInode, Tiles, Holds, TopIno, Children, Fragments, Replay, Numbered, Bounded;
      ghost var b;
      ghost var log := Written();
      match e
      case Regular(name, mctime, attrs, data) =>
        var skipped;
        ghost var fs, bs;
        skipped, b, fs, bs := WriteRegularFile(parent, mctime, DT_REG, name, attrs, data);
        d := Dirent(parent, old(version), ino, mctime, DT_REG, name);
        if !skipped {
          TopDirent(log, b, d, s);
          TopFile(cs, log + [b], bs, fs, ino, data, s);
          HoldsSame(bs, fs);
          TilesNumbered(cs, fs, ino, data);
          EntryAdded(log, b, d, bs, fs, old(ino));
          TilesReplay(cs, fs, ino, data);
        }
      case Other(dtype, name, mctime, attrs, content) =>
        d := WriteSimple(parent, mctime, dtype, name, attrs, content, s);
      case Directory(name, mctime, attrs, files) =>
        d := WriteSimple(parent, mctime, DT_DIR, name, attrs, [], s);
    }

    method WriteSimple(parent: Word, mctime: Word, dtype: Byte, name: seq<Byte>, attrs: seq<Byte>, content: seq<Byte>, ghost s: nat)
      returns (ghost d: Dirent)
      requires Valid() && |name| <= MAX_NAME_LEN && |attrs| == 24 && version + 1 < MAX_U32 && ino + 1 < MAX_U32
      requires TopIno(Written(), s) == ino && Bounded(Written(), ino) && parent <= ino
      modifies this`ino, this`version, image
      ensures Valid() && TopIno(Written(), s) == ino && ino == old(ino) + 1 && version == old(version) + 1
      ensures Bounded(Written(), ino) && Grown(old(Written()), Written(), parent, old(ino))
      ensures d == Dirent(parent, old(version), ino, mctime, dtype, name)
      ensures Fragments(Written(), ino) == [Single(ino, attrs, content)] && Children(Written(), ino) == []
      ensures Children(Written(), parent) == Children(old(Written()), parent) + [d]
    {
      hide Valid, Written, IsDirent, IsInode, TopIno, Children, Fragments, Bounded;
      ghost var log := Written();
      ghost var db, b := WriteOther(parent, mctime, dtype, name, attrs, content);
      d := Dirent(parent, old(version), ino, mctime, dtype, name);
      ghost var f := Single(ino, attrs, content);
      TopDirent(log, db, d, s);
      TopInode(log + [db], b, f, s);
      EntryAdded(log, db, d, [b], [f], old(ino));
    }

    /** The first loop over a directory. */
    method WriteEntries(dir: seq<Entry>, parent: Word, ghost s: nat) returns (inos: seq<Word>, ghost ds: seq<Dirent>)
      requires Valid() && Proper(dir) && version + |dir| < MAX_U32 && ino + |dir| < MAX_U32
      requires TopIno(Written(), s) == ino && Bounded(Written(), ino) && parent <= ino
      modifies this`ino, this`version, image
      ensures Valid() && TopIno(Written(), s) == ino && Bounded(Written(), ino)
      ensures old(ino) <= ino <= old(ino) + |dir| && version - old(version) == ino - old(ino)
      ensures Grown(old(Written()), Written(), parent, old(ino))
      ensures Children(Written(), parent) == Children(old(Written()), parent) + ds
      ensures Lists(cs, Written(), dir, |dir|, ds, old(ino), ino) && Fresh(dir, |dir|, ds, inos, old(ino), ino)
      ensures forall i :: 0 <= i < |ds| ==> Children(Written(), ds[i].ino) == []
    {
      hide Valid, Written, TopIno, Children, Fragments, Shows, Bounded, Lists, Fresh, Grown;
      inos, ds := [], [];
      NoneYet(cs, Written(), dir, parent, ino);
      NothingMore(Children(Written(), parent));
      for k := 0 to |dir|
        invariant Valid() && TopIno(Written(), s) == ino && Bounded(Written(), ino)
        invariant old(ino) <= ino <= old(ino) + k && version - old(version) == ino - old(ino)
        invariant Grown(old(Written()), Written(), parent, old(ino))
        invariant Children(Written(), parent) == Children(old(Written()), parent) + ds
        invariant Lists(cs, Written(), dir, k, ds, old(ino), ino) && Fresh(dir, k, ds, inos, old(ino), ino)
        invariant forall i :: 0 <= i < |ds| ==> Children(Written(), ds[i].ino) == []
      {
        ghost var log, n := Written(), ino;
        ghost var d := WriteEntry(dir[k], parent, s);
        GrownTwice(old(Written()), log, Written(), parent, old(ino), parent, n);
        GrownLists(cs, log, Written(), dir, k, ds, inos, parent, old(ino), n, ino);
        if TooLarge(dir[k]) {
          FreshSkip(dir, k, ds, inos, old(ino), ino, ino);
          ListsSkip(cs, Written(), dir, k, ds, old(ino), ino);
        } else {
          FreshSnoc(dir, k, ds, inos, d, old(ino), n);
          ListsSnoc(cs, Written(), dir, k, ds, d, old(ino), ino);
          Regroup(Children(old(Written()), parent), ds, [d]);
          ds := ds + [d];
        }
        inos := inos + [ino];
      }
    }

    /** recursive_populate_directory: first the entries of a directory, then the directories
        among them. Read back from the nodes, the directory has got exactly these entries,
        with exactly what hangs below them. */
    method Populate(dir: seq<Entry>, parent: Word, ghost s: nat) returns (ghost ds: seq<Dirent>)
      requires Valid() && Proper(dir) && version + Count(dir) < MAX_U32 && ino + Count(dir) < MAX_U32
      requires TopIno(Written(), s) == ino && Bounded(Written(), ino) && parent <= ino
      modifies this`ino, this`version, image
      ensures Valid() && TopIno(Written(), s) == ino && Bounded(Written(), ino)
      ensures old(ino) <= ino <= old(ino) + Count(dir) && version - old(version) == ino - old(ino)
      ensures Grown(old(Written()), Written(), parent, old(ino))
      ensures Children(Written(), parent) == Children(old(Written()), parent) + ds
      ensures Tree(cs, Written(), dir, ds, old(ino), ino)
      decreases dir
    {
      hide Valid, Written, TopIno, Children, Fragments, Shows, Bounded, Lists, Grown, Fresh;
      CountAtLeast(dir, |dir|);
      var inos;
      inos, ds := WriteEntries(dir, parent, s);
      ghost var flat, n := Written(), ino;
      ProgressStart(cs, flat, dir, ds, inos, old(ino), n);
      for k := 0 to |dir|
        invariant Valid() && TopIno(Written(), s) == ino && Bounded(Written(), ino) && n <= ino
        invariant ino <= old(ino) + |dir| + (Count(dir[..k]) - k) && version - old(version) == ino - old(ino)
        invariant Progress(cs, flat, Written(), dir, inos, k, old(ino), n, ino)
      {
        CountPrefix(dir, k);
        CountRest(dir, k + 1);
        ghost var log, m := Written(), ino;
        if dir[k].Directory? && dir[k].files != [] {
          FreshBelow(dir, ds, inos, k, old(ino), n);
          ghost var below := Populate(dir[k].files, inos[k], s);
          ProgressStep(cs, flat, log, Written(), dir, ds, inos, k, below, old(ino), n, m, ino);
        } else {
          ProgressSkip(cs, flat, log, dir, inos, k, old(ino), n, m);
        }
      }
      assert dir[..|dir|] == dir;
      TreeBuilt(cs, flat, Written(), dir, ds, inos, old(ino), n, ino);
      ProgressGrown(cs, old(Written()), flat, Written(), dir, inos, parent, old(ino), n, ino);
    }

    /** create_target_filesystem: the root directory has inode number 1. Its entries, and what
        hangs below them, are exactly the tree that was to be written. */
    method CreateTargetFilesystem(root: seq<Entry>, pad_fs_size: int, ghost s: nat) returns (ghost ds: seq<Dirent>, ghost tail: nat)
      requires Valid() && Proper(root) && version + Count(root) < MAX_U32 && ino + 1 + Count(root) < MAX_U32
      requires pad_fs_size >= -1
      requires var first := if ino == 0 then 1 else ino; TopIno(Written(), s) == first && Bounded(Written(), first)
      modifies this`ino, this`version, image
      ensures Finished(tail) && TopIno(Written(), s) == ino && image.out_ofs >= pad_fs_size
      ensures Children(Written(), 1) == Children(old(Written()), 1) + ds && Tree(cs, Written(), root, ds, 1, ino)
      ensures image.fits <==> |image.out| < INT_LIMIT
    {
      hide Valid, Finished, Written, TopIno, Children, Fragments, Bounded, Tree;
      if ino == 0 { ino := 1; }
      ghost var first := ino;
      ds := Populate(root, 1, s);
      TreeSame(cs, Written(), Written(), root, ds, first, ino, 1, ino);
      tail := PadImage(pad_fs_size);
    }

    /** An incremental run reads the image that is already there: it finds exactly the nodes
        that were written, and goes on with the inode numbers where the first run stopped. */
    method ScanImage(h: Rescan.Host, ghost tail: nat, ghost s: nat) returns (found: nat, visited: seq<nat>)
      requires Finished(tail) && TopIno(Written(), s) == ino
      requires MAX_U32 <= h.width && h.base + image.erase_block_size + 16 <= h.width
      ensures Laid(image.ps, image.erase_block_size, image.MarkerPiece()) && image.out == Print(image.ps) + Ff(tail)
      ensures visited == Found(image.ps) && Rescan.NodesAt(image.out, visited) == Written()
      ensures ino == if found > s then found else s
    {
      hide Found, Highest, Registry, TopIno, Print, Laid;
      found, visited := Rescan.Rescan(image.out, image.erase_block_size, h, 0, image.ps, tail, image.MarkerPiece());
      Rescan.NodesFound(image.ps, tail, |image.ps|);
      assert image.ps[..|image.ps|] == image.ps;
      HighestIsTop(image.ps, 0);
      TopFrom(Log(image.ps), s);
    }

    lemma FacesPage()
      requires Valid()
      ensures page_size > 0
    {
    }
  }
}
