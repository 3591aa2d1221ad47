/** Update images: a pack header, eight inventory slots, and behind them the partitions, each
    with a header of its own, filled up to multiples of 512 bytes. */
module Mup {
  import opened Buffers
  import opened Integers
  import opened LittleEndian
  import Sha1

  const HEADER_SIZE := 512
  const INVENTORY_SIZE := 64
  const MAX_INVENTORY_COUNT := 8
  const FILENAME_LENGTH := 32
  const INFO_LENGTH := 128
  const UPDATER_VERSION: Word := 100
  const INVENTORY_HEADER := 32   // sizeof(tSWInventory)
  const UNITY_HEADER := 216      // sizeof(tSWUnity)
  const PACK_HEADER := 160       // sizeof(tSWPack)
  const CHILDREN := 1024         // HEADER_SIZE + MAX_INVENTORY_COUNT * INVENTORY_SIZE
  const PAD := 0x200

  /** MARUSWUP */
  const MAGIC: seq<Byte> := [0x4D, 0x41, 0x52, 0x55, 0x53, 0x57, 0x55, 0x50]

  type Crc = seq<Byte> -> Word

  datatype Partition = Partition(flashOffset: Word, name: seq<Byte>, data: seq<Byte>)

  /** What createImage can handle: it keeps the length of a child in an int32_t. */
  predicate PartitionOk(p: Partition) {
    |p.name| < FILENAME_LENGTH && 0 !in p.name && ChildSize(p) < INT_LIMIT
  }

  // ---------- headers

  function Words(ws: seq<Word>): (b: seq<Byte>)
    ensures |b| == 4 * |ws|
  {
    if ws == [] then [] else Words(ws[..|ws| - 1]) + Le32(ws[|ws| - 1])
  }

  lemma {:induction false} WordsThere(buf: seq<Byte>, pos: nat, ws: seq<Word>, i: nat)
    requires pos + 4 * |ws| <= |buf| && buf[pos..pos + 4 * |ws|] == Words(ws) && i < |ws|
    ensures Get32(buf, pos + 4 * i) == ws[i]
    decreases |ws|
  {
    hide Get32, Le32, Words;
    var n := |ws| - 1;
    WordsFront(ws);
    if i == n {
      PartOf(buf, pos, Words(ws), 4 * n, 4 * n + 4);
      Le32Back(buf, pos + 4 * n, ws[n]);
    } else {
      PartOf(buf, pos, Words(ws), 0, 4 * n);
      WordsThere(buf, pos, ws[..n], i);
    }
  }

  lemma WordsLast(ws: seq<Word>)
    requires ws != []
    ensures Words(ws) == Words(ws[..|ws| - 1]) + Le32(ws[|ws| - 1])
  {
    hide Le32;
  }

  lemma WordsFront(ws: seq<Word>)
    requires ws != []
    ensures var n := |ws| - 1; Words(ws)[0..4 * n] == Words(ws[..n]) && Words(ws)[4 * n..4 * n + 4] == Le32(ws[n])
  {
    hide Le32, Words;
    var n := |ws| - 1;
    WordsLast(ws);
    SplitAt(Words(ws), Words(ws[..n]), Le32(ws[n]), 4 * n);
    assert |Words(ws)| == 4 * n + 4;
  }

  lemma SplitAt(s: seq<Byte>, a: seq<Byte>, b: seq<Byte>, m: nat)
    requires s == a + b && |a| == m
    ensures s[0..m] == a && s[m..|s|] == b
  {
  }

  datatype InventoryHeader = InventoryHeader(
    magic: seq<Byte>, version: Word, imageOffset: Word, imageSize: Word, flashOffset: Word, swVersion: Word, imageNumber: Word)

  function InventoryBytes(h: InventoryHeader): (b: seq<Byte>)
    requires |h.magic| == 8
    ensures |b| == INVENTORY_HEADER
  {
    h.magic + Words([h.version, h.imageOffset, h.imageSize, h.flashOffset, h.swVersion, h.imageNumber])
  }

  function InventoryOf(b: seq<Byte>, pos: nat): InventoryHeader
    requires pos + INVENTORY_HEADER <= |b|
  {
    InventoryHeader(b[pos..pos + 8], Get32(b, pos + 8), Get32(b, pos + 12), Get32(b, pos + 16), Get32(b, pos + 20),
                    Get32(b, pos + 24), Get32(b, pos + 28))
  }

  lemma InventoryBack(b: seq<Byte>, pos: nat, h: InventoryHeader)
    requires |h.magic| == 8 && pos + INVENTORY_HEADER <= |b| && b[pos..pos + INVENTORY_HEADER] == InventoryBytes(h)
    ensures InventoryOf(b, pos) == h
  {
    hide Get32, Words;
    var ws := [h.version, h.imageOffset, h.imageSize, h.flashOffset, h.swVersion, h.imageNumber];
    var s := InventoryBytes(h);
    PartOf(b, pos, s, 0, 8);
    PartOf(b, pos, s, 8, 32);
    assert s[0..8] == h.magic && s[8..32] == Words(ws);
    forall i: nat | i < 6 ensures Get32(b, pos + 8 + 4 * i) == ws[i] { WordsThere(b, pos + 8, ws, i); }
    assert Get32(b, pos + 8 + 4 * 0) == ws[0] && Get32(b, pos + 8 + 4 * 1) == ws[1] && Get32(b, pos + 8 + 4 * 2) == ws[2];
    assert Get32(b, pos + 8 + 4 * 3) == ws[3] && Get32(b, pos + 8 + 4 * 4) == ws[4] && Get32(b, pos + 8 + 4 * 5) == ws[5];
  }

  datatype UnityHeader = UnityHeader(
    magic: seq<Byte>, version: Word, productCode: Word, swVersion: Word, date: Word, flashOffset: Word, dataLength: Word,
    hash: seq<Byte>, crc: Word, fileName: seq<Byte>, updateInfo: seq<Byte>)

  predicate UnitySized(h: UnityHeader) {
    |h.magic| == 8 && |h.hash| == 20 && |h.fileName| == FILENAME_LENGTH && |h.updateInfo| == INFO_LENGTH
  }

  function UnityBytes(h: UnityHeader): (b: seq<Byte>)
    requires UnitySized(h)
    ensures |b| == UNITY_HEADER
  {
    h.magic + Words([h.version, h.productCode, h.swVersion, h.date, h.flashOffset, h.dataLength])
    + h.hash + Le32(h.crc) + h.fileName + h.updateInfo
  }

  function UnityOf(b: seq<Byte>, pos: nat): UnityHeader
    requires pos + UNITY_HEADER <= |b|
  {
    UnityHeader(b[pos..pos + 8], Get32(b, pos + 8), Get32(b, pos + 12), Get32(b, pos + 16), Get32(b, pos + 20), Get32(b, pos + 24),
                Get32(b, pos + 28), b[pos + 32..pos + 52], Get32(b, pos + 52), b[pos + 56..pos + 88], b[pos + 88..pos + 216])
  }

  lemma UnityBack(b: seq<Byte>, pos: nat, h: UnityHeader)
    requires UnitySized(h) && pos + UNITY_HEADER <= |b| && b[pos..pos + UNITY_HEADER] == UnityBytes(h)
    ensures UnityOf(b, pos) == h
  {
    hide Get32, Words, Le32;
    var ws := [h.version, h.productCode, h.swVersion, h.date, h.flashOffset, h.dataLength];
    var s := UnityBytes(h);
    UnitySlices(h);
    PartOf(b, pos, s, 0, 8);
    PartOf(b, pos, s, 8, 32);
    PartOf(b, pos, s, 32, 52);
    PartOf(b, pos, s, 52, 56);
    PartOf(b, pos, s, 56, 88);
    PartOf(b, pos, s, 88, 216);
    Le32Back(b, pos + 52, h.crc);
    forall i: nat | i < 6 ensures Get32(b, pos + 8 + 4 * i) == ws[i] { WordsThere(b, pos + 8, ws, i); }
    assert Get32(b, pos + 8 + 4 * 0) == ws[0] && Get32(b, pos + 8 + 4 * 1) == ws[1] && Get32(b, pos + 8 + 4 * 2) == ws[2];
    assert Get32(b, pos + 8 + 4 * 3) == ws[3] && Get32(b, pos + 8 + 4 * 4) == ws[4] && Get32(b, pos + 8 + 4 * 5) == ws[5];
  }

  lemma UnitySlices(h: UnityHeader)
    requires UnitySized(h)
    ensures var s := UnityBytes(h);
            && s[0..8] == h.magic && s[32..52] == h.hash && s[52..56] == Le32(h.crc) && s[56..88] == h.fileName
            && s[8..32] == Words([h.version, h.productCode, h.swVersion, h.date, h.flashOffset, h.dataLength])
            && s[88..216] == h.updateInfo
  {
    hide Words, Le32;
  }

  // ---------- what an inventory is

  /** A slot and the bytes it stands for. */
  datatype Inventory = Inventory(header: InventoryHeader, child: seq<Byte>)

  function Rounded(n: nat): (r: nat)
    ensures n <= r < n + PAD && r % PAD == 0
  {
    if n % PAD != 0 then n + (PAD - n % PAD) else n
  }

  function ChildSize(p: Partition): (r: nat)
    ensures HEADER_SIZE + |p.data| <= r && r % PAD == 0
  {
    Rounded(HEADER_SIZE + |p.data|)
  }

  lemma SumOfPads(a: nat, b: nat)
    requires a % PAD == 0 && b % PAD == 0
    ensures (a + b) % PAD == 0
  {
  }

  /** A name in its field ends with a zero byte. */
  predicate NameIs(field: seq<Byte>, name: seq<Byte>) {
    |field| == FILENAME_LENGTH && |name| < FILENAME_LENGTH && field[..|name|] == name && field[|name|] == 0
  }

  ghost predicate UnityIs(tr: Sha1.Transform, crc: Crc, u: UnityHeader, p: Partition) {
    && PartitionOk(p) && u.magic == MAGIC && u.version == UPDATER_VERSION && u.flashOffset == p.flashOffset
    && u.dataLength == |p.data| && u.hash == Sha1.Hash(tr, p.data) && u.crc == crc(p.data) && NameIs(u.fileName, p.name)
  }

  ghost predicate ChildIs(tr: Sha1.Transform, crc: Crc, child: seq<Byte>, p: Partition) {
    && PartitionOk(p) && |child| == ChildSize(p)
    && UnityIs(tr, crc, UnityOf(child, 0), p) && child[HEADER_SIZE..HEADER_SIZE + |p.data|] == p.data
  }

  ghost predicate InventoryIs(tr: Sha1.Transform, crc: Crc, inv: Inventory, p: Partition, imageOffset: nat) {
    && inv.header.magic == MAGIC && inv.header.version == UPDATER_VERSION && inv.header.imageOffset == imageOffset
    && inv.header.imageSize == |inv.child| && inv.header.flashOffset == p.flashOffset
    && ChildIs(tr, crc, inv.child, p)
  }

  /** Where the child of slot i begins, behind the slots. */
  function OffsetOf(ps: seq<Partition>, i: nat): (r: nat)
    requires i <= |ps|
    ensures r % PAD == 0
  {
    if i == 0 then 0
    else
      SumOfPads(OffsetOf(ps, i - 1), ChildSize(ps[i - 1]));
      OffsetOf(ps, i - 1) + ChildSize(ps[i - 1])
  }

  /** The size of the image of these partitions. */
  function ImageSize(ps: seq<Partition>): nat {
    CHILDREN + OffsetOf(ps, |ps|)
  }

  /** The number of bytes for which createImage asks. */
  function DataLength(ps: seq<Partition>): Word {
    ImageSize(ps) % WORD
  }

  lemma ZeroOffset(ps: seq<Partition>)
    ensures OffsetOf(ps, 0) == 0
  {
  }

  lemma NextOffset(ps: seq<Partition>, i: nat)
    requires i < |ps|
    ensures OffsetOf(ps, i + 1) == OffsetOf(ps, i) + ChildSize(ps[i])
  {
    hide ChildSize;
  }

  lemma {:induction false} OffsetUp(ps: seq<Partition>, i: nat, j: nat)
    requires i < j <= |ps|
    ensures OffsetOf(ps, i) + ChildSize(ps[i]) <= OffsetOf(ps, j)
  {
    if i + 1 < j { OffsetUp(ps, i, j - 1); }
  }

  lemma {:induction false} OffsetSnoc(ps: seq<Partition>, p: Partition, i: nat)
    requires i <= |ps|
    ensures OffsetOf(ps + [p], i) == OffsetOf(ps, i)
  {
    if i > 0 { OffsetSnoc(ps, p, i - 1); }
  }

  ghost predicate Inventories(tr: Sha1.Transform, crc: Crc, invs: seq<Inventory>, ps: seq<Partition>) {
    && |invs| == |ps| <= MAX_INVENTORY_COUNT
    && forall i :: 0 <= i < |ps| ==> InventoryIs(tr, crc, invs[i], ps[i], OffsetOf(ps, i))
  }

  lemma InventoriesSnoc(tr: Sha1.Transform, crc: Crc, invs: seq<Inventory>, ps: seq<Partition>, inv: Inventory, p: Partition)
    requires Inventories(tr, crc, invs, ps) && |ps| < MAX_INVENTORY_COUNT && InventoryIs(tr, crc, inv, p, OffsetOf(ps, |ps|))
    ensures Inventories(tr, crc, invs + [inv], ps + [p])
    ensures OffsetOf(ps + [p], |ps| + 1) == OffsetOf(ps, |ps|) + ChildSize(p)
  {
    hide InventoryIs, ChildSize;
    forall i | 0 <= i <= |ps| ensures OffsetOf(ps + [p], i) == OffsetOf(ps, i) { OffsetSnoc(ps, p, i); }
  }

  // ---------- the image

  function SlotAt(img: seq<Byte>, k: nat): InventoryHeader
    requires |img| >= CHILDREN && k < MAX_INVENTORY_COUNT
  {
    InventoryOf(img, HEADER_SIZE + k * INVENTORY_SIZE)
  }

  /** A slot without the magic value ends the list. */
  predicate SlotValid(img: seq<Byte>, k: nat)
    requires |img| >= CHILDREN && k < MAX_INVENTORY_COUNT
  {
    SlotAt(img, k).magic == MAGIC && SlotAt(img, k).version == UPDATER_VERSION
  }

  /** The length of the data, which parsing a slot reads from the child that the slot names. */
  predicate ReadsInside(img: seq<Byte>, k: nat)
    requires |img| >= CHILDREN && k < MAX_INVENTORY_COUNT
  {
    SlotAt(img, k).imageSize < UNITY_HEADER || CHILDREN + SlotAt(img, k).imageOffset + 32 <= |img|
  }

  ghost predicate SlotHolds(img: seq<Byte>, k: nat, h: InventoryHeader)
    requires |img| >= CHILDREN && k < MAX_INVENTORY_COUNT
  {
    var at := HEADER_SIZE + k * INVENTORY_SIZE;
    |h.magic| == 8 && img[at..at + INVENTORY_HEADER] == InventoryBytes(h)
  }

  ghost predicate ChildHolds(img: seq<Byte>, offset: nat, child: seq<Byte>) {
    CHILDREN + offset + |child| <= |img| && img[CHILDREN + offset..CHILDREN + offset + |child|] == child
  }

  /** The first n slots and children are in place. */
  ghost predicate Placed(img: seq<Byte>, invs: seq<Inventory>, ps: seq<Partition>, n: nat)
    requires |img| >= CHILDREN && n <= |invs| == |ps| <= MAX_INVENTORY_COUNT
  {
    forall i :: 0 <= i < n ==> SlotHolds(img, i, invs[i].header) && ChildHolds(img, OffsetOf(ps, i), invs[i].child)
  }

  /** The children lie one behind the other, at multiples of 512, up to the end. */
  ghost predicate IsImage(img: seq<Byte>, invs: seq<Inventory>, ps: seq<Partition>) {
    && |invs| == |ps| <= MAX_INVENTORY_COUNT && |img| == CHILDREN + OffsetOf(ps, |ps|)
    && Placed(img, invs, ps, |ps|)
    && (|ps| < MAX_INVENTORY_COUNT ==> !SlotValid(img, |ps|))
  }

  /** Bytes outside [at, at + n) are the same. */
  ghost predicate SameOutside(a: seq<Byte>, b: seq<Byte>, at: nat, n: nat) {
    |a| == |b| && forall i :: 0 <= i < |a| && !(at <= i < at + n) ==> a[i] == b[i]
  }

  lemma SameSlice(a: seq<Byte>, b: seq<Byte>, at: nat, n: nat, lo: nat, hi: nat)
    requires SameOutside(a, b, at, n) && lo <= hi <= |a| && (hi <= at || at + n <= lo)
    ensures a[lo..hi] == b[lo..hi]
  {
  }

  lemma ChildBounds(ps: seq<Partition>, i: nat, j: nat)
    requires i < j <= |ps|
    ensures OffsetOf(ps, i) + ChildSize(ps[i]) <= OffsetOf(ps, j) <= OffsetOf(ps, |ps|)
  {
    OffsetUp(ps, i, j);
    if j < |ps| { OffsetUp(ps, j, |ps|); }
  }

  lemma SlotStays(a: seq<Byte>, b: seq<Byte>, i: nat, h: InventoryHeader, at: nat, n: nat)
    requires |a| >= CHILDREN && i < MAX_INVENTORY_COUNT && SlotHolds(a, i, h) && SameOutside(a, b, at, n)
    requires var slot := HEADER_SIZE + i * INVENTORY_SIZE; slot + INVENTORY_HEADER <= at || at + n <= slot
    ensures SlotHolds(b, i, h)
  {
    hide InventoryBytes;
    var slot := HEADER_SIZE + i * INVENTORY_SIZE;
    SameSlice(a, b, at, n, slot, slot + INVENTORY_HEADER);
  }

  lemma ChildStays(a: seq<Byte>, b: seq<Byte>, offset: nat, child: seq<Byte>, at: nat, n: nat)
    requires ChildHolds(a, offset, child) && SameOutside(a, b, at, n)
    requires CHILDREN + offset + |child| <= at || at + n <= CHILDREN + offset
    ensures ChildHolds(b, offset, child)
  {
    SameSlice(a, b, at, n, CHILDREN + offset, CHILDREN + offset + |child|);
  }

  /** Slot n is written; those before it, and all children, stay. */
  lemma SlotKeeps(a: seq<Byte>, b: seq<Byte>, invs: seq<Inventory>, ps: seq<Partition>, n: nat)
    requires |a| >= CHILDREN && n < |invs| == |ps| <= MAX_INVENTORY_COUNT && Placed(a, invs, ps, n)
    requires |b| == |a| && SameOutside(a, b, HEADER_SIZE + n * INVENTORY_SIZE, INVENTORY_HEADER)
    ensures Placed(b, invs, ps, n)
    ensures |ps| < MAX_INVENTORY_COUNT ==> SlotAt(b, |ps|) == SlotAt(a, |ps|)
  {
    hide SlotHolds, ChildHolds, ChildSize, SlotAt;
    var at := HEADER_SIZE + n * INVENTORY_SIZE;
    forall i | 0 <= i < n
      ensures SlotHolds(b, i, invs[i].header) && ChildHolds(b, OffsetOf(ps, i), invs[i].child)
    {
      SlotStays(a, b, i, invs[i].header, at, INVENTORY_HEADER);
      ChildStays(a, b, OffsetOf(ps, i), invs[i].child, at, INVENTORY_HEADER);
    }
    if |ps| < MAX_INVENTORY_COUNT { SlotSame(a, b, |ps|, at, INVENTORY_HEADER); }
  }

  lemma SlotSame(a: seq<Byte>, b: seq<Byte>, k: nat, at: nat, n: nat)
    requires |a| >= CHILDREN && k < MAX_INVENTORY_COUNT && SameOutside(a, b, at, n)
    requires var slot := HEADER_SIZE + k * INVENTORY_SIZE; slot + INVENTORY_HEADER <= at || at + n <= slot
    ensures SlotAt(b, k) == SlotAt(a, k)
  {
    var slot := HEADER_SIZE + k * INVENTORY_SIZE;
    SameSlice(a, b, at, n, slot, slot + 8);
    assert forall i: nat :: slot <= i < slot + INVENTORY_HEADER ==> a[i] == b[i];
  }

  /** Child n is written; those before it, and all slots, stay. */
  lemma ChildKeeps(a: seq<Byte>, b: seq<Byte>, invs: seq<Inventory>, ps: seq<Partition>, n: nat)
    requires |a| >= CHILDREN && n < |invs| == |ps| <= MAX_INVENTORY_COUNT && Placed(a, invs, ps, n)
    requires SlotHolds(a, n, invs[n].header) && forall i :: 0 <= i < |ps| ==> |invs[i].child| == ChildSize(ps[i])
    requires |b| == |a| && SameOutside(a, b, CHILDREN + OffsetOf(ps, n), |invs[n].child|) && ChildHolds(b, OffsetOf(ps, n), invs[n].child)
    ensures Placed(b, invs, ps, n + 1)
    ensures |ps| < MAX_INVENTORY_COUNT ==> SlotAt(b, |ps|) == SlotAt(a, |ps|)
  {
    hide SlotHolds, ChildHolds, ChildSize, SlotAt, SameOutside;
    var at, size := CHILDREN + OffsetOf(ps, n), |invs[n].child|;
    forall i | 0 <= i < n + 1
      ensures SlotHolds(b, i, invs[i].header) && ChildHolds(b, OffsetOf(ps, i), invs[i].child)
    {
      SlotStays(a, b, i, invs[i].header, at, size);
      if i < n {
        OffsetUp(ps, i, n);
        ChildStays(a, b, OffsetOf(ps, i), invs[i].child, at, size);
      }
    }
    if |ps| < MAX_INVENTORY_COUNT { SlotSame(a, b, |ps|, at, size); }
  }

  // ---------- creating

  method CopyTo(mem: array<Byte>, at: nat, s: seq<Byte>)
    requires at + |s| <= mem.Length
    modifies mem
    ensures mem[at..at + |s|] == s && SameOutside(old(mem[..]), mem[..], at, |s|)
  {
    forall i | 0 <= i < |s| { mem[at + i] := s[i]; }
  }

  class SwPack {
    const transform: Sha1.Transform
    const crc32: Crc
    const date: Word
    const productCode: Word
    var mInventory: seq<Inventory>
    var mCurInventoryOffset: nat
    ghost var parts: seq<Partition>

    ghost predicate Valid()
      reads this
    {
      Inventories(transform, crc32, mInventory, parts) && mCurInventoryOffset == OffsetOf(parts, |parts|)
    }

    constructor (transform: Sha1.Transform, crc32: Crc, date: Word, productCode: Word)
      ensures Valid() && parts == [] && this.transform == transform && this.crc32 == crc32
    {
      this.transform, this.crc32, this.date, this.productCode := transform, crc32, date, productCode;
      mInventory, mCurInventoryOffset, parts := [], 0, [];
    }

    method CalcSh1(data: seq<Byte>) returns (hash: seq<Byte>)
      requires |data| < INT_LIMIT
      ensures hash == Sha1.Hash(transform, data) && |hash| == 20
    {
      hide Sha1.Hash, Sha1.Fold, Sha1.Padded;
      var context := new Sha1.Context(transform);
      context.Update(data);
      assert [] + data == data;
      hash := context.Final();
      HashSize(transform, data);
    }

    /** SwUnity::setPartition and getData: a header in 512 bytes, and the data. */
    method SetUnity(p: Partition) returns (mData: seq<Byte>)
      requires PartitionOk(p)
      ensures |mData| == HEADER_SIZE + |p.data| && UnityIs(transform, crc32, UnityOf(mData, 0), p)
      ensures mData[HEADER_SIZE..] == p.data
    {
      hide Sha1.Hash, UnityBytes, UnityOf;
      var field := new Byte[FILENAME_LENGTH];
      CopyTo(field, 0, p.name);
      field[|p.name|] := 0;
      var info := new Byte[INFO_LENGTH];
      var hash := CalcSh1(p.data);
      var h := UnityHeader(MAGIC, UPDATER_VERSION, productCode, 101, date, p.flashOffset, |p.data|, hash, crc32(p.data), field[..], info[..]);
      var buf := new Byte[HEADER_SIZE + |p.data|];
      CopyTo(buf, 0, UnityBytes(h));
      ghost var before := buf[..];
      CopyTo(buf, HEADER_SIZE, p.data);
      SameSlice(before, buf[..], HEADER_SIZE, |p.data|, 0, UNITY_HEADER);
      mData := buf[..];
      UnityBack(mData, 0, h);
    }

    /** SwInventory::setPartition: the child is filled up to a multiple of 512 bytes. */
    method SetPartition(p: Partition, imageOffset: Word) returns (inv: Inventory)
      requires PartitionOk(p)
      ensures InventoryIs(transform, crc32, inv, p, imageOffset)
    {
      hide UnityIs, UnityOf;
      var h := InventoryHeader(MAGIC, UPDATER_VERSION, imageOffset, |p.data| + HEADER_SIZE, p.flashOffset, 0, 0);
      var unity := SetUnity(p);
      var mChildDataLength := |unity|;
      if mChildDataLength % PAD != 0 {
        mChildDataLength := mChildDataLength + (PAD - mChildDataLength % PAD);
        h := h.(imageSize := mChildDataLength);
      }
      var child := new Byte[mChildDataLength];
      CopyTo(child, 0, unity);
      assert child[..][0..|unity|] == unity;
      UnitySame(child[..], unity);
      PartOf(child[..], 0, unity, HEADER_SIZE, |unity|);
      inv := Inventory(h, child[..]);
    }

    /** SwPack::appendPartition */
    method AppendPartition(p: Partition)
      requires Valid() && PartitionOk(p) && |parts| < MAX_INVENTORY_COUNT
      requires ImageSize(parts) + ChildSize(p) < WORD
      modifies this
      ensures Valid() && parts == old(parts) + [p]
    {
      hide InventoryIs, ChildSize, Inventories;
      var inv := SetPartition(p, mCurInventoryOffset);
      InventoriesSnoc(transform, crc32, mInventory, parts, inv, p);
      InventorySize(transform, crc32, inv, p, mCurInventoryOffset);
      mInventory := mInventory + [inv];
      mCurInventoryOffset := mCurInventoryOffset + |inv.child|;
      parts := parts + [p];
    }

    /** SwPack::createImage, in memory whose bytes are arbitrary; only in the first slot that
        is not used they must not be the magic value by chance. That slot stays as it was. */
    method CreateImage(mData: array<Byte>) returns (dataLength: int)
      requires Valid() && mData.Length == ImageSize(parts) < WORD
      requires |parts| < MAX_INVENTORY_COUNT ==> !SlotValid(mData[..], |parts|)
      modifies mData
      ensures IsImage(mData[..], mInventory, parts) && dataLength == Int32(|mData[..]|)
      ensures |parts| < MAX_INVENTORY_COUNT ==> SlotAt(mData[..], |parts|) == old(SlotAt(mData[..], |parts|))
    {
      hide ChildSize, OffsetOf, Placed, SlotAt, Inventories, SameOutside, Int32;
      PackFits();
      var mDataLength := AddLengths();
      ghost var was := mData[..];
      var header := PackHeader();
      CopyTo(mData, 0, header);
      if |parts| < MAX_INVENTORY_COUNT { SlotSame(was, mData[..], |parts|, 0, PACK_HEADER); }
      NonePlaced(mData[..], mInventory, parts);
      for i := 0 to |mInventory|
        invariant Placed(mData[..], mInventory, parts, i)
        invariant |parts| < MAX_INVENTORY_COUNT ==> SlotAt(mData[..], |parts|) == SlotAt(was, |parts|)
      {
        PlaceInventory(mData, i);
      }
      dataLength := Int32(mDataLength);
    }

    /** The first loop of createImage: a sum in 32 bits. */
    method AddLengths() returns (mDataLength: Word)
      requires Valid()
      ensures mDataLength == DataLength(parts)
    {
      hide ChildSize, OffsetOf, Inventories;
      PackFits();
      mDataLength := CHILDREN;
      ZeroOffset(parts);
      for i := 0 to |mInventory|
        invariant mDataLength == (CHILDREN + OffsetOf(parts, i)) % WORD
      {
        InventoryFacts(transform, crc32, mInventory, parts, i);
        NextOffset(parts, i);
        AddWord(CHILDREN + OffsetOf(parts, i), ChildSize(parts[i]));
        mDataLength := (mDataLength + |mInventory[i].child|) % WORD;
      }
    }

    /** The slot and the child of one inventory. */
    method PlaceInventory(mData: array<Byte>, i: nat)
      requires Valid() && i < |mInventory| && mData.Length == ImageSize(parts)
      requires Placed(mData[..], mInventory, parts, i)
      modifies mData
      ensures Placed(mData[..], mInventory, parts, i + 1)
      ensures |parts| < MAX_INVENTORY_COUNT ==> SlotAt(mData[..], |parts|) == old(SlotAt(mData[..], |parts|))
    {
      hide InventoryBytes, ChildSize, OffsetOf, Placed, SlotAt, Inventories, SameOutside;
      ghost var a := mData[..];
      PackFits();
      InventoryFacts(transform, crc32, mInventory, parts, i);
      var inv := mInventory[i];
      CopyTo(mData, HEADER_SIZE + i * INVENTORY_SIZE, InventoryBytes(inv.header));
      SlotKeeps(a, mData[..], mInventory, parts, i);
      ghost var b := mData[..];
      assert SlotHolds(b, i, inv.header);
      CopyTo(mData, inv.header.imageOffset + CHILDREN, inv.child);
      assert ChildHolds(mData[..], OffsetOf(parts, i), inv.child);
      ChildKeeps(b, mData[..], mInventory, parts, i);
    }

    /** The bytes of tSWPack; only their number matters here. */
    method PackHeader() returns (h: seq<Byte>)
      ensures |h| == PACK_HEADER && h[..8] == MAGIC
    {
      var info := new Byte[INFO_LENGTH];
      h := MAGIC + Words([UPDATER_VERSION, productCode, 101, date, 0, 0]) + info[..];
    }

    lemma PackFits()
      requires Valid()
      ensures |mInventory| == |parts| <= MAX_INVENTORY_COUNT
    {
    }
  }

  lemma HashSize(tr: Sha1.Transform, data: seq<Byte>)
    requires |data| < INT_LIMIT
    ensures |Sha1.Hash(tr, data)| == 20
  {
    hide Sha1.Fold, Sha1.Padded;
  }

  lemma UnitySame(b: seq<Byte>, u: seq<Byte>)
    requires HEADER_SIZE <= |u| <= |b| && b[0..|u|] == u
    ensures UnityOf(b, 0) == UnityOf(u, 0)
  {
    forall i: nat | i < |u| ensures b[i] == u[i] { assert b[0..|u|][i] == u[i]; }
    assert b[0..8] == u[0..8] && b[32..52] == u[32..52] && b[56..88] == u[56..88] && b[88..216] == u[88..216];
  }

  lemma InventorySize(tr: Sha1.Transform, crc: Crc, inv: Inventory, p: Partition, imageOffset: nat)
    requires InventoryIs(tr, crc, inv, p, imageOffset)
    ensures |inv.child| == ChildSize(p)
  {
  }

  lemma NonePlaced(img: seq<Byte>, invs: seq<Inventory>, ps: seq<Partition>)
    requires |img| >= CHILDREN && |invs| == |ps| <= MAX_INVENTORY_COUNT
    ensures Placed(img, invs, ps, 0)
  {
  }

  lemma InventoryFacts(tr: Sha1.Transform, crc: Crc, invs: seq<Inventory>, ps: seq<Partition>, i: nat)
    requires Inventories(tr, crc, invs, ps) && i < |ps|
    ensures |invs[i].header.magic| == 8 && invs[i].header.imageOffset == OffsetOf(ps, i)
    ensures OffsetOf(ps, i) + |invs[i].child| <= OffsetOf(ps, |ps|)
    ensures forall j :: 0 <= j < |ps| ==> |invs[j].child| == ChildSize(ps[j])
  {
    hide UnityIs;
    assert InventoryIs(tr, crc, invs[i], ps[i], OffsetOf(ps, i));
    ChildBounds(ps, i, i + 1);
    forall j | 0 <= j < |ps| ensures |invs[j].child| == ChildSize(ps[j]) {
      assert InventoryIs(tr, crc, invs[j], ps[j], OffsetOf(ps, j));
    }
  }

  // ---------- numbers that do not fit

  /** The length of a child, which createImage keeps in an int32_t, is not negative if and only
      if the child has fewer than 2^31 bytes, that is at most 2^31 - 1024 bytes of data. */
  lemma ChildLengthIff(p: Partition)
    requires |p.data| < WORD - CHILDREN
    ensures Int32(ChildSize(p)) >= 0 <==> |p.data| <= INT_LIMIT - CHILDREN
    ensures ChildSize(p) < INT_LIMIT <==> |p.data| <= INT_LIMIT - CHILDREN
    ensures |p.data| == INT_LIMIT - HEADER_SIZE ==> Int32(ChildSize(p)) == -INT_LIMIT
  {
    Int32Below(ChildSize(p));
  }

  /** The child i lies, where createImage puts it, inside the memory that it has asked for. */
  predicate ChildFits(ps: seq<Partition>, i: nat)
    requires i < |ps|
  {
    CHILDREN + OffsetOf(ps, i) % WORD + ChildSize(ps[i]) <= DataLength(ps)
  }

  /** The first child that ends beyond 2^32 bytes. */
  lemma {:induction false} ChildBeyond(ps: seq<Partition>, n: nat) returns (i: nat)
    requires n <= |ps| && CHILDREN + OffsetOf(ps, n) >= WORD
    ensures i < n && CHILDREN + OffsetOf(ps, i) < WORD <= CHILDREN + OffsetOf(ps, i + 1)
  {
    hide ChildSize;
    if CHILDREN + OffsetOf(ps, n - 1) < WORD { i := n - 1; } else { i := ChildBeyond(ps, n - 1); }
  }

  /** The slots and the children fit into the memory that createImage asks for if and only if
      the image has fewer than 2^32 bytes; otherwise its length wraps, and some child is
      written behind that memory. */
  lemma CreateIff(ps: seq<Partition>)
    ensures DataLength(ps) >= CHILDREN && (forall i :: 0 <= i < |ps| ==> ChildFits(ps, i)) <==> ImageSize(ps) < WORD
  {
    hide ChildSize;
    if ImageSize(ps) < WORD {
      forall i | 0 <= i < |ps| ensures ChildFits(ps, i) { ChildBounds(ps, i, i + 1); }
    } else {
      var i := ChildBeyond(ps, |ps|);
      NextOffset(ps, i);
      assert !ChildFits(ps, i);
    }
  }

  // ---------- parsing

  /** What parsing finds of one partition. */
  datatype Parsed = Parsed(flashOffset: Word, name: seq<Byte>, data: seq<Byte>, hash: seq<Byte>, crc: Word)

  /** A name goes up to its zero byte, or fills the field. */
  function NameOf(field: seq<Byte>): seq<Byte> {
    if field == [] || field[0] == 0 then [] else [field[0]] + NameOf(field[1..])
  }

  lemma {:induction false} NameBack(field: seq<Byte>, name: seq<Byte>)
    requires |name| < |field| && field[..|name|] == name && field[|name|] == 0 && 0 !in name
    ensures NameOf(field) == name
  {
    if name != [] {
      assert field[0] == name[0] && field[1..][..|name| - 1] == name[1..];
      NameBack(field[1..], name[1..]);
    }
  }

  /** The slot k and what it leads to; None if that lies outside the image. */
  function ParsedAt(img: seq<Byte>, k: nat): Option<Parsed>
    requires |img| >= CHILDREN && k < MAX_INVENTORY_COUNT
  {
    var h := InventoryOf(img, HEADER_SIZE + k * INVENTORY_SIZE);
    var at: nat := CHILDREN + h.imageOffset;
    if h.imageSize < UNITY_HEADER || at + UNITY_HEADER > |img| then None
    else
      var u := UnityOf(img, at);
      var room := (h.imageSize - HEADER_SIZE) % WORD;
      var len: nat := if room > u.dataLength then u.dataLength else room;
      if at + HEADER_SIZE + len > |img| then None
      else Some(Parsed(h.flashOffset, NameOf(u.fileName), img[at + HEADER_SIZE..at + HEADER_SIZE + len], u.hash, u.crc))
  }

  /** The slots from k on, up to the first that is not valid. */
  function ParsedFrom(img: seq<Byte>, k: nat): seq<Option<Parsed>>
    requires |img| >= CHILDREN && k <= MAX_INVENTORY_COUNT
    decreases MAX_INVENTORY_COUNT - k
  {
    if k == MAX_INVENTORY_COUNT || !SlotValid(img, k) then [] else [ParsedAt(img, k)] + ParsedFrom(img, k + 1)
  }

  /** SwPack::parse: a slot is followed to its child before it is tested, the one that ends
      the list too. */
  method Parse(img: seq<Byte>) returns (mInventory: seq<Option<Parsed>>, ghost inside: bool)
    requires |img| >= CHILDREN
    ensures mInventory == ParsedFrom(img, 0)
    ensures inside <==> forall k :: 0 <= k <= |mInventory| && k < MAX_INVENTORY_COUNT ==> ReadsInside(img, k)
  {
    hide ParsedAt, SlotValid, ReadsInside;
    mInventory, inside := [], true;
    var mInventoryCount := 0;
    while mInventoryCount < MAX_INVENTORY_COUNT
      invariant 0 <= mInventoryCount == |mInventory| <= MAX_INVENTORY_COUNT
      invariant ParsedFrom(img, 0) == mInventory + ParsedFrom(img, mInventoryCount)
      invariant inside <==> forall k :: 0 <= k < mInventoryCount ==> ReadsInside(img, k)
    {
      var entry := ParsedAt(img, mInventoryCount);
      inside := inside && ReadsInside(img, mInventoryCount);
      if !SlotValid(img, mInventoryCount) {
        break;
      }
      Regroup(mInventory, [entry], ParsedFrom(img, mInventoryCount + 1));
      mInventory := mInventory + [entry];
      mInventoryCount := mInventoryCount + 1;
    }
    NothingMore(mInventory);
  }

  ghost predicate Verifies(tr: Sha1.Transform, crc: Crc, x: Parsed) {
    |x.data| < INT_LIMIT && x.hash == Sha1.Hash(tr, x.data) && x.crc == crc(x.data)
  }

  /** What parsing finds of partition p. */
  ghost predicate Recovered(tr: Sha1.Transform, crc: Crc, o: Option<Parsed>, p: Partition) {
    && o.Some? && o.value.flashOffset == p.flashOffset && o.value.name == p.name && o.value.data == p.data
    && Verifies(tr, crc, o.value)
  }

  lemma ChildRecovered(tr: Sha1.Transform, crc: Crc, img: seq<Byte>, k: nat, inv: Inventory, p: Partition, offset: nat)
    requires |img| >= CHILDREN && k < MAX_INVENTORY_COUNT
    requires InventoryIs(tr, crc, inv, p, offset) && SlotHolds(img, k, inv.header) && ChildHolds(img, offset, inv.child)
    ensures SlotValid(img, k) && Recovered(tr, crc, ParsedAt(img, k), p)
  {
    hide Sha1.Hash, UnityOf, InventoryOf, InventoryBytes, ChildSize;
    var h, at := inv.header, CHILDREN + offset;
    InventoryBack(img, HEADER_SIZE + k * INVENTORY_SIZE, h);
    PartOf(img, at, inv.child, 0, UNITY_HEADER);
    UnityInside(img, at, inv.child);
    var u := UnityOf(inv.child, 0);
    NameBack(u.fileName, p.name);
    PartOf(img, at, inv.child, HEADER_SIZE, HEADER_SIZE + |p.data|);
  }

  lemma UnityInside(b: seq<Byte>, at: nat, s: seq<Byte>)
    requires UNITY_HEADER <= |s| && at + |s| <= |b| && b[at..at + |s|] == s
    ensures UnityOf(b, at) == UnityOf(s, 0)
  {
    forall i: nat | i < |s| ensures b[at + i] == s[i] { assert b[at..at + |s|][i] == s[i]; }
    PartOf(b, at, s, 0, 8);
    PartOf(b, at, s, 32, 52);
    PartOf(b, at, s, 56, 88);
    PartOf(b, at, s, 88, 216);
  }

  ghost predicate AllRecovered(tr: Sha1.Transform, crc: Crc, os: seq<Option<Parsed>>, ps: seq<Partition>, k: nat) {
    k <= |ps| && |os| == |ps| - k && forall i :: 0 <= i < |os| ==> Recovered(tr, crc, os[i], ps[k + i])
  }

  lemma AllRecoveredCons(tr: Sha1.Transform, crc: Crc, o: Option<Parsed>, os: seq<Option<Parsed>>, ps: seq<Partition>, k: nat)
    requires AllRecovered(tr, crc, os, ps, k + 1) && Recovered(tr, crc, o, ps[k])
    ensures AllRecovered(tr, crc, [o] + os, ps, k)
  {
    hide Recovered;
    forall i | 0 <= i < |[o] + os|
      ensures Recovered(tr, crc, ([o] + os)[i], ps[k + i])
    {
      if i > 0 { assert ([o] + os)[i] == os[i - 1] && k + i == k + 1 + (i - 1); }
    }
  }

  lemma ImageAt(tr: Sha1.Transform, crc: Crc, img: seq<Byte>, invs: seq<Inventory>, ps: seq<Partition>, k: nat)
    requires Inventories(tr, crc, invs, ps) && IsImage(img, invs, ps)
    ensures |img| >= CHILDREN
    ensures k < |ps| ==> InventoryIs(tr, crc, invs[k], ps[k], OffsetOf(ps, k)) && SlotHolds(img, k, invs[k].header)
    ensures k < |ps| ==> ChildHolds(img, OffsetOf(ps, k), invs[k].child)
    ensures k == |ps| < MAX_INVENTORY_COUNT ==> !SlotValid(img, k)
  {
    hide InventoryIs, SlotHolds, ChildHolds, SlotValid;
  }

  /** From an image that was created, parsing recovers exactly the partitions, in order, and
      all of them verify. */
  lemma {:induction false} ImageRecovered(tr: Sha1.Transform, crc: Crc, img: seq<Byte>, invs: seq<Inventory>, ps: seq<Partition>, k: nat)
    requires Inventories(tr, crc, invs, ps) && IsImage(img, invs, ps) && k <= |ps|
    ensures |img| >= CHILDREN && AllRecovered(tr, crc, ParsedFrom(img, k), ps, k)
    decreases |ps| - k
  {
    hide InventoryIs, SlotHolds, ChildHolds, SlotValid, ParsedAt, Recovered, IsImage;
    ImageAt(tr, crc, img, invs, ps, k);
    if k < |ps| {
      ChildRecovered(tr, crc, img, k, invs[k], ps[k], OffsetOf(ps, k));
      ImageRecovered(tr, crc, img, invs, ps, k + 1);
      AllRecoveredCons(tr, crc, ParsedAt(img, k), ParsedFrom(img, k + 1), ps, k);
    }
  }

  lemma ChildReads(tr: Sha1.Transform, crc: Crc, img: seq<Byte>, k: nat, inv: Inventory, p: Partition, offset: nat)
    requires |img| >= CHILDREN && k < MAX_INVENTORY_COUNT
    requires InventoryIs(tr, crc, inv, p, offset) && SlotHolds(img, k, inv.header) && ChildHolds(img, offset, inv.child)
    ensures ReadsInside(img, k)
  {
    hide UnityIs, InventoryOf, InventoryBytes, ChildSize;
    InventoryBack(img, HEADER_SIZE + k * INVENTORY_SIZE, inv.header);
  }

  /** Parsing an image that was created stays inside it if and only if all eight slots are used,
      or the one behind the last names a child that is too short to be read, or lies inside. */
  lemma ImageReads(tr: Sha1.Transform, crc: Crc, img: seq<Byte>, invs: seq<Inventory>, ps: seq<Partition>)
    requires Inventories(tr, crc, invs, ps) && IsImage(img, invs, ps)
    ensures |img| >= CHILDREN && |ps| <= MAX_INVENTORY_COUNT
    ensures (forall k :: 0 <= k <= |ps| && k < MAX_INVENTORY_COUNT ==> ReadsInside(img, k)) <==>
            |ps| == MAX_INVENTORY_COUNT || ReadsInside(img, |ps|)
  {
    hide InventoryIs, SlotHolds, ChildHolds, SlotValid, ReadsInside, IsImage;
    ImageAt(tr, crc, img, invs, ps, 0);
    forall k | 0 <= k < |ps| ensures ReadsInside(img, k) {
      ImageAt(tr, crc, img, invs, ps, k);
      ChildReads(tr, crc, img, k, invs[k], ps[k], OffsetOf(ps, k));
    }
  }

  /** SwPack::verify */
  method Verify(pack: SwPack, parsed: seq<Parsed>) returns (rtv: bool)
    requires forall i :: 0 <= i < |parsed| ==> |parsed[i].data| < INT_LIMIT
    ensures rtv <==> forall i :: 0 <= i < |parsed| ==> Verifies(pack.transform, pack.crc32, parsed[i])
  {
    hide Sha1.Hash;
    rtv := true;
    for i := 0 to |parsed|
      invariant rtv <==> forall j :: 0 <= j < i ==> Verifies(pack.transform, pack.crc32, parsed[j])
    {
      var hash := pack.CalcSh1(parsed[i].data);
      if hash != parsed[i].hash || pack.crc32(parsed[i].data) != parsed[i].crc {
        rtv := false;
      }
    }
  }

  /** Partitions that are appended to a new pack, written as an image and parsed come back as
      they were, and verify; nothing outside the image is read if and only if that holds for
      the first slot that is not used, whose bytes are what was in memory. */
  method RoundTrip(transform: Sha1.Transform, crc32: Crc, date: Word, productCode: Word, ps: seq<Partition>, mData: array<Byte>)
    returns (parsed: seq<Parsed>, rtv: bool, ghost inside: bool)
    requires |ps| <= MAX_INVENTORY_COUNT && forall i :: 0 <= i < |ps| ==> PartitionOk(ps[i])
    requires mData.Length == ImageSize(ps) < WORD
    requires |ps| < MAX_INVENTORY_COUNT ==> !SlotValid(mData[..], |ps|)
    modifies mData
    ensures rtv && |parsed| == |ps|
    ensures inside <==> |ps| == MAX_INVENTORY_COUNT || ReadsInside(old(mData[..]), |ps|)
    ensures forall i :: 0 <= i < |ps| ==>
              parsed[i].flashOffset == ps[i].flashOffset && parsed[i].name == ps[i].name && parsed[i].data == ps[i].data
  {
    hide Sha1.Hash, IsImage, Inventories, SlotAt, SlotValid, ReadsInside, ParsedFrom, PartitionOk, ChildSize;
    var pack := new SwPack(transform, crc32, date, productCode);
    assert ps[..0] == [];
    for i := 0 to |ps|
      invariant fresh(pack) && pack.Valid() && pack.parts == ps[..i] && pack.transform == transform && pack.crc32 == crc32
      invariant mData[..] == old(mData[..])
    {
      OffsetFront(ps, i);
      pack.AppendPartition(ps[i]);
    }
    assert ps[..|ps|] == ps;
    ghost var was := mData[..];
    var dataLength := pack.CreateImage(mData);
    if |ps| < MAX_INVENTORY_COUNT { ReadsSame(was, mData[..], |ps|); }
    parsed, rtv, inside := ReadBack(pack, ps, mData[..]);
  }

  lemma ReadsSame(a: seq<Byte>, b: seq<Byte>, k: nat)
    requires |a| == |b| >= CHILDREN && k < MAX_INVENTORY_COUNT && SlotAt(a, k) == SlotAt(b, k)
    ensures ReadsInside(a, k) == ReadsInside(b, k)
  {
    hide SlotAt;
  }

  /** An image is parsed and verified. */
  method ReadBack(pack: SwPack, ghost ps: seq<Partition>, img: seq<Byte>) returns (parsed: seq<Parsed>, rtv: bool, ghost inside: bool)
    requires Inventories(pack.transform, pack.crc32, pack.mInventory, ps) && IsImage(img, pack.mInventory, ps)
    ensures |img| >= CHILDREN && rtv && |parsed| == |ps| <= MAX_INVENTORY_COUNT
    ensures forall i :: 0 <= i < |ps| ==>
              parsed[i].flashOffset == ps[i].flashOffset && parsed[i].name == ps[i].name && parsed[i].data == ps[i].data
    ensures inside <==> |ps| == MAX_INVENTORY_COUNT || ReadsInside(img, |ps|)
  {
    hide Sha1.Hash, IsImage, Inventories, SlotAt, SlotValid, ReadsInside, ParsedFrom;
    ImageRecovered(pack.transform, pack.crc32, img, pack.mInventory, ps, 0);
    ImageReads(pack.transform, pack.crc32, img, pack.mInventory, ps);
    var found;
    found, inside := Parse(img);
    parsed := [];
    for i := 0 to |found|
      invariant |parsed| == i && forall j :: 0 <= j < i ==> found[j] == Some(parsed[j])
    {
      assert Recovered(pack.transform, pack.crc32, found[i], ps[0 + i]);
      parsed := parsed + [found[i].value];
    }
    forall i | 0 <= i < |parsed|
      ensures Recovered(pack.transform, pack.crc32, Some(parsed[i]), ps[i])
    {
      assert Recovered(pack.transform, pack.crc32, found[i], ps[0 + i]);
    }
    rtv := Verify(pack, parsed);
  }

  lemma {:induction false} OffsetFront(ps: seq<Partition>, i: nat)
    requires i < |ps|
    ensures OffsetOf(ps[..i], i) + ChildSize(ps[i]) <= OffsetOf(ps, |ps|)
  {
    hide ChildSize;
    OffsetTake(ps, i, i);
    ChildBounds(ps, i, i + 1);
  }

  lemma {:induction false} OffsetTake(ps: seq<Partition>, n: nat, i: nat)
    requires i <= n <= |ps|
    ensures OffsetOf(ps[..n], i) == OffsetOf(ps, i)
  {
    if i > 0 { OffsetTake(ps, n, i - 1); }
  }
}
