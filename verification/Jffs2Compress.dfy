/** Choosing a compressor: the modes of the compressor registry. */
module Jffs2Compress {
  import opened Buffers
  import Jffs2Format

  const COMPR_NONE := 0

  datatype Mode = ModeNone | ModePriority | ModeSize

  /** A failed attempt reports the output length it leaves behind. */
  datatype Outcome = Fail(cdatalen: nat) | Done(datalen: nat, cdata: seq<Byte>)

  /** The last argument of compress stands for whatever a codec has kept from earlier calls. */
  datatype Compressor = Compressor(
    compr: Byte,
    enabled: bool,
    compress: (seq<Byte>, nat, nat) -> Outcome,
    decompress: (seq<Byte>, nat) -> Option<seq<Byte>>)

  /** What the image writer asks for: some of a page, with room for all of it, or at least
      for MIN_DATA_LEN bytes. */
  predicate Askable(data: seq<Byte>, room: nat, page: nat) {
    && 0 < room <= |data| <= page
    && (room == |data| || room >= Jffs2Format.MIN_DATA_LEN)
  }

  /** What the codecs promise: a failure leaves the output length as it was, a success packs
      some of the data, not none, and can be unpacked. */
  ghost predicate Lawful(c: Compressor, page: nat) {
    && c.compr != COMPR_NONE
    && forall data: seq<Byte>, room: nat, past: nat :: Askable(data, room, page) ==> Honours(c, data, room, past)
  }

  ghost predicate Honours(c: Compressor, data: seq<Byte>, room: nat, past: nat) {
    match c.compress(data, room, past)
    case Fail(n) => n == room
    case Done(n, cdata) => 0 < n <= |data| && 0 < |cdata| <= room && c.decompress(cdata, n) == Some(data[..n])
  }

  /** The registry's list, highest priority first. */
  ghost predicate Registry(cs: seq<Compressor>, page: nat) {
    && (forall i :: 0 <= i < |cs| ==> Lawful(cs[i], page))
    && (forall i, j :: 0 <= i < j < |cs| ==> cs[i].compr != cs[j].compr)
  }

  /** Unpacking by the compressor's number. */
  function Unpack(cs: seq<Compressor>, compr: Byte, cdata: seq<Byte>, dsize: nat): Option<seq<Byte>> {
    if compr == COMPR_NONE then Some(cdata)
    else if cs == [] then None
    else if cs[0].compr == compr then cs[0].decompress(cdata, dsize)
    else Unpack(cs[1..], compr, cdata, dsize)
  }

  lemma {:induction false} UnpackIs(cs: seq<Compressor>, page: nat, i: nat, cdata: seq<Byte>, dsize: nat)
    requires Registry(cs, page) && i < |cs|
    ensures Unpack(cs, cs[i].compr, cdata, dsize) == cs[i].decompress(cdata, dsize)
  {
    assert Lawful(cs[i], page);
    if i > 0 {
      assert cs[0].compr != cs[i].compr;
      RegistryRest(cs, page);
      UnpackIs(cs[1..], page, i - 1, cdata, dsize);
    }
  }

  lemma RegistryRest(cs: seq<Compressor>, page: nat)
    requires Registry(cs, page) && cs != []
    ensures Registry(cs[1..], page)
  {
    forall i | 0 <= i < |cs[1..]| ensures Lawful(cs[1..][i], page) { assert cs[1..][i] == cs[i + 1]; }
  }

  predicate Succeeds(c: Compressor, data: seq<Byte>, room: nat, past: nat) {
    c.enabled && c.compress(data, room, past).Done?
  }

  /** jffs2_compress. The result unpacks to the part of the data that it stands for. Priority
      mode uses the first compressor of the list that succeeds, size mode one with the
      shortest output; without any, the data is stored as far as there is room. */
  method Compress(cs: seq<Compressor>, mode: Mode, data: seq<Byte>, space: nat, page: nat, past: nat)
    returns (ret: Byte, datalen: nat, cdatalen: nat, cdata: seq<Byte>)
    requires Registry(cs, page) && Askable(data, space, page)
    ensures 0 < datalen <= |data| && cdatalen == |cdata| <= space
    ensures Unpack(cs, ret, cdata, datalen) == Some(data[..datalen])
    ensures ret == COMPR_NONE <==> mode == ModeNone || forall i :: 0 <= i < |cs| ==> !Succeeds(cs[i], data, space, past)
    ensures ret == COMPR_NONE ==> cdata == data[..space]
    ensures ret != COMPR_NONE ==>
              exists k :: 0 <= k < |cs| && Chosen(cs, mode, data, space, past, k) && ret == cs[k].compr
                          && cs[k].compress(data, space, past) == Done(datalen, cdata)
  {
    hide Honours, Unpack;
    ret, datalen, cdatalen, cdata := COMPR_NONE, |data|, space, [];
    match mode {
      case ModeNone =>
      case ModePriority => ret, datalen, cdatalen, cdata := FirstFit(cs, data, space, page, past);
      case ModeSize => ret, datalen, cdatalen, cdata := BestFit(cs, data, space, page, past);
    }
    if ret == COMPR_NONE {
      cdata := data[..cdatalen];
      datalen := cdatalen;
      UnpackNone(cs, cdata, datalen);
    }
  }

  lemma UnpackNone(cs: seq<Compressor>, cdata: seq<Byte>, n: nat)
    ensures Unpack(cs, COMPR_NONE, cdata, n) == Some(cdata)
  {
  }

  ghost predicate Chosen(cs: seq<Compressor>, mode: Mode, data: seq<Byte>, space: nat, past: nat, k: nat)
    requires k < |cs|
  {
    && Succeeds(cs[k], data, space, past)
    && (mode == ModePriority ==> forall i :: 0 <= i < k ==> !Succeeds(cs[i], data, space, past))
    && (mode == ModeSize ==> forall i :: 0 <= i < |cs| && Succeeds(cs[i], data, space, past) ==>
                               |cs[k].compress(data, space, past).cdata| <= |cs[i].compress(data, space, past).cdata|)
  }

  /** What a success gives. */
  lemma Packed(cs: seq<Compressor>, page: nat, k: nat, data: seq<Byte>, space: nat, past: nat)
    requires Registry(cs, page) && k < |cs| && Askable(data, space, page) && cs[k].compress(data, space, past).Done?
    ensures var d := cs[k].compress(data, space, past);
            && 0 < d.datalen <= |data| && 0 < |d.cdata| <= space && cs[k].compr != COMPR_NONE
            && Unpack(cs, cs[k].compr, d.cdata, d.datalen) == Some(data[..d.datalen])
  {
    hide Unpack;
    assert Lawful(cs[k], page);
    assert Honours(cs[k], data, space, past);
    var d := cs[k].compress(data, space, past);
    UnpackIs(cs, page, k, d.cdata, d.datalen);
  }

  lemma Left(cs: seq<Compressor>, page: nat, k: nat, data: seq<Byte>, space: nat, past: nat)
    requires Registry(cs, page) && k < |cs| && Askable(data, space, page)
    ensures cs[k].compress(data, space, past).Fail? ==> cs[k].compress(data, space, past).cdatalen == space
  {
    assert Lawful(cs[k], page);
    assert Honours(cs[k], data, space, past);
  }

  /** The loop of the priority mode. */
  method FirstFit(cs: seq<Compressor>, data: seq<Byte>, space: nat, page: nat, past: nat)
    returns (ret: Byte, datalen: nat, cdatalen: nat, cdata: seq<Byte>)
    requires Registry(cs, page) && Askable(data, space, page)
    ensures cdatalen <= space && (ret == COMPR_NONE ==> cdatalen == space)
    ensures ret == COMPR_NONE <==> forall i :: 0 <= i < |cs| ==> !Succeeds(cs[i], data, space, past)
    ensures ret != COMPR_NONE ==>
              && 0 < datalen <= |data| && cdatalen == |cdata| && Unpack(cs, ret, cdata, datalen) == Some(data[..datalen])
              && exists k :: 0 <= k < |cs| && Chosen(cs, ModePriority, data, space, past, k) && ret == cs[k].compr
                             && cs[k].compress(data, space, past) == Done(datalen, cdata)
  {
    hide Unpack, Lawful;
    ret, datalen, cdatalen, cdata := COMPR_NONE, |data|, space, [];
    for k := 0 to |cs|
      invariant cdatalen == space
      invariant forall i :: 0 <= i < k ==> !Succeeds(cs[i], data, space, past)
    {
      if !cs[k].enabled { continue; }
      Left(cs, page, k, data, space, past);
      match cs[k].compress(data, space, past)
      case Fail(left) =>
        cdatalen := left;
      case Done(n, c) =>
        Packed(cs, page, k, data, space, past);
        assert Chosen(cs, ModePriority, data, space, past, k);
        return cs[k].compr, n, |c|, c;
    }
  }

  /** The loop of the size mode. */
  method BestFit(cs: seq<Compressor>, data: seq<Byte>, space: nat, page: nat, past: nat)
    returns (ret: Byte, datalen: nat, cdatalen: nat, cdata: seq<Byte>)
    requires Registry(cs, page) && Askable(data, space, page)
    ensures cdatalen <= space && (ret == COMPR_NONE ==> cdatalen == space)
    ensures ret == COMPR_NONE <==> forall i :: 0 <= i < |cs| ==> !Succeeds(cs[i], data, space, past)
    ensures ret != COMPR_NONE ==>
              && 0 < datalen <= |data| && cdatalen == |cdata| && Unpack(cs, ret, cdata, datalen) == Some(data[..datalen])
              && exists k :: 0 <= k < |cs| && Chosen(cs, ModeSize, data, space, past, k) && ret == cs[k].compr
                             && cs[k].compress(data, space, past) == Done(datalen, cdata)
  {
    hide Unpack, Lawful;
    ret, datalen, cdatalen, cdata := COMPR_NONE, |data|, space, [];
    var best: nat, best_slen: nat, best_dlen: nat := 0, 0, 0;
    for k := 0 to |cs|
      invariant best_dlen == 0 ==> cdatalen == space && forall i :: 0 <= i < k ==> !Succeeds(cs[i], data, space, past)
      invariant best_dlen > 0 ==> 0 <= best < k && Succeeds(cs[best], data, space, past) && cs[best].compress(data, space, past) == Done(best_slen, cdata)
                                  && best_dlen == |cdata|
      invariant best_dlen > 0 ==> forall i :: 0 <= i < k && Succeeds(cs[i], data, space, past) ==>
                                    best_dlen <= |cs[i].compress(data, space, past).cdata|
    {
      if !cs[k].enabled { continue; }
      Left(cs, page, k, data, space, past);
      match cs[k].compress(data, space, past)
      case Fail(left) =>
        cdatalen := left;
      case Done(n, c) =>
        Packed(cs, page, k, data, space, past);
        cdatalen := |c|;
        if best_dlen == 0 || best_dlen > |c| {
          best, best_slen, best_dlen, cdata := k, n, |c|, c;
        }
    }
    if best_dlen > 0 {
      Packed(cs, page, best, data, space, past);
      assert Chosen(cs, ModeSize, data, space, past, best);
      cdatalen, datalen, ret := best_dlen, best_slen, cs[best].compr;
    }
  }
}
