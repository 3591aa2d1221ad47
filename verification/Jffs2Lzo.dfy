/** LZO as one of the registry's compressors. The stream depends on the matches that the
    dictionary reports, so a codec is any function whose values are possible outcomes. */
module Jffs2Lzo {
  import opened Buffers
  import opened Jffs2Compress
  import opened LzoDecode
  import opened LzoCompressor
  import Interface = LzoInterface
  import Parser = LzoParser

  const COMPR_LZO: Byte := 7

  ghost predicate CompressOutcome(data: seq<Byte>, room: nat, o: Outcome) {
    match o
    case Fail(n) => n == room
    case Done(n, cdata) => n == |data| && |cdata| <= room && forall cap | cap >= |data| :: Decode(cdata, cap) == Some(data)
  }

  /** jffs2_lzo_compress */
  method Compress(data: array<Byte>, room: nat, f: Finder, cfg: Settings) returns (o: Outcome)
    requires Honest(f, data[..])
    modifies data
    ensures data[..] == old(data[..]) && CompressOutcome(data[..], room, o)
    ensures room >= 2 * data.Length + 3 ==> o.Done?
  {
    hide Honest, Decode;
    var output := new Byte[room];
    var ret, dstLen;
    ghost var stream;
    ret, dstLen, stream := Interface.Compress(data, output, f, cfg);
    if ret != Interface.OK { return Fail(dstLen); }
    o := Done(data.Length, output[..dstLen]);
  }

  /** jffs2_lzo_decompress: it succeeds exactly with what the stream decodes to. */
  method Decompress(cdata: seq<Byte>, dsize: nat, inBase: nat, outBase: nat) returns (o: Option<seq<Byte>>)
    ensures o == Decode(cdata, dsize)
  {
    hide Decode;
    var page := new Byte[dsize];
    var ret, n := Parser.Decompress(cdata, page, dsize, inBase, outBase);
    o := if ret == Interface.OK then Some(page[..n]) else None;
  }

  lemma NotEmpty(cdata: seq<Byte>, cap: nat)
    requires Decode(cdata, cap).Some?
    ensures cdata != []
  {
  }

  /** The coder keeps the contract of the registry. */
  lemma LzoLawful(compress: (seq<Byte>, nat, nat) -> Outcome, page: nat)
    requires forall data: seq<Byte>, room: nat, past: nat :: data != [] ==> CompressOutcome(data, room, compress(data, room, past))
    ensures Lawful(Compressor(COMPR_LZO, true, compress, Decode), page)
  {
    hide Decode;
    var c := Compressor(COMPR_LZO, true, compress, Decode);
    forall data: seq<Byte>, room: nat, past: nat | Askable(data, room, page)
      ensures Honours(c, data, room, past)
    {
      var o := compress(data, room, past);
      match o
      case Fail(n) =>
      case Done(n, cdata) =>
        assert Decode(cdata, n) == Some(data);
        NotEmpty(cdata, n);
        assert data[..|data|] == data;
    }
  }
}
