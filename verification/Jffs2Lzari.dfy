/** LZARI as one of the registry's compressors. Which match of the best length is coded may
    depend on what the static window held before, so a codec is any pair of functions whose
    values are possible outcomes of Encode and of Decode. */
module Jffs2Lzari {
  import opened Buffers
  import opened Jffs2Compress
  import opened LzariModel
  import opened LzariCode
  import opened LzariTokens
  import opened LzariWindow
  import opened LzariEncoder
  import opened LzariCodec

  const COMPR_LZARI: Byte := 8

  /** cdata codes tokens that stand for all of the data. */
  ghost predicate Coded(data: seq<Byte>, toks: seq<Token>, cdata: seq<Byte>) {
    Parses(Stream(data), toks, |Stream(data)|) && AllTokens(toks) && Finished(After(toks).coder, cdata)
  }

  ghost predicate CompressOutcome(data: seq<Byte>, room: nat, o: Outcome) {
    match o
    case Fail(n) => n == room
    case Done(n, cdata) => n == |data| && |cdata| <= room && exists toks :: Coded(data, toks, cdata)
  }

  /** What decoding cdata for dsize bytes may give, with rest at the end of the window. */
  ghost predicate Decodes(cdata: seq<Byte>, rest: seq<Byte>, toks: seq<Token>, out: seq<Byte>, whole: bool) {
    |rest| == F && Codes(toks, cdata) && Decompressed(StartWindow(rest), toks, out, whole)
  }

  ghost predicate DecompressOutcome(cdata: seq<Byte>, dsize: nat, o: Option<seq<Byte>>) {
    exists rest, toks, out, whole ::
      Decodes(cdata, rest, toks, out, whole) && |out| == dsize && o == if whole then Some(out) else None
  }

  /** jffs2_lzari_compress */
  method Compress(codec: Codec, data: seq<Byte>, room: nat) returns (o: Outcome)
    requires codec.Allocated() && data != []
    modifies codec.tables.Repr, codec.matcher, codec.matcher.Repr
    ensures CompressOutcome(data, room, o)
  {
    hide Parses, Finished, After, Codec.Allocated;
    var output := new Byte[room];
    var ret, done, written;
    ghost var toks;
    ret, done, written, toks := codec.Encode(data, output, room);
    if ret != 0 { return Fail(written); }
    o := Done(done, output[..written]);
    assert Coded(data, toks, output[..written]);
  }

  /** jffs2_lzari_decompress */
  method Decompress(codec: Codec, cdata: seq<Byte>, dsize: nat) returns (o: Option<seq<Byte>>)
    requires codec.Allocated()
    modifies codec.tables.Repr, codec.matcher.text_buf
    ensures DecompressOutcome(cdata, dsize, o)
  {
    hide Codes, Decompressed;
    var output := new Byte[dsize];
    ghost var rest := codec.matcher.text_buf[N - F..N];
    var ret;
    ghost var toks;
    ret, toks := codec.Decode(cdata, output, dsize);
    o := if ret == 0 then Some(output[..dsize]) else None;
    assert Decodes(cdata, rest, toks, output[..dsize], ret == 0);
  }

  /** Whatever the codec kept, a block that Encode accepts decodes to itself. */
  lemma Back(data: seq<Byte>, room: nat, o: Outcome, t: Option<seq<Byte>>)
    requires data != [] && o.Done? && CompressOutcome(data, room, o) && DecompressOutcome(o.cdata, o.datalen, t)
    ensures o.datalen == |data| && 0 < |o.cdata| <= room && t == Some(data)
  {
    hide Parses, Finished, After, Codes, Decompressed, Stream;
    var toks :| Coded(data, toks, o.cdata);
    var rest, found, out, whole :|
      Decodes(o.cdata, rest, found, out, whole) && |out| == o.datalen && t == if whole then Some(out) else None;
    RoundTripTokens(data, toks, o.cdata, rest, found, out, whole);
    NotEmpty(After(toks).coder, o.cdata);
  }

  lemma NotEmpty(c: Coder, bytes: seq<Byte>)
    requires Finished(c, bytes)
    ensures |bytes| > 0
  {
  }

  /** The coder keeps the contract of the registry. */
  lemma LzariLawful(compress: (seq<Byte>, nat, nat) -> Outcome, decompress: (seq<Byte>, nat) -> Option<seq<Byte>>, page: nat)
    requires forall data: seq<Byte>, room: nat, past: nat :: data != [] ==> CompressOutcome(data, room, compress(data, room, past))
    requires forall cdata: seq<Byte>, dsize: nat :: DecompressOutcome(cdata, dsize, decompress(cdata, dsize))
    ensures Lawful(Compressor(COMPR_LZARI, true, compress, decompress), page)
  {
    hide CompressOutcome, DecompressOutcome;
    var c := Compressor(COMPR_LZARI, true, compress, decompress);
    forall data: seq<Byte>, room: nat, past: nat | Askable(data, room, page)
      ensures Honours(c, data, room, past)
    {
      var o := compress(data, room, past);
      match o
      case Fail(n) =>
        FailKeeps(data, room, o);
      case Done(n, cdata) =>
        Back(data, room, o, decompress(cdata, n));
        assert data[..|data|] == data;
    }
  }

  lemma FailKeeps(data: seq<Byte>, room: nat, o: Outcome)
    requires CompressOutcome(data, room, o) && o.Fail?
    ensures o.cdatalen == room
  {
  }
}
