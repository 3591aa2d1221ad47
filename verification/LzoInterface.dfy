/** The compressor as the image builder calls it: compress, optimise in place, keep the
    result if it fits. */
module LzoInterface {
  import opened Buffers
  import opened LzoFormat
  import opened LzoDecode
  import opened LzoCompressor
  import Optimizer = LzoOptimizer
  import Parser = LzoParser

  const OK := 0

  /** jffs2_lzo_compress. The optimiser writes its text over the input, which must
      therefore come out as it was. */
  method Compress(input: array<Byte>, output: array<Byte>, f: Finder, cfg: Settings)
    returns (ret: int, dstLen: nat, ghost stream: seq<Byte>)
    requires input != output && Honest(f, input[..])
    modifies input, output
    ensures input[..] == old(input[..])
    ensures forall cap | cap >= input.Length :: Decode(stream, cap) == Some(input[..])
    ensures |stream| <= 2 * input.Length + 3
    ensures ret == OK <==> |stream| <= output.Length
    ensures ret == OK ==> dstLen == |stream| && output[..dstLen] == stream
    ensures ret != OK ==> ret == -1 && dstLen == output.Length && output[..] == old(output[..])
  {
    hide Honest, IsStream, Decode, Legal, StreamOf, TextOf;
    ghost var src := input[..];
    var longer := if input.Length > output.Length then input.Length else output.Length;
    var buffer := new Byte[longer * 2 + 20];
    var size;
    ghost var ins;
    size, ins := LzoCompressor.Compress(input[..], buffer, f, cfg);
    var mem := new Byte[size](i requires 0 <= i < size <= buffer.Length reads buffer => buffer[i]);
    assert mem[..] == buffer[..size];
    var text;
    ret, text, ins := Optimizer.Optimize(mem, input, ins, End(3, 0), src);
    stream := mem[..];
    forall cap | cap >= input.Length ensures Decode(stream, cap) == Some(src) {
      DecodePrinted(stream, ins, End(3, 0), src, cap);
    }
    if size <= output.Length {
      dstLen := size;
      forall i | 0 <= i < size { output[i] := mem[i]; }
      assert output[..size] == stream;
    } else {
      ret, dstLen := -1, output.Length;
    }
  }

  /** What was compressed decompresses to the same page, by the byte-level parser. */
  method RoundTrip(input: array<Byte>, output: array<Byte>, page: array<Byte>, f: Finder, cfg: Settings, inBase: nat, outBase: nat)
    returns (ret: int)
    requires input != output && page != output && page != input && Honest(f, input[..]) && page.Length == input.Length
    modifies input, output, page
    ensures input[..] == old(input[..])
    ensures ret == OK ==> page[..] == input[..]
    ensures output.Length >= 2 * input.Length + 3 ==> ret == OK
  {
    hide Honest, Decode;
    var dstLen, n;
    ghost var stream;
    ret, dstLen, stream := Compress(input, output, f, cfg);
    if ret == OK {
      ret, n := Parser.Decompress(output[..dstLen], page, page.Length, inBase, outBase);
      assert page[..n] == input[..];
    }
  }
}
