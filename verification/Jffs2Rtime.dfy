/** RTIME as one of the registry's compressors: what is proved about the coder is what the
    image writer relies on. */
module Jffs2Rtime {
  import opened Buffers
  import opened Jffs2Compress
  import opened Rtime

  const COMPR_RTIME: Byte := 2

  /** The pairs that a compressed block consists of. */
  function Pairs(cdata: seq<Byte>): seq<Pair> {
    if |cdata| < 2 then [] else [Pair(cdata[0], cdata[1])] + Pairs(cdata[2..])
  }

  lemma {:induction false} PairsOfFlat(ps: seq<Pair>)
    ensures Pairs(Flatten(ps)) == ps
  {
    if ps != [] {
      var flat := Flatten(ps);
      assert flat[2..] == Flatten(ps[1..]);
      PairsOfFlat(ps[1..]);
    }
  }

  /** One block of at most SHORT_MAX bytes. */
  function Pack(data: seq<Byte>, room: nat): Outcome {
    var ps := PairsFor(data, room);
    if 2 * |ps| >= Covered(ps) then Fail(room) else Done(Covered(ps), Flatten(ps))
  }

  function Unpacked(cdata: seq<Byte>, dsize: nat): Option<seq<Byte>> {
    var text := Expand([], NowhereYet(), Pairs(cdata));
    if |text| == dsize then Some(text) else None
  }

  /** jffs2_rtime_compress; memory is what the output is the beginning of. */
  method Compress(data: seq<Byte>, memory: array<Byte>, room: nat) returns (o: Outcome)
    requires |data| <= SHORT_MAX && room < WORD && 2 * |PairsFor(data, room)| <= memory.Length
    modifies memory
    ensures o == Pack(data, room)
    ensures memory[..2 * |PairsFor(data, room)|] == Flatten(PairsFor(data, room))
  {
    hide PairsFor, Flatten, Covered;
    var ret, sourcelen, written := Rtime.Compress(data, memory, room);
    o := if ret == 0 then Done(sourcelen, memory[..written]) else Fail(written);
  }

  /** The coder keeps the contract of the registry, for pages whose positions are shorts. What
      it does to longer blocks does not matter. */
  lemma RtimeLawful(compress: (seq<Byte>, nat, nat) -> Outcome, page: nat)
    requires page <= SHORT_MAX
    requires forall data: seq<Byte>, room: nat, past: nat :: |data| <= SHORT_MAX ==> compress(data, room, past) == Pack(data, room)
    ensures Lawful(Compressor(COMPR_RTIME, true, compress, Unpacked), page)
  {
    hide Pack, Unpacked;
    var c := Compressor(COMPR_RTIME, true, compress, Unpacked);
    forall data: seq<Byte>, room: nat, past: nat | Askable(data, room, page)
      ensures Honours(c, data, room, past)
    {
      assert compress(data, room, past) == Pack(data, room);
      PackHonest(data, room);
    }
  }

  lemma PackHonest(data: seq<Byte>, room: nat)
    requires data != [] && (room < 2 ==> |data| == 1)
    ensures match Pack(data, room)
            case Fail(n) => n == room
            case Done(n, cdata) => 0 < n <= |data| && 0 < |cdata| <= room && Unpacked(cdata, n) == Some(data[..n])
  {
    hide Choose, Expand, Flatten, Covered, Pairs;
    if room >= 2 {
      var ps := Choose(data, 0, NowhereYet(), room);
      RoundTripPairs(data, room);
      PairsOfFlat(ps);
      SomePairs(data, room);
    } else {
      LastByte(data, room);
    }
  }

  /** The last byte of a page is offered with room for one byte. It is rejected, but two bytes
      are written to the output before. */
  lemma LastByte(data: seq<Byte>, room: nat)
    requires |data| == 1 && room < 2
    ensures Pack(data, room) == Fail(room) && Flatten(PairsFor(data, room)) == [data[0], 0]
  {
    hide RunFrom;
    ChooseStep(data, 0, NowhereYet(), Budget(room));
    var run := RunFrom(data, 1, 0, 0);
    ChooseStep(data, 1 + run, NowhereYet()[data[0] := 1], Budget(room) - 2);
    assert PairsFor(data, room) == [Pair(data[0], 0)] + [];
    assert [Pair(data[0], 0)][1..] == [];
    assert Flatten([Pair(data[0], 0)]) == [data[0], 0] + Flatten([]);
  }

  /** More than a byte with room for one only would be packed into more than the room. The
      image writer never asks for it. */
  lemma RoomOfOne()
    ensures var data := [7, 7, 7, 7, 7, 7]; Pack(data, 1) == Done(6, [7, 5]) && forall page :: !Askable(data, 1, page)
  {
    var data: seq<Byte> := [7, 7, 7, 7, 7, 7];
    hide RunFrom;
    ChooseStep(data, 0, NowhereYet(), Budget(1));
    SixAlike();
    ChooseStep(data, 6, NowhereYet()[7 := 1], Budget(1) - 2);
    assert PairsFor(data, 1) == [Pair(7, 5)] + [];
    assert [Pair(7, 5)][1..] == [];
    assert Flatten([Pair(7, 5)]) == [7, 5] + Flatten([]);
  }

  lemma SixAlike()
    ensures RunFrom([7, 7, 7, 7, 7, 7], 1, 0, 0) == 5
  {
    var data: seq<Byte> := [7, 7, 7, 7, 7, 7];
    hide RunFrom;
    RunMore(data, 1, 0, 0);
    RunMore(data, 1, 0, 1);
    RunMore(data, 1, 0, 2);
    RunMore(data, 1, 0, 3);
    RunMore(data, 1, 0, 4);
    RunMore(data, 1, 0, 5);
  }

  /** A block that is not empty gives at least one pair. */
  lemma SomePairs(data: seq<Byte>, room: nat)
    requires data != [] && room >= 2
    ensures Choose(data, 0, NowhereYet(), room) != []
  {
    hide RunFrom, Covered;
    ChooseStep(data, 0, NowhereYet(), room);
  }
}
