/** The LZO1X stream format: instructions, the bytes they are written as, and the
    text they stand for. */
module LzoFormat {
  import opened Buffers

  const M1_MAX_OFFSET := 0x400
  const M2_MAX_OFFSET := 0x800
  const M3_MAX_OFFSET := 0x4000
  const M4_MAX_OFFSET := 0xbfff
  const MX_MAX_OFFSET := 0xc00
  const M2_MIN_LEN := 3
  const M2_MAX_LEN := 8
  const M3_MAX_LEN := 33
  const M4_MAX_LEN := 9
  const M3_MARKER := 32
  const M4_MARKER := 16

  /** The ways to write a match. */
  datatype Form = M1a | M1b | M2 | M3 | M4

  /** First and Run are literals; Copy is a match followed by up to three literals. */
  datatype Instr =
    | First(lits: seq<Byte>)
    | Run(lits: seq<Byte>)
    | Copy(form: Form, len: nat, off: nat, lits: seq<Byte>)
    | End(len: nat, state: nat)

  /** Where in the stream an instruction stands: at the start, behind a match without
      literals, behind one to three literals, behind a longer run. */
  datatype Ctx = Start | Zero | Few | Many

  // ---------- legal instructions

  predicate FormFits(form: Form, len: nat, off: nat) {
    match form
    case M1a => len == 2 && 1 <= off <= M1_MAX_OFFSET
    case M1b => len == 3 && M2_MAX_OFFSET < off <= MX_MAX_OFFSET
    case M2 => M2_MIN_LEN <= len <= M2_MAX_LEN && 1 <= off <= M2_MAX_OFFSET
    case M3 => len >= 3 && 1 <= off <= M3_MAX_OFFSET
    case M4 => len >= 3 && M3_MAX_OFFSET < off <= M4_MAX_OFFSET
  }

  predicate WellMade(i: Instr) {
    match i
    case First(lits) => 1 <= |lits| <= 238
    case Run(lits) => |lits| >= 4
    case Copy(form, len, off, lits) => FormFits(form, len, off) && |lits| <= 3
    case End(len, state) => len >= 3 && state <= 3
  }

  predicate Allowed(ctx: Ctx, i: Instr) {
    && WellMade(i)
    && match i
       case First(_) => ctx == Start
       case Run(_) => ctx == Start || ctx == Zero
       case Copy(form, _, _, _) => ctx != Start && (form == M1a ==> ctx == Few) && (form == M1b ==> ctx == Many)
       case End(len, _) => ctx == Start ==> len == 3 || len > M4_MAX_LEN
  }

  function After(i: Instr): Ctx {
    match i
    case First(lits) => if |lits| < 4 then Few else Many
    case Run(_) => Many
    case Copy(_, _, _, lits) => if lits == [] then Zero else Few
    case End(_, _) => Zero
  }

  // ---------- bytes

  /** A length beyond what the first byte holds: zeros for 255 each, then the rest. */
  function Ext(n: nat): (s: seq<Byte>)
    requires n >= 1
    ensures |s| >= 1
  {
    if n > 255 then [0] + Ext(n - 255) else [n]
  }

  /** marker and length field; max is what the field can hold. */
  function LenBytes(marker: nat, max: nat, t: nat): (s: seq<Byte>)
    requires t >= 1 && marker + max < 256
    ensures |s| >= 1
  {
    if t <= max then [marker + t] else [marker] + Ext(t - max)
  }

  /** A match without its literals; n, the number of literals, is in the last byte but one. */
  function Head(form: Form, len: nat, off: nat, n: nat): (s: seq<Byte>)
    requires FormFits(form, len, off) && n <= 3
    ensures |s| >= 2
  {
    match form
    case M1a => [(off - 1) % 4 * 4 + n, (off - 1) / 4]
    case M1b => [(off - 1 - M2_MAX_OFFSET) % 4 * 4 + n, (off - 1 - M2_MAX_OFFSET) / 4]
    case M2 => [(len - 1) * 32 + (off - 1) % 8 * 4 + n, (off - 1) / 8]
    case M3 => LenBytes(M3_MARKER, 31, len - 2) + [(off - 1) % 64 * 4 + n, (off - 1) / 64]
    case M4 =>
      var far := off - 0x4000;
      var k := if far >= 0x4000 then 8 else 0;
      LenBytes(M4_MARKER + k, 7, len - 2) + [far % 64 * 4 + n, far % 0x4000 / 64]
  }

  /** Where the two state bits are in a match. */
  lemma HeadParts(form: Form, len: nat, off: nat) returns (front: seq<Byte>, high: nat, last: Byte)
    requires FormFits(form, len, off)
    ensures high < 64
    ensures forall n | n <= 3 :: Head(form, len, off, n) == front + [high * 4 + n, last]
  {
    hide LenBytes;
    match form
    case M1a => front, high, last := [], (off - 1) % 4, (off - 1) / 4;
    case M1b => front, high, last := [], (off - 1 - M2_MAX_OFFSET) % 4, (off - 1 - M2_MAX_OFFSET) / 4;
    case M2 => front, high, last := [], (len - 1) * 8 + (off - 1) % 8, (off - 1) / 8;
    case M3 => front, high, last := LenBytes(M3_MARKER, 31, len - 2), (off - 1) % 64, (off - 1) / 64;
    case M4 =>
      var far := off - 0x4000;
      var k := if far >= 0x4000 then 8 else 0;
      front, high, last := LenBytes(M4_MARKER + k, 7, len - 2), far % 64, far % 0x4000 / 64;
  }

  function Bytes(i: Instr): (s: seq<Byte>)
    requires WellMade(i)
    ensures |s| >= 1
  {
    match i
    case First(lits) => [17 + |lits|] + lits
    case Run(lits) => LenBytes(0, 15, |lits| - 3) + lits
    case Copy(form, len, off, lits) => Head(form, len, off, |lits|) + lits
    case End(len, state) => LenBytes(M4_MARKER, 7, len - 2) + [state, 0]
  }

  // ---------- text

  /** Append len bytes, each copied from off bytes back. */
  function CopyText(out: seq<Byte>, off: nat, len: nat): (r: seq<Byte>)
    requires 1 <= off <= |out|
    ensures |r| == |out| + len && out <= r
  {
    if len == 0 then out
    else
      var p := CopyText(out, off, len - 1);
      p + [p[|p| - off]]
  }

  predicate Reaches(out: seq<Byte>, i: Instr) {
    i.Copy? ==> 1 <= i.off <= |out|
  }

  function Apply(out: seq<Byte>, i: Instr): (r: seq<Byte>)
    requires Reaches(out, i)
    ensures out <= r
  {
    match i
    case First(lits) => out + lits
    case Run(lits) => out + lits
    case Copy(_, len, off, lits) => CopyText(out, off, len) + lits
    case End(_, _) => out
  }

  // ---------- instruction lists

  function CtxOf(ins: seq<Instr>): Ctx {
    if ins == [] then Start else After(ins[|ins| - 1])
  }

  /** A list that can be read from the start of a stream and has no end marker yet. */
  predicate Legal(ins: seq<Instr>) {
    ins == [] ||
    (var front, i := ins[..|ins| - 1], ins[|ins| - 1];
     Legal(front) && Allowed(CtxOf(front), i) && !i.End?)
  }

  /** The bytes of a legal list. */
  function StreamOf(ins: seq<Instr>): seq<Byte>
    requires Legal(ins)
  {
    if ins == [] then [] else StreamOf(ins[..|ins| - 1]) + Bytes(ins[|ins| - 1])
  }

  /** The text of a list, if every match stays inside the text before it. */
  function TextOf(ins: seq<Instr>): Option<seq<Byte>> {
    if ins == [] then Some([])
    else
      var t := TextOf(ins[..|ins| - 1]);
      if t.Some? && Reaches(t.value, ins[|ins| - 1]) then Some(Apply(t.value, ins[|ins| - 1])) else None
  }

  lemma Snoc(ins: seq<Instr>, i: Instr)
    requires Legal(ins) && Allowed(CtxOf(ins), i) && !i.End?
    ensures Legal(ins + [i]) && CtxOf(ins + [i]) == After(i)
    ensures StreamOf(ins + [i]) == StreamOf(ins) + Bytes(i)
    ensures TextOf(ins).Some? && Reaches(TextOf(ins).value, i) ==>
              TextOf(ins + [i]) == Some(Apply(TextOf(ins).value, i))
  {
    assert (ins + [i])[..|ins|] == ins;
  }

  /** The last instruction of a list. */
  lemma Unsnoc(front: seq<Instr>, x: Instr)
    requires Legal(front + [x]) && TextOf(front + [x]).Some?
    ensures Legal(front) && Allowed(CtxOf(front), x) && !x.End? && TextOf(front).Some?
    ensures StreamOf(front + [x]) == StreamOf(front) + Bytes(x)
    ensures Reaches(TextOf(front).value, x) && TextOf(front + [x]).value == Apply(TextOf(front).value, x)
  {
    hide Bytes, Apply;
    assert (front + [x])[..|front|] == front;
  }

  lemma {:induction false} LegalPrefix(ins: seq<Instr>, k: nat)
    requires Legal(ins) && k <= |ins|
    ensures Legal(ins[..k])
    ensures k < |ins| ==> Allowed(CtxOf(ins[..k]), ins[k]) && !ins[k].End?
    decreases |ins|
  {
    if k < |ins| {
      var front := ins[..|ins| - 1];
      if k == |front| {
        assert ins[..k] == front;
      } else {
        LegalPrefix(front, k);
        assert front[..k] == ins[..k];
      }
    } else {
      assert ins[..k] == ins;
    }
  }

  lemma {:induction false} TextPrefix(ins: seq<Instr>, k: nat)
    requires TextOf(ins).Some? && k <= |ins|
    ensures TextOf(ins[..k]).Some? && TextOf(ins[..k]).value <= TextOf(ins).value
    ensures k < |ins| ==> Reaches(TextOf(ins[..k]).value, ins[k])
    decreases |ins|
  {
    if k < |ins| {
      var front := ins[..|ins| - 1];
      if k == |front| {
        assert ins[..k] == front;
      } else {
        TextPrefix(front, k);
        assert front[..k] == ins[..k];
      }
    } else {
      assert ins[..k] == ins;
    }
  }
}
