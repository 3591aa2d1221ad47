/** Block compression and decompression with the static tables and window. */
module LzariCodec {
  import opened Buffers
  import opened LzariModel
  import opened LzariCode
  import opened LzariTree
  import opened LzariIndex
  import opened LzariTokens
  import opened LzariTables
  import opened LzariMatcher
  import opened LzariWindow
  import opened LzariBitSink
  import opened LzariEncoder
  import opened LzariDecoder

  /** The tokens reproduce some part of the source from its beginning. */
  ghost predicate Prefixes(src: seq<Byte>, toks: seq<Token>) {
    exists n: nat :: Parses(Stream(src), toks, n)
  }

  lemma StartFacts(src: seq<Byte>)
    ensures Parses(Stream(src), [], N - F)
    ensures After([]) == InitialState()
  {
  }

  lemma ParsesPrefix(src: seq<Byte>, toks: seq<Token>, n: nat)
    requires Parses(Stream(src), toks, n)
    ensures AllTokens(toks) && Prefixes(src, toks)
  {
    ParsesTokens(Stream(src), toks, n);
  }

  lemma PrefixesWhole(src: seq<Byte>, toks: seq<Token>)
    requires Parses(Stream(src), toks, |Stream(src)|)
    ensures Prefixes(src, toks)
  {
  }

  lemma TotalFits(st: State)
    requires IsState(st)
    ensures 0 < Cum(st.model.freq, 0) <= MAX_CUM
  {
    SlicesNonEmpty(st.model, 1);
  }

  lemma SinkOverflow(sink: BitSink)
    requires sink.Overflowed()
    ensures sink.written == sink.capacity && |sink.bits| >= 8 * sink.capacity + 8
  {
  }

  class Codec {
    const tables: Tables
    const matcher: Matcher

    ghost predicate Allocated() {
      && tables.Allocated() && matcher.Allocated()
      && tables.Repr !! matcher.Repr
      && (matcher as object) !in tables.Repr && (matcher as object) !in matcher.Repr
    }

    constructor ()
      ensures Allocated() && fresh(tables.Repr) && fresh(matcher.Repr) && fresh(matcher)
    {
      tables := new Tables();
      matcher := new Matcher();
    }

    /** The encoder stands at stream position n with len bytes of lookahead. */
    ghost predicate Sync(src: seq<Byte>, n: nat, r: nat, s: nat, len: nat, ip: nat)
      reads matcher, matcher.text_buf, matcher.lson, matcher.rson, matcher.dad
    {
      && matcher.Valid()
      && n >= N - F && r == n % N && s == (n + F) % N
      && ip <= |src| && n + len == N - F + ip && len <= F && (ip < |src| ==> len == F)
      && Loaded(matcher.text_buf[..], Stream(src), n, n + len)
      && (forall y :: y in matcher.members ==> y < N && Back(n, y) <= N - F)
    }

    /** match_length and match_position describe a match for stream position n. */
    ghost predicate Found(n: nat)
      reads matcher, matcher.text_buf
    {
      matcher.Allocated() && MatchAt(matcher.text_buf[..], n, matcher.match_length, matcher.match_position)
    }

    /** Index the string at r, which enters the window. */
    method Enter(ghost n: nat, r: nat)
      requires Allocated() && matcher.Valid() && r == n % N && r !in matcher.members
      requires forall y :: y in matcher.members ==> y < N && 1 <= Back(n, y) <= N - F
      modifies matcher, matcher.lson, matcher.rson, matcher.dad
      ensures matcher.Valid()
      ensures forall y :: y in matcher.members ==> y < N && Back(n, y) <= N - F
      ensures Found(n)
    {
      hide Index, BestMatch, Common;
      ghost var seen := matcher.members;
      matcher.InsertNode(r);
      BestIsMatch(matcher.text_buf[..], n, seen, matcher.match_length, matcher.match_position);
      BackStep(n, r);
    }

    /** Take in the next source byte over the oldest one. */
    method ShiftIn(ghost src: seq<Byte>, ghost n: nat, r: nat, s: nat, ghost ip: nat, c: Byte)
      returns (r': nat, s': nat)
      requires Allocated() && Sync(src, n, r, s, F, ip) && ip < |src| && c == src[ip]
      modifies matcher, matcher.Repr
      ensures Sync(src, n + 1, r', s', F, ip + 1) && Found(n + 1)
    {
      hide Index, Loaded, Common, MatchAt;
      WindowStep(n, matcher.members);
      matcher.DeleteNode(s);
      ghost var text := matcher.text_buf[..];
      assert Stream(src)[n + F] == c;
      StoreLoaded(text, Stream(src), n, c);
      matcher.text_buf[s] := c;
      if s < F - 1 { matcher.text_buf[s + N] := c; }
      assert matcher.text_buf[..] == Store(text, s, c);
      forall y | y in matcher.members
        ensures StrAt(text, y) == StrAt(Store(text, s, c), y)
      {
        StoreApart(text, n, c, y);
      }
      IndexText(text, Store(text, s, c), matcher.K(), matcher.trees, matcher.members);
      RingStep(n);
      RingStep(n + F);
      s' := (s + 1) % N;
      r' := (r + 1) % N;
      Enter(n + 1, r');
    }

    /** Past the end of the source the lookahead shrinks. */
    method ShiftOut(ghost src: seq<Byte>, ghost n: nat, r: nat, s: nat, len: nat)
      returns (r': nat, s': nat)
      requires Allocated() && Sync(src, n, r, s, len, |src|) && len > 0
      modifies matcher, matcher.Repr
      ensures Sync(src, n + 1, r', s', len - 1, |src|) && (len - 1 > 0 ==> Found(n + 1))
    {
      hide Index, Common, MatchAt;
      WindowStep(n, matcher.members);
      matcher.DeleteNode(s);
      RingStep(n);
      RingStep(n + F);
      s' := (s + 1) % N;
      r' := (r + 1) % N;
      if len - 1 > 0 {
        Enter(n + 1, r');
      }
    }

    /** Clear the window and read up to F bytes behind it. */
    method Preload(src: seq<Byte>) returns (len: nat)
      requires Allocated()
      modifies matcher.text_buf
      ensures len == if |src| < F then |src| else F
      ensures Loaded(matcher.text_buf[..], Stream(src), N - F, N - F + len)
    {
      var i := 0;
      while i < N - F
        invariant 0 <= i <= N - F
        invariant forall j :: 0 <= j < i ==> matcher.text_buf[j] == BLANK
      {
        matcher.text_buf[i] := BLANK;
        i := i + 1;
      }
      len := 0;
      while len < F && len < |src|
        invariant 0 <= len <= F && len <= |src|
        invariant forall j :: 0 <= j < N - F + len ==> matcher.text_buf[j] == Stream(src)[j]
      {
        matcher.text_buf[N - F + len] := src[len];
        len := len + 1;
      }
    }

    method Start(src: seq<Byte>) returns (len: nat)
      requires Allocated() && src != []
      modifies matcher, matcher.Repr
      ensures len == if |src| < F then |src| else F
      ensures Sync(src, N - F, N - F, 0, len, len) && Found(N - F)
    {
      hide Index, Loaded, Common, MatchAt, BestMatch;
      matcher.InitTree();
      ghost var text0 := matcher.text_buf[..];
      len := Preload(src);
      IndexText(text0, matcher.text_buf[..], matcher.K(), matcher.trees, {});
      var r := N - F;
      var i := 1;
      while i <= F
        invariant 1 <= i <= F + 1 && matcher.Valid()
        invariant forall y :: y in matcher.members ==> r - i < y < r
        invariant Loaded(matcher.text_buf[..], Stream(src), N - F, N - F + len)
      {
        matcher.InsertNode(r - i);
        i := i + 1;
      }
      Enter(N - F, r);
    }

    /** Code one character and adapt the model. */
    method EncodeChar(enc: Encoder, c: nat, read: nat, ghost st: State) returns (ok: bool)
      requires tables.Valid() && c < N_CHAR && enc.sink.Valid()
      requires IsState(st) && st == State(enc.CoderOf(), tables.Abs())
      requires (enc.sink.dst as object) !in tables.Repr && (enc as object) !in tables.Repr && (enc.sink as object) !in tables.Repr
      modifies enc, enc.sink, enc.sink.dst, tables.Repr
      ensures ok ==> enc.sink.Valid() && tables.Valid()
      ensures ok ==> State(enc.CoderOf(), tables.Abs()) == StepSym(st, SymOf(st.model, c))
      ensures !ok ==> enc.sink.Overflowed() && |enc.sink.bits| <= StepSym(st, SymOf(st.model, c)).coder.doublings
      ensures enc.sink.written >= old(enc.sink.written)
      ensures enc.sink.srclen == if enc.sink.written > old(enc.sink.written) then read else old(enc.sink.srclen)
    {
      hide BitSink.Valid, BitSink.Overflowed, WellFormed, Renorm, Next, Cum, Narrow, Ready, BaseOf;
      tables.CharLookup(c);
      var sym := tables.char_to_sym[c];
      SlicesNonEmpty(st.model, sym);
      tables.SymEntries(sym);
      ok := enc.CodeSlice(tables.sym_cum[sym], tables.sym_cum[sym - 1], tables.sym_cum[0], read);
      if ok {
        tables.UpdateModel(sym);
      }
    }

    /** Code a match position. */
    method EncodePos(enc: Encoder, pos: nat, read: nat) returns (ok: bool)
      requires tables.Valid() && 1 <= pos <= N && enc.sink.Valid() && Ready(enc.CoderOf())
      modifies enc, enc.sink, enc.sink.dst
      ensures ok ==> enc.sink.Valid() && enc.CoderOf() == Renorm(CodePos(old(enc.CoderOf()), pos))
      ensures !ok ==> enc.sink.Overflowed() && |enc.sink.bits| <= Renorm(CodePos(old(enc.CoderOf()), pos)).doublings
      ensures enc.sink.written >= old(enc.sink.written)
      ensures enc.sink.srclen == if enc.sink.written > old(enc.sink.written) then read else old(enc.sink.srclen)
    {
      hide BitSink.Valid, BitSink.Overflowed, WellFormed, Renorm, Narrow, Ready, BaseOf, PosSum;
      PosSlices(pos - 1);
      PosTotal();
      ok := enc.CodeSlice(tables.position_cum[pos], tables.position_cum[pos - 1], tables.position_cum[0], read);
    }

    /** Separation of an encoder from the static state. */
    ghost predicate Apart(enc: Encoder)
    {
      && Allocated()
      && (enc as object) !in tables.Repr + matcher.Repr && (enc.sink as object) !in tables.Repr + matcher.Repr
      && (enc.sink.dst as object) !in tables.Repr + matcher.Repr
      && (matcher as object) != enc && (matcher as object) != enc.sink && (matcher as object) != enc.sink.dst
    }

    /** The coder has coded exactly toks. */
    ghost predicate Coded(enc: Encoder, toks: seq<Token>)
      reads enc, enc.sink, enc.sink.dst, tables.Repr, tables.char_to_sym, tables.sym_to_char, tables.sym_freq,
            tables.sym_cum, tables.position_cum
    {
      && enc.sink.Valid() && tables.Valid() && AllTokens(toks)
      && State(enc.CoderOf(), tables.Abs()) == After(toks)
    }

    lemma CodedStart(enc: Encoder)
      requires enc.sink.Valid() && tables.Valid() && tables.Abs() == InitialModel()
      requires enc.CoderOf() == Coder(0, 0, Q4, 0)
      ensures Coded(enc, [])
    {
    }

    lemma CodedReady(enc: Encoder, toks: seq<Token>)
      requires Coded(enc, toks)
      ensures AllTokens(toks) && enc.sink.Valid() && enc.CoderOf() == After(toks).coder && Ready(enc.CoderOf())
    {
    }

    /** Code one token. */
    method EncodeToken(enc: Encoder, t: Token, read: nat, ghost toks: seq<Token>) returns (ok: bool)
      requires Apart(enc) && IsToken(t) && Coded(enc, toks)
      modifies enc, enc.sink, enc.sink.dst, tables.Repr
      ensures AllTokens(toks + [t])
      ensures ok ==> Coded(enc, toks + [t])
      ensures !ok ==> enc.sink.Overflowed() && |enc.sink.bits| <= After(toks + [t]).coder.doublings
      ensures enc.sink.written >= old(enc.sink.written)
      ensures enc.sink.srclen == if enc.sink.written > old(enc.sink.written) then read else old(enc.sink.srclen)
    {
      hide BitSink.Valid, BitSink.Overflowed, Renorm, Next, Ready, BaseOf, WellFormed, After, Tables.Valid, PosSum;
      ghost var st := After(toks);
      AfterSnoc(toks, t);
      ghost var sym := SymOf(st.model, CharOf(t));
      ok := EncodeChar(enc, CharOf(t), read, st);
      if t.Match? {
        RenormDoublings(CodePos(StepSym(st, sym).coder, t.dist));
        if ok {
          ok := EncodePos(enc, t.dist, read);
        }
      }
    }

    /** Move the window over the last token. */
    method Advance(src: seq<Byte>, ghost n: nat, r0: nat, s0: nat, len0: nat, ip0: nat, last: nat)
      returns (r: nat, s: nat, len: nat, ip: nat)
      requires Allocated() && Sync(src, n, r0, s0, len0, ip0) && last <= len0
      modifies matcher, matcher.Repr
      ensures Sync(src, n + last, r, s, len, ip) && ip >= ip0
      ensures last > 0 && len > 0 ==> Found(n + last)
    {
      hide Matcher.Valid, Loaded, Found;
      r, s, len, ip := r0, s0, len0, ip0;
      var i := 0;
      while i < last && ip < |src|
        invariant 0 <= i <= last && last <= len && ip >= ip0
        invariant Sync(src, n + i, r, s, len, ip) && (i > 0 && len > 0 ==> Found(n + i))
      {
        var c := src[ip];
        ip := ip + 1;
        r, s := ShiftIn(src, n + i, r, s, ip - 1, c);
        i := i + 1;
      }
      ghost var k := i;
      while i < last
        invariant k <= i <= last && last - i <= len && ip >= ip0
        invariant i < last ==> ip == |src|
        invariant Sync(src, n + i, r, s, len, ip) && (i > 0 && len > 0 ==> Found(n + i))
      {
        r, s := ShiftOut(src, n + i, r, s, len);
        len := len - 1;
        i := i + 1;
      }
    }

    /** The longest match, clamped to the lookahead, or else a literal. */
    method ChooseToken(ghost src: seq<Byte>, ghost n: nat, r: nat, ghost s: nat, len: nat, ghost ip: nat)
      returns (t: Token)
      requires Allocated() && Sync(src, n, r, s, len, ip) && Found(n) && len > 0
      modifies matcher`match_length
      ensures Sync(src, n, r, s, len, ip)
      ensures IsToken(t) && 1 <= TokenLen(t) <= len && Genuine(Stream(src), n, t)
      ensures t == if old(matcher.match_length) <= THRESHOLD || len <= THRESHOLD then Lit(matcher.text_buf[r])
                   else Match(if old(matcher.match_length) > len then len else old(matcher.match_length), matcher.match_position)
    {
      hide Index, Loaded, Common;
      ghost var text, found := matcher.text_buf[..], matcher.match_length;
      if matcher.match_length > len { matcher.match_length := len; }
      if matcher.match_length <= THRESHOLD {
        matcher.match_length := 1;
        LiteralGenuine(text, Stream(src), n, n + len);
        t := Lit(matcher.text_buf[r]);
      } else {
        TokenGenuine(text, Stream(src), n, n + len, found, matcher.match_length, matcher.match_position);
        t := Match(matcher.match_length, matcher.match_position);
      }
    }

    /** One round of the encoder: choose a token, code it, move the window over it. */
    method EncodeStep(enc: Encoder, src: seq<Byte>, ghost n: nat, r0: nat, s0: nat, len0: nat, ip0: nat, ghost toks: seq<Token>)
      returns (ok: bool, t: Token, r: nat, s: nat, len: nat, ip: nat)
      requires Apart(enc) && Coded(enc, toks) && Parses(Stream(src), toks, n)
      requires Sync(src, n, r0, s0, len0, ip0) && Found(n) && len0 > 0
      modifies enc, enc.sink, enc.sink.dst, tables.Repr, matcher, matcher.Repr
      ensures IsToken(t) && 1 <= TokenLen(t) <= len0 && Parses(Stream(src), toks + [t], n + TokenLen(t))
      ensures AllTokens(toks + [t])
      ensures ok ==> Coded(enc, toks + [t]) && Sync(src, n + TokenLen(t), r, s, len, ip) && (len > 0 ==> Found(n + TokenLen(t)))
      ensures ok ==> n + TokenLen(t) + len == N - F + ip && ip <= |src| && (ip < |src| ==> len == F)
      ensures !ok ==> enc.sink.written == enc.sink.capacity && After(toks + [t]).coder.doublings >= 8 * enc.sink.capacity + 8
    {
      hide BitSink.Valid, Parses, After, Matcher.Valid, Loaded, Found, Tables.Valid, Genuine, BaseOf, Coded, Encoder.CoderOf;
      r, s, len, ip := r0, s0, len0, ip0;
      t := ChooseToken(src, n, r, s, len, ip);
      ParsesSnoc(Stream(src), toks, n, t);
      ok := EncodeToken(enc, t, ip, toks);
      if ok {
        r, s, len, ip := Advance(src, n, r, s, len, ip, TokenLen(t));
      } else {
        SinkOverflow(enc.sink);
      }
    }

    /** The encoder's main loop. */
    method EncodeTokens(enc: Encoder, src: seq<Byte>, len0: nat) returns (ok: bool, ip: nat, ghost toks: seq<Token>)
      requires Apart(enc) && Coded(enc, []) && src != [] && 0 < len0
      requires Sync(src, N - F, N - F, 0, len0, len0) && Found(N - F)
      modifies enc, enc.sink, enc.sink.dst, tables.Repr, matcher, matcher.Repr
      ensures AllTokens(toks)
      ensures ok ==> Coded(enc, toks) && Parses(Stream(src), toks, |Stream(src)|) && ip == |src|
      ensures !ok ==> Prefixes(src, toks) && enc.sink.written == enc.sink.capacity
      ensures !ok ==> After(toks).coder.doublings >= 8 * enc.sink.capacity + 8
    {
      hide BitSink.Valid, Parses, After, Sync, Found, Coded, Tables.Valid, Encoder.CoderOf;
      var len := len0;
      ip := len0;
      ghost var n: nat := N - F;
      var r: nat, s: nat := N - F, 0;
      toks := [];
      StartFacts(src);
      while true
        invariant Apart(enc) && Coded(enc, toks) && Sync(src, n, r, s, len, ip) && Found(n) && len > 0
        invariant Parses(Stream(src), toks, n) && n <= |Stream(src)|
        decreases |Stream(src)| - n
      {
        var t;
        ok, t, r, s, len, ip := EncodeStep(enc, src, n, r, s, len, ip, toks);
        toks := toks + [t];
        n := n + TokenLen(t);
        if !ok {
          ParsesPrefix(src, toks, n);
          return;
        }
        if len == 0 { break; }
      }
      CodedReady(enc, toks);
    }

    /** A fresh coder, model and window. */
    method Begin(src: seq<Byte>, dst: array<Byte>, dstlen: nat) returns (enc: Encoder, len: nat)
      requires Allocated() && src != [] && dstlen <= dst.Length
      requires (dst as object) !in tables.Repr + matcher.Repr && dst as object != matcher
      modifies tables.Repr, matcher, matcher.Repr
      ensures fresh(enc) && fresh(enc.sink) && enc.sink.dst == dst && enc.sink.capacity == dstlen
      ensures enc.sink.srclen == |src| && enc.sink.written == 0
      ensures Apart(enc) && Coded(enc, [])
      ensures len == (if |src| < F then |src| else F) && Sync(src, N - F, N - F, 0, len, len) && Found(N - F)
    {
      hide BitSink.Valid, Sync, Found, Coded, Tables.Valid, Encoder.CoderOf;
      var sink := new BitSink(dst, dstlen, |src|);
      enc := new Encoder(sink);
      tables.StartModel();
      len := Start(src);
      CodedStart(enc);
    }

    /** Compress a block. The tokens chosen are a ghost result. */
    method Encode(src: seq<Byte>, dst: array<Byte>, dstlen: nat)
      returns (ret: int, srcDone: nat, written: nat, ghost toks: seq<Token>)
      requires Allocated() && src != [] && dstlen <= dst.Length
      requires (dst as object) !in tables.Repr + matcher.Repr && dst as object != matcher
      modifies tables.Repr, matcher, matcher.Repr, dst
      ensures ret == 0 || ret == -1
      ensures written <= dstlen && AllTokens(toks)
      ensures ret == 0 ==> srcDone == |src| && Parses(Stream(src), toks, |Stream(src)|)
      ensures ret == 0 ==> Finished(After(toks).coder, dst[..written])
      ensures ret == -1 ==> written == dstlen && Prefixes(src, toks)
      ensures ret == -1 ==> BitsNeeded(After(toks).coder) > 8 * dstlen
    {
      hide BitSink.Valid, Parses, After, Sync, Found, Coded, Tables.Valid, Encoder.CoderOf, Finished, Apart;
      var enc, len := Begin(src, dst, dstlen);
      var ok, ip;
      ok, ip, toks := EncodeTokens(enc, src, len);
      ret := -1;
      if ok {
        CodedReady(enc, toks);
        PrefixesWhole(src, toks);
        ok := enc.Flush(ip);
        if ok { ret := 0; }
      }
      srcDone := enc.sink.srclen;
      written := enc.sink.written;
    }

    // ---------- decoding

    ghost predicate ApartDecoder(dec: Decoder) {
      Allocated() && (dec as object) !in tables.Repr && (dec as object) !in matcher.Repr
    }

    /** The decoder has decoded exactly toks. */
    ghost predicate Decoded(dec: Decoder, toks: seq<Token>)
      reads dec, tables.Repr, tables.char_to_sym, tables.sym_to_char, tables.sym_freq, tables.sym_cum, tables.position_cum
    {
      && dec.Valid() && tables.Valid() && AllTokens(toks)
      && State(dec.CoderOf(), tables.Abs()) == After(toks)
    }

    /** Decode one character and adapt the model. */
    method DecodeChar(dec: Decoder, ghost st: State) returns (c: nat)
      requires ApartDecoder(dec) && tables.Valid() && dec.Valid()
      requires IsState(st) && st == State(dec.CoderOf(), tables.Abs())
      modifies dec, tables.Repr
      ensures dec.Valid() && tables.Valid() && c < N_CHAR
      ensures State(dec.CoderOf(), tables.Abs()) == StepSym(st, SymOf(st.model, c))
    {
      hide Decoder.ReaderValid, WellFormed, Renorm, Next, Cum, Prefix, Tables.Valid;
      TotalFits(st);
      tables.SymEntries(1);
      var range, x := dec.Quotient(tables.sym_cum[0]);
      var sym := tables.BinarySearchSym(x);
      tables.SymEntries(sym);
      c := tables.CharOfSym(sym);
      SlicesNonEmpty(st.model, sym);
      dec.TakeSlice(tables.sym_cum[sym], tables.sym_cum[sym - 1], tables.sym_cum[0]);
      tables.UpdateModel(sym);
    }

    /** Decode a match position, returned as the distance. */
    method DecodePos(dec: Decoder) returns (i: nat)
      requires tables.Valid() && dec.Valid() && Ready(dec.CoderOf())
      modifies dec
      ensures dec.Valid() && 0 <= i < N
      ensures dec.CoderOf() == Renorm(CodePos(old(dec.CoderOf()), i + 1))
    {
      hide Decoder.ReaderValid, WellFormed, Renorm, PosSum, Prefix;
      PosTotal();
      var range, x := dec.Quotient(tables.position_cum[0]);
      i := tables.BinarySearchPos(x);
      PosSlices(i);
      dec.TakeSlice(tables.position_cum[i + 1], tables.position_cum[i], tables.position_cum[0]);
    }

    /** Output one byte and store it in the window. */
    method Emit(dst: array<Byte>, op: nat, r: nat, c: Byte, ghost h: seq<Byte>) returns (r': nat)
      requires Allocated() && dst != matcher.text_buf && op < dst.Length && r == RingPos(|h|)
      requires RingHolds(matcher.text_buf[..], h) && Emitted(dst[..], h, op)
      modifies dst, matcher.text_buf
      ensures RingHolds(matcher.text_buf[..], h + [c]) && Emitted(dst[..], h + [c], op + 1)
      ensures r' == RingPos(|h| + 1)
    {
      hide RingHolds, Emitted;
      RingWrite(matcher.text_buf[..], h, c);
      EmitMore(dst[..], h, op, c);
      RingPosStep(|h|);
      ghost var text, out := matcher.text_buf[..], dst[..];
      dst[op] := c;
      matcher.text_buf[r] := c;
      assert dst[..] == out[op := c] && matcher.text_buf[..] == text[r := c];
      r' := (r + 1) % N;
    }

    /** Copy a match out of the window, unless the output is full. */
    method CopyMatch(dst: array<Byte>, dstlen: nat, op0: nat, r0: nat, dist: nat, len: nat, ghost h: seq<Byte>)
      returns (ok: bool, op: nat, r: nat)
      requires Allocated() && dst != matcher.text_buf && op0 <= dstlen <= dst.Length && r0 == RingPos(|h|)
      requires 1 <= dist <= N <= |h|
      requires RingHolds(matcher.text_buf[..], h) && Emitted(dst[..], h, op0)
      modifies dst, matcher.text_buf
      ensures ok ==> op == op0 + len <= dstlen && RingHolds(matcher.text_buf[..], Copy(h, len, dist))
      ensures ok ==> Emitted(dst[..], Copy(h, len, dist), op) && r == RingPos(|h| + len)
      ensures !ok ==> op == dstlen && |h| + len > N + dstlen && Emitted(dst[..], Copy(h, len, dist)[..N + dstlen], dstlen)
    {
      hide RingPos, RingHolds, Emitted, Copy;
      CopyNone(h, dist);
      RingPosBack(|h|, dist);
      op, r := op0, r0;
      var i := (r - dist) % N;
      var k := 0;
      while k < len
        invariant 0 <= k <= len && op == op0 + k <= dstlen && r == RingPos(|h| + k)
        invariant RingHolds(matcher.text_buf[..], Copy(h, k, dist)) && Emitted(dst[..], Copy(h, k, dist), op)
      {
        ghost var g := Copy(h, k, dist);
        CopyMore(h, k, dist);
        RingShift(|h| - dist, k);
        RingRead(matcher.text_buf[..], g, |h| + k - dist);
        var c := matcher.text_buf[(i + k) % N];
        assert c == g[|h| + k - dist];
        if op >= dstlen {
          CopyPrefix(h, k, len, dist);
          EmittedFull(dst[..], g, Copy(h, len, dist), op);
          return false, op, r;
        }
        r := Emit(dst, op, r, c, g);
        op := op + 1;
        k := k + 1;
      }
      ok := true;
    }

    /** The window and the output hold what toks expand to. */
    ghost predicate Written(h0: seq<Byte>, toks: seq<Token>, dst: array<Byte>, dstlen: nat, op: nat, r: nat)
      reads matcher.text_buf, dst
    {
      && AllTokens(toks) && |h0| == N && op <= dstlen <= dst.Length
      && RingHolds(matcher.text_buf[..], Expand(h0, toks))
      && Emitted(dst[..], Expand(h0, toks), op)
      && r == RingPos(|Expand(h0, toks)|)
    }

    /** Decode one token and perform it. */
    method DecodeStep(dec: Decoder, dst: array<Byte>, dstlen: nat, op0: nat, r0: nat,
                      ghost h0: seq<Byte>, ghost toks: seq<Token>)
      returns (ok: bool, op: nat, r: nat, ghost t: Token)
      requires ApartDecoder(dec) && Decoded(dec, toks) && Written(h0, toks, dst, dstlen, op0, r0) && op0 < dstlen
      requires (dst as object) !in tables.Repr + matcher.Repr && dst as object != dec
      modifies dec, tables.Repr, matcher.text_buf, dst
      ensures AllTokens(toks + [t]) && Decoded(dec, toks + [t])
      ensures ok ==> Written(h0, toks + [t], dst, dstlen, op, r) && op0 < op <= dstlen
      ensures !ok ==> Decompressed(h0, toks + [t], dst[..dstlen], false)
      ensures |Expand(h0, toks)| < N + dstlen
    {
      hide Decoded, RingHolds, RingPos;
      ghost var h := Expand(h0, toks);
      var c, dist;
      c, dist, t := DecodeToken(dec, toks);
      ExpandSnoc(h0, toks, t);
      if c < 256 {
        r := Emit(dst, op0, r0, c, h);
        ok, op := true, op0 + 1;
      } else {
        ok, op, r := CopyMatch(dst, dstlen, op0, r0, dist, c - 255 + THRESHOLD, h);
        if !ok { CutOff(h0, toks, t, dst[..], dstlen); }
      }
    }

    /** Decode one token: its character and, for a match, its distance. */
    method DecodeToken(dec: Decoder, ghost toks: seq<Token>) returns (c: nat, dist: nat, ghost t: Token)
      requires ApartDecoder(dec) && Decoded(dec, toks)
      modifies dec, tables.Repr
      ensures IsToken(t) && AllTokens(toks + [t]) && Decoded(dec, toks + [t])
      ensures t == if c < 256 then Lit(c) else Match(c - 255 + THRESHOLD, dist)
    {
      hide Decoder.Valid, Decoder.ReaderValid, Tables.Valid, After, WellFormed, Renorm, Next, CodePos, StepSym;
      ghost var st := After(toks);
      c := DecodeChar(dec, st);
      dist := 0;
      if c < 256 {
        t := Lit(c);
      } else {
        var i := DecodePos(dec);
        dist := i + 1;
        t := Match(c - 255 + THRESHOLD, dist);
      }
      AfterSnoc(toks, t);
    }

    method Blank() returns (r: nat)
      requires Allocated()
      modifies matcher.text_buf
      ensures RingHolds(matcher.text_buf[..], StartWindow(old(matcher.text_buf[N - F..N])))
      ensures r == RingPos(N)
    {
      var i := 0;
      while i < N - F
        invariant 0 <= i <= N - F
        invariant forall j :: 0 <= j < i ==> matcher.text_buf[j] == BLANK
        invariant forall j :: N - F <= j < N ==> matcher.text_buf[j] == old(matcher.text_buf[j])
      {
        matcher.text_buf[i] := BLANK;
        i := i + 1;
      }
      assert matcher.text_buf[N - F..N] == old(matcher.text_buf[N - F..N]);
      StartHolds(matcher.text_buf[..]);
      r := N - F;
    }

    lemma DecodedStart(dec: Decoder)
      requires dec.Valid() && tables.Valid() && tables.Abs() == InitialModel()
      requires dec.CoderOf() == Coder(0, 0, Q4, 0)
      ensures Decoded(dec, [])
    {
    }

    lemma DecodedCodes(dec: Decoder, toks: seq<Token>)
      requires Decoded(dec, toks)
      ensures AllTokens(toks) && Codes(toks, dec.src)
    {
      hide Decoder.Valid, Tables.Valid, After, Contains;
      dec.ContainsCode();
    }

    /** Decompress a block. The tokens found are a ghost result. */
    method Decode(src: seq<Byte>, dst: array<Byte>, dstlen: nat) returns (ret: int, ghost toks: seq<Token>)
      requires Allocated() && dstlen <= dst.Length
      requires (dst as object) !in tables.Repr + matcher.Repr && dst as object != matcher
      modifies tables.Repr, matcher.text_buf, dst
      ensures ret == 0 || ret == -1
      ensures Codes(toks, src)
      ensures Decompressed(StartWindow(old(matcher.text_buf[N - F..N])), toks, dst[..dstlen], ret == 0)
    {
      hide Decoded, Decoder.Valid, Tables.Valid, RingHolds, Apply, Codes, Written, Decompressed, Expand, RingPos, Decoder.CoderOf;
      ghost var h0 := StartWindow(matcher.text_buf[N - F..N]);
      var dec := new Decoder(src);
      dec.Start();
      tables.StartModel();
      var r := Blank();
      toks := [];
      DecodedStart(dec);
      var op := 0;
      WrittenStart(h0, dst, dstlen);
      ghost var front: seq<Token> := [];
      while op < dstlen
        invariant ApartDecoder(dec) && dec.src == src && Decoded(dec, toks) && Written(h0, toks, dst, dstlen, op, r)
        invariant op <= dstlen && AllTokens(front)
        decreases dstlen - op
        invariant toks != [] ==> front == toks[..|toks| - 1] && |Expand(h0, front)| < N + dstlen
      {
        var ok;
        ghost var t;
        ok, op, r, t := DecodeStep(dec, dst, dstlen, op, r, h0, toks);
        front, toks := toks, toks + [t];
        DecodedCodes(dec, toks);
        if !ok { return -1, toks; }
      }
      DecodedCodes(dec, toks);
      WrittenEnd(h0, toks, dst, dstlen, r);
      ret := 0;
    }

    lemma WrittenStart(h0: seq<Byte>, dst: array<Byte>, dstlen: nat)
      requires |h0| == N && RingHolds(matcher.text_buf[..], h0) && dstlen <= dst.Length
      ensures Written(h0, [], dst, dstlen, 0, RingPos(N))
    {
    }

    lemma WrittenEnd(h0: seq<Byte>, toks: seq<Token>, dst: array<Byte>, dstlen: nat, r: nat)
      requires Written(h0, toks, dst, dstlen, dstlen, r)
      requires toks != [] ==> |Expand(h0, toks[..|toks| - 1])| < N + dstlen
      ensures Decompressed(h0, toks, dst[..dstlen], true)
    {
      assert Expand(h0, toks)[..N] == h0;
    }

    /** Compress and decompress on the same static state. */
    method RoundTrip(src: seq<Byte>, packed: array<Byte>, out: array<Byte>) returns (ret: int)
      requires Allocated() && src != [] && out.Length == |src| && packed != out
      requires (packed as object) !in tables.Repr + matcher.Repr && packed as object != matcher
      requires (out as object) !in tables.Repr + matcher.Repr && out as object != matcher
      modifies tables.Repr, matcher, matcher.Repr, packed, out
      ensures ret == 0 ==> out[..] == src
    {
      hide Parses, Codes, Finished, Decompressed, After;
      var done, written;
      ghost var toks;
      ret, done, written, toks := Encode(src, packed, packed.Length);
      if ret == 0 {
        ghost var rest := matcher.text_buf[N - F..N];
        ghost var found;
        var dret;
        dret, found := Decode(packed[..written], out, |src|);
        RoundTripTokens(src, toks, packed[..written], rest, found, out[..|src|], dret == 0);
        assert out[..|src|] == out[..];
        assert dret == 0;
      }
    }
  }

  /** The codec's promise: a block that was compressed with success is decompressed with
      success, to itself, whatever the window held before. */
  lemma RoundTripTokens(src: seq<Byte>, toks: seq<Token>, bytes: seq<Byte>,
                        rest: seq<Byte>, found: seq<Token>, out: seq<Byte>, whole: bool)
    requires Parses(Stream(src), toks, |Stream(src)|)
    requires AllTokens(toks) && Finished(After(toks).coder, bytes)
    requires |rest| == F && Codes(found, bytes) && Decompressed(StartWindow(rest), found, out, whole)
    requires |out| == |src|
    ensures found == toks && whole && out == src
  {
    hide Parses, Finished, Codes, After, Stream, Contains;
    var h := StartWindow(rest);
    FinishedCodes(toks, bytes);
    CodesTokens(found, bytes);
    StreamExpands(src, toks, rest);
    if |found| > |toks| {
      CodeDeterminesTokens(toks, found, |toks|, bytes);
      assert toks == found[..|toks|] == found[..|found| - 1][..|toks|];
      ExpandPrefix(h, found[..|found| - 1], |toks|);
      assert false;
    } else {
      CodeDeterminesTokens(toks, found, |found|, bytes);
      assert found == toks[..|found|];
      ExpandPrefix(h, toks, |found|);
      if |found| < |toks| {
        ExpandGrows(h, toks, |found|);
        assert false;
      }
      assert toks == found;
      assert (h + out)[|h|..] == out && (h + src)[|h|..] == src;
    }
  }

  lemma FinishedCodes(toks: seq<Token>, bytes: seq<Byte>)
    requires AllTokens(toks) && Finished(After(toks).coder, bytes)
    ensures Codes(toks, bytes)
  {
    hide After, Finished;
    FinishedContained(After(toks).coder, bytes);
  }

  lemma CodesTokens(toks: seq<Token>, bytes: seq<Byte>)
    requires Codes(toks, bytes)
    ensures AllTokens(toks)
  {
  }

  lemma StreamExpands(src: seq<Byte>, toks: seq<Token>, rest: seq<Byte>)
    requires Parses(Stream(src), toks, |Stream(src)|) && |rest| == F
    ensures AllTokens(toks) && Expand(StartWindow(rest), toks) == StartWindow(rest) + src
  {
    hide Parses;
    var s := Stream(src);
    ParsesExpand(rest, s, toks, |s|);
    assert rest + s[..N - F] == StartWindow(rest);
    assert rest + s[..|s|] == StartWindow(rest) + src;
  }
}
