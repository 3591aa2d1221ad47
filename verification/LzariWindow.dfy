/** The sliding window: how the ring buffer and its mirrored tail hold the stream of
    initial blanks followed by the source, and what a match in it means. */
module LzariWindow {
  import opened Buffers
  import opened LzariModel
  import opened LzariCode
  import opened LzariTree
  import opened LzariIndex
  import opened LzariTokens

  const BLANK: Byte := 32

  /** The stream that encoder and decoder share. */
  function Stream(src: seq<Byte>): (s: seq<Byte>)
    ensures |s| == N - F + |src|
  {
    seq(N - F, _ => BLANK) + src
  }

  /** From n on, len bytes equal those dist bytes earlier. */
  ghost predicate Repeats(s: seq<Byte>, n: nat, len: nat, dist: nat) {
    && dist <= n && n + len <= |s|
    && forall i :: n <= i < n + len ==> s[i] == s[i - dist]
  }

  /** The token reproduces the stream at position n. */
  ghost predicate Genuine(s: seq<Byte>, n: nat, t: Token) {
    && IsToken(t) && n + TokenLen(t) <= |s|
    && match t
       case Lit(c) => s[n] == c
       case Match(len, dist) =>
         dist <= N - F && dist <= n && Repeats(s, n, len, dist)
  }

  /** The tokens reproduce the stream from the end of the blanks up to n. */
  ghost predicate Parses(s: seq<Byte>, ts: seq<Token>, n: nat)
    decreases |ts|
  {
    if ts == [] then n == N - F
    else
      var t := ts[|ts| - 1];
      TokenLen(t) <= n && Parses(s, ts[..|ts| - 1], n - TokenLen(t)) && Genuine(s, n - TokenLen(t), t)
  }

  lemma {:induction false} ParsesTokens(s: seq<Byte>, ts: seq<Token>, n: nat)
    requires Parses(s, ts, n)
    ensures AllTokens(ts) && n >= N - F && (ts != [] ==> n <= |s|)
  {
    if ts != [] {
      ParsesTokens(s, ts[..|ts| - 1], n - TokenLen(ts[|ts| - 1]));
      assert ts == ts[..|ts| - 1] + [ts[|ts| - 1]];
    }
  }

  lemma ParsesSnoc(s: seq<Byte>, ts: seq<Token>, n: nat, t: Token)
    requires Parses(s, ts, n) && Genuine(s, n, t)
    ensures Parses(s, ts + [t], n + TokenLen(t))
  {
    assert (ts + [t])[..|ts|] == ts;
  }

  lemma ParsesEnds(s: seq<Byte>, ts: seq<Token>, n: nat)
    requires Parses(s, ts, n)
    ensures ts == [] ==> n == N - F
    ensures ts != [] ==>
              var t := ts[|ts| - 1];
              IsToken(t) && TokenLen(t) <= n && Parses(s, ts[..|ts| - 1], n - TokenLen(t)) && Genuine(s, n - TokenLen(t), t)
  {
  }

  // ---------- parsing and expanding are inverse

  lemma {:induction false} CopyGenuine(w: seq<Byte>, s: seq<Byte>, n: nat, len: nat, dist: nat)
    requires 1 <= dist && Repeats(s, n, len, dist)
    ensures Copy(w + s[..n], len, dist) == w + s[..n + len]
  {
    if len > 0 {
      CopyGenuine(w, s, n, len - 1, dist);
      var p := w + s[..n + len - 1];
      var i := n + len - 1;
      assert p[|p| - dist] == s[i - dist] == s[i];
      assert s[..n + len] == s[..i] + [s[i]];
    }
  }

  lemma ApplyGenuine(w: seq<Byte>, s: seq<Byte>, n: nat, t: Token)
    requires |w| == F && n >= N - F && Genuine(s, n, t)
    ensures Apply(w + s[..n], t) == w + s[..n + TokenLen(t)]
  {
    match t
    case Lit(c) =>
      assert s[..n + 1] == s[..n] + [s[n]];
    case Match(len, dist) =>
      CopyGenuine(w, s, n, len, dist);
  }

  /** Whatever bytes precede the blanks, genuine tokens expand to the stream. */
  lemma {:induction false} ParsesExpand(w: seq<Byte>, s: seq<Byte>, ts: seq<Token>, n: nat)
    requires |w| == F && |s| >= N - F && Parses(s, ts, n)
    ensures AllTokens(ts) && n <= |s|
    ensures Expand(w + s[..N - F], ts) == w + s[..n]
  {
    hide Apply, Genuine, Parses, AllTokens, TokenLen;
    ParsesTokens(s, ts, n);
    ParsesEnds(s, ts, n);
    if ts != [] {
      var t := ts[|ts| - 1];
      ParsesTokens(s, ts[..|ts| - 1], n - TokenLen(t));
      ParsesExpand(w, s, ts[..|ts| - 1], n - TokenLen(t));
      ApplyGenuine(w, s, n - TokenLen(t), t);
    }
  }

  // ---------- the encoder's window

  /** Stream positions n+F-N..m are in the buffer; the ones that wrapped are also in the tail. */
  ghost predicate Loaded(text: seq<Byte>, s: seq<Byte>, n: nat, m: nat) {
    && IsText(text) && N - F <= n <= m <= |s| && m <= n + F
    && (forall j :: 0 <= j < m && n + F - N <= j ==> text[j % N] == s[j])
    && (forall j :: N <= j < m && n + F - N <= j && j % N < F - 1 ==> text[N + j % N] == s[j])
  }

  /** How far back from stream position n a buffer position lies. */
  function Back(n: nat, x: nat): (d: nat)
    requires x < N
    ensures d < N
  {
    var r := n % N;
    if x <= r then r - x else r - x + N
  }

  /** The subtraction masked with N - 1 is that distance. */
  lemma BackIsMod(n: nat, x: nat)
    requires x < N
    ensures (n % N - x) % N == Back(n, x)
    ensures Back(n, x) <= n ==> (n - Back(n, x)) % N == x
  {
  }

  lemma RingStep(n: nat)
    ensures (n + 1) % N == if n % N + 1 == N then 0 else n % N + 1
    ensures (n % N + 1) % N == (n + 1) % N
  {
  }

  lemma RingAhead(n: nat)
    ensures (n + F) % N == if n % N + F < N then n % N + F else n % N + F - N
  {
  }

  lemma TextAt(text: seq<Byte>, s: seq<Byte>, n: nat, m: nat, j: nat, k: nat)
    requires Loaded(text, s, n, m) && k < F && n + F - N <= j && j + k < m
    ensures text[j % N + k] == s[j + k]
  {
    if j % N + k < N {
      assert (j + k) % N == j % N + k;
    } else {
      assert (j + k) % N == j % N + k - N;
    }
  }

  /** A match found in the buffer is a match in the stream, as far as it is loaded. */
  lemma MatchGenuine(text: seq<Byte>, s: seq<Byte>, n: nat, m: nat, p: nat, len: nat)
    requires Loaded(text, s, n, m) && p < N && p != n % N && Back(n, p) <= N - F
    requires THRESHOLD < len <= Common(text, n % N, p) && n + len <= m
    ensures 1 <= Back(n, p) == (n % N - p) % N
    ensures Genuine(s, n, Match(len, Back(n, p)))
  {
    hide Common, Back;
    var r, d := n % N, Back(n, p);
    BackIsMod(n, p);
    BackSelf(n, p);
    assert m <= |s| && n + F >= m;
    hide Loaded;
    forall i | n <= i < n + len
      ensures s[i] == s[i - d]
    {
      var k := i - n;
      CommonByte(text, r, p, k);
      TextAt(text, s, n, m, n, k);
      TextAt(text, s, n, m, n - d, k);
    }
  }

  lemma BackSelf(n: nat, x: nat)
    requires x < N && x != n % N
    ensures Back(n, x) >= 1
  {
  }

  lemma CommonByte(text: seq<Byte>, r: nat, p: nat, k: nat)
    requires IsText(text) && r < N && p < N && k < Common(text, r, p)
    ensures k < F && text[r + k] == text[p + k]
  {
    hide Lcp;
    var u, v := StrAt(text, r), StrAt(text, p);
    assert u[..Lcp(u, v)][k] == v[..Lcp(u, v)][k];
  }

  /** The text after the oldest byte has been overwritten, in the tail as well. */
  function Store(text: seq<Byte>, x: nat, c: Byte): (r: seq<Byte>)
    requires IsText(text) && x < N
    ensures IsText(r)
  {
    if x < F - 1 then text[x := c][x + N := c] else text[x := c]
  }

  lemma StoreLoaded(text: seq<Byte>, s: seq<Byte>, n: nat, c: Byte)
    requires n + F < |s| && s[n + F] == c && Loaded(text, s, n, n + F)
    ensures Loaded(Store(text, (n + F) % N, c), s, n + 1, n + 1 + F)
  {
    var x := (n + F) % N;
    var text' := Store(text, x, c);
    forall j | 0 <= j < n + 1 + F && n + 1 + F - N <= j
      ensures text'[j % N] == s[j]
    {
      if j % N == x { assert j == n + F; }
    }
    forall j | N <= j < n + 1 + F && n + 1 + F - N <= j && j % N < F - 1
      ensures text'[N + j % N] == s[j]
    {
      if j % N == x { assert j == n + F; }
    }
  }

  /** Only strings that are no longer indexed contain the overwritten byte. */
  lemma StoreApart(text: seq<Byte>, n: nat, c: Byte, y: nat)
    requires IsText(text) && y < N && Back(n, y) < N - F
    ensures StrAt(Store(text, (n + F) % N, c), y) == StrAt(text, y)
  {
    var x := (n + F) % N;
    RingAhead(n);
    assert !(y <= x < y + F) && !(y <= x + N < y + F && x < F - 1);
  }

  lemma BackStep(n: nat, y: nat)
    requires y < N
    ensures Back(n, y) < N - 1 ==> Back(n + 1, y) == Back(n, y) + 1
    ensures Back(n, y) == N - F <==> y == (n + F) % N
    ensures Back(n, (n + 1) % N) == N - 1
    ensures Back(n, n % N) == 0
  {
    RingStep(n);
    RingAhead(n);
  }

  /** The remembered match is one with a string in the window. */
  ghost predicate MatchAt(text: seq<Byte>, n: nat, len: nat, pos: nat)
    requires IsText(text)
  {
    len > 0 ==> THRESHOLD < len <= F && exists p :: MatchWith(text, n, len, pos, p)
  }

  ghost predicate MatchWith(text: seq<Byte>, n: nat, len: nat, pos: nat, p: nat)
    requires IsText(text)
  {
    p < N && 1 <= Back(n, p) <= N - F && len <= Common(text, n % N, p) && pos == Back(n, p)
  }

  lemma BestIsMatch(text: seq<Byte>, n: nat, seen: set<nat>, len: nat, pos: nat)
    requires IsText(text) && BestMatch(text, n % N, seen, len, pos)
    requires forall y :: y in seen ==> y < N && 1 <= Back(n, y) <= N - F
    ensures MatchAt(text, n, len, pos)
  {
    if len > 0 {
      var p :| p in seen && p < N && Common(text, n % N, p) == len && pos == (n % N - p) % N;
      BackIsMod(n, p);
      assert MatchWith(text, n, len, pos, p);
    }
  }

  lemma TokenGenuine(text: seq<Byte>, s: seq<Byte>, n: nat, m: nat, found: nat, len: nat, pos: nat)
    requires Loaded(text, s, n, m) && MatchAt(text, n, found, pos) && THRESHOLD < len <= found && n + len <= m
    ensures Genuine(s, n, Match(len, pos))
  {
    var p :| MatchWith(text, n, found, pos, p);
    BackStep(n, p);
    MatchGenuine(text, s, n, m, p, len);
  }

  lemma LiteralGenuine(text: seq<Byte>, s: seq<Byte>, n: nat, m: nat)
    requires Loaded(text, s, n, m) && n < m
    ensures Genuine(s, n, Lit(text[n % N]))
  {
    TextAt(text, s, n, m, n, 0);
  }

  /** The window of n + 1 contains the window of n without its oldest string. */
  lemma WindowStep(n: nat, members: set<nat>)
    requires n >= N - F && forall y :: y in members ==> y < N && Back(n, y) <= N - F
    ensures forall y :: y in members - {(n + F) % N} ==> Back(n, y) < N - F && 1 <= Back(n + 1, y) <= N - F
    ensures (n + 1) % N !in members - {(n + F) % N}
  {
    BackStep(n, (n + 1) % N);
    forall y | y in members - {(n + F) % N}
      ensures Back(n, y) < N - F && 1 <= Back(n + 1, y) <= N - F
    {
      BackStep(n, y);
    }
  }

  // ---------- the decoder's window

  /** The last N bytes of the history are in the ring; the next one goes to RingPos. */
  ghost predicate RingHolds(text: seq<Byte>, h: seq<Byte>) {
    && IsText(text) && |h| >= N
    && forall j :: |h| - N <= j < |h| ==> text[RingPos(j)] == h[j]
  }

  function RingPos(j: nat): (x: nat)
    ensures x < N
  {
    (j + (N - F)) % N
  }

  lemma RingPosStep(j: nat)
    ensures (RingPos(j) + 1) % N == RingPos(j + 1)
  {
    RingStep(j + (N - F));
  }

  lemma RingPosBack(j: nat, dist: nat)
    requires dist <= j
    ensures (RingPos(j) - dist) % N == RingPos(j - dist)
  {
    assert (j + (N - F) - dist) % N == (RingPos(j) - dist) % N;
  }

  lemma RingShift(j: nat, k: nat)
    ensures (RingPos(j) + k) % N == RingPos(j + k)
  {
  }

  lemma RingPosDistinct(i: nat, j: nat)
    requires i <= j < i + N && RingPos(i) == RingPos(j)
    ensures i == j
  {
  }

  lemma RingRead(text: seq<Byte>, h: seq<Byte>, j: nat)
    requires RingHolds(text, h) && |h| - N <= j < |h|
    ensures text[RingPos(j)] == h[j]
  {
  }

  /** Writing the next byte of the history over its oldest one. */
  lemma RingWrite(text: seq<Byte>, h: seq<Byte>, c: Byte)
    requires RingHolds(text, h)
    ensures RingHolds(text[RingPos(|h|) := c], h + [c])
  {
    var text' := text[RingPos(|h|) := c];
    forall j | |h| + 1 - N <= j < |h| + 1
      ensures text'[RingPos(j)] == (h + [c])[j]
    {
      if RingPos(j) == RingPos(|h|) { RingPosDistinct(j, |h|); }
    }
  }

  lemma CopyNone(h: seq<Byte>, dist: nat)
    requires 1 <= dist <= |h|
    ensures Copy(h, 0, dist) == h
  {
  }

  lemma {:induction false} CopyMore(h: seq<Byte>, k: nat, dist: nat)
    requires 1 <= dist <= |h|
    ensures Copy(h, k + 1, dist) == Copy(h, k, dist) + [Copy(h, k, dist)[|h| + k - dist]]
  {
  }

  lemma {:induction false} CopyPrefix(h: seq<Byte>, k: nat, len: nat, dist: nat)
    requires 1 <= dist <= |h| && k <= len
    ensures Copy(h, k, dist) <= Copy(h, len, dist)
  {
    if k < len { CopyPrefix(h, k, len - 1, dist); }
  }

  /** Output position op holds exactly what the history has beyond the initial window. */
  ghost predicate Emitted(out: seq<Byte>, h: seq<Byte>, op: nat) {
    |h| == N + op && op <= |out| && out[..op] == h[N..]
  }

  /** A match that runs past the end of the output is cut off there. */
  lemma EmittedFull(out: seq<Byte>, h: seq<Byte>, full: seq<Byte>, op: nat)
    requires Emitted(out, h, op) && h <= full && |full| > |h|
    ensures |full| > N + op && Emitted(out, full[..N + op], op)
  {
  }

  lemma EmitMore(out: seq<Byte>, h: seq<Byte>, op: nat, c: Byte)
    requires Emitted(out, h, op) && op < |out|
    ensures Emitted(out[op := c], h + [c], op + 1)
  {
    assert out[op := c][..op + 1] == out[..op] + [c];
    assert (h + [c])[N..] == h[N..] + [c];
  }

  /** The window a decoder starts from: whatever the last F cells held, then blanks. */
  function StartWindow(rest: seq<Byte>): (h: seq<Byte>)
    requires |rest| == F
    ensures |h| == N
  {
    rest + seq(N - F, _ => BLANK)
  }

  lemma StartHolds(text: seq<Byte>)
    requires IsText(text) && forall j :: 0 <= j < N - F ==> text[j] == BLANK
    ensures RingHolds(text, StartWindow(text[N - F..N]))
    ensures RingPos(N) == N - F
  {
  }

  lemma {:induction false} ExpandSnoc(h: seq<Byte>, ts: seq<Token>, t: Token)
    requires AllTokens(ts) && IsToken(t) && |h| >= N
    ensures AllTokens(ts + [t])
    ensures Expand(h, ts + [t]) == Apply(Expand(h, ts), t)
  {
    assert (ts + [t])[..|ts|] == ts;
  }

  /** The result of decoding: the tokens' text, cut off where the output is full. */
  ghost predicate Decompressed(h: seq<Byte>, ts: seq<Token>, out: seq<Byte>, whole: bool) {
    && AllTokens(ts) && |h| == N
    && (ts != [] ==> |Expand(h, ts[..|ts| - 1])| < N + |out|)
    && (if whole then Expand(h, ts) == h + out
        else |Expand(h, ts)| > N + |out| && Expand(h, ts)[..N + |out|] == h + out)
  }

  lemma CutOff(h0: seq<Byte>, ts: seq<Token>, t: Token, out: seq<Byte>, dstlen: nat)
    requires AllTokens(ts) && IsToken(t) && AllTokens(ts + [t]) && |h0| == N && dstlen <= |out|
    requires |Expand(h0, ts)| < N + dstlen < |Expand(h0, ts + [t])|
    requires Emitted(out, Expand(h0, ts + [t])[..N + dstlen], dstlen)
    ensures Decompressed(h0, ts + [t], out[..dstlen], false)
  {
    assert (ts + [t])[..|ts|] == ts;
    var e := Expand(h0, ts + [t]);
    assert e[..N] == h0;
    assert e[..N + dstlen] == e[..N] + e[..N + dstlen][N..];
  }
}
