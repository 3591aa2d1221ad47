/** Bytes, and facts about cutting, joining and updating sequences, each in a context of
    its own. */
module Buffers {
  type Byte = x: int | 0 <= x < 256

  datatype Option<+T> = None | Some(value: T)

  lemma Regroup<T>(a: seq<T>, b: seq<T>, c: seq<T>)
    ensures (a + b) + c == a + (b + c)
  {
  }

  lemma NothingMore<T>(a: seq<T>)
    ensures a + [] == a
  {
  }

  /** A part of the left half. */
  lemma SliceLeft<T>(a: seq<T>, b: seq<T>, i: nat, j: nat)
    requires i <= j <= |a|
    ensures (a + b)[i..j] == a[i..j]
  {
  }

  lemma Halves<T>(a: seq<T>, b: seq<T>)
    ensures (a + b)[..|a|] == a && (a + b)[|a|..] == b
  {
  }

  /** A cut of a joined sequence, in its left or in its right part. */
  lemma CutLeft<T>(a: seq<T>, b: seq<T>, n: nat)
    requires n <= |a|
    ensures (a + b)[..n] == a[..n] && (a + b)[n..] == a[n..] + b
  {
  }

  lemma CutRight<T>(a: seq<T>, b: seq<T>, i: nat)
    requires i <= |b|
    ensures (a + b)[..|a| + i] == a + b[..i] && (a + b)[|a| + i..] == b[i..]
  {
  }

  lemma UpdateLeft<T>(a: seq<T>, b: seq<T>, i: nat, v: T)
    requires i < |a|
    ensures (a + b)[i := v] == a[i := v] + b
  {
  }

  lemma UpdateRight<T>(a: seq<T>, b: seq<T>, i: nat, v: T)
    requires i < |b|
    ensures (a + b)[|a| + i := v] == a + b[i := v]
  {
  }

  lemma UpdateTake<T>(s: seq<T>, i: nat, v: T, n: nat)
    requires i < n <= |s|
    ensures s[i := v][..n] == s[..n][i := v] && s[i := v][n..] == s[n..]
  {
  }

  lemma UpdateOutside<T>(s: seq<T>, i: nat, v: T, a: nat, b: nat)
    requires i < a <= b <= |s|
    ensures s[i := v][a..b] == s[a..b]
  {
  }

  lemma Whole<T>(s: seq<T>, n: nat)
    requires n <= |s|
    ensures s[..n] + s[n..] == s
  {
  }

  /** A part of a part. */
  lemma PartOf<T>(buf: seq<T>, pos: nat, s: seq<T>, i: nat, j: nat)
    requires pos + |s| <= |buf| && buf[pos..pos + |s|] == s && i <= j <= |s|
    ensures buf[pos + i..pos + j] == s[i..j]
  {
    forall k: nat | k < |s| ensures buf[pos + k] == s[k] { assert buf[pos..pos + |s|][k] == s[k]; }
  }

  // ---------- counting

  /** Different numbers from a set are no more than it has. */
  lemma {:induction false} DistinctFit(s: seq<nat>, x: set<nat>)
    requires (forall i :: 0 <= i < |s| ==> s[i] in x) && forall i, j :: 0 <= i < j < |s| ==> s[i] != s[j]
    ensures |s| <= |x|
  {
    if s != [] {
      var front, last := s[..|s| - 1], s[|s| - 1];
      DistinctFit(front, x - {last});
    }
  }

  function Below(n: nat): (s: set<nat>)
    ensures |s| == n && forall x: nat :: x in s <==> x < n
  {
    if n == 0 then {} else Below(n - 1) + {n - 1}
  }
}
