/** Bytes, 32-bit words and their little-endian encoding, and byte ranges laid over a buffer. */
module Words {
  const WORD_LIMIT: nat := 0x1_0000_0000

  type byte = x: nat | x < 256
  type uint32 = x: nat | x < WORD_LIMIT

  /** The number that a run of bytes stands for, least significant first. */
  function LeValue(s: seq<byte>): nat {
    if s == [] then 0 else s[0] + 0x100 * LeValue(s[1..])
  }

  lemma {:induction false} LeValueStep(s: seq<byte>, bound: nat)
    requires s != [] && LeValue(s[1..]) < bound
    ensures LeValue(s) == s[0] + 0x100 * LeValue(s[1..]) < 0x100 * bound
  {
  }

  lemma {:induction false} FourBytes(s: seq<byte>)
    requires |s| == 4
    ensures LeValue(s) == s[0] + 0x100 * (s[1] + 0x100 * (s[2] + 0x100 * s[3])) < WORD_LIMIT
  {
    assert s[1..][1..] == s[2..] && s[2..][1..] == s[3..] && s[3..][1..] == [];
    LeValueStep(s[3..], 1);
    LeValueStep(s[2..], 0x100);
    LeValueStep(s[1..], 0x1_0000);
    LeValueStep(s, 0x100_0000);
  }

  /** The word at offset `off` of a buffer. */
  function U32(b: seq<byte>, off: nat): uint32
    requires off + 4 <= |b|
  {
    FourBytes(b[off..off + 4]);
    LeValue(b[off..off + 4])
  }

  /** The last `k` base-256 digits of a number, least significant first. */
  function LeBytes(v: nat, k: nat): (b: seq<byte>)
    ensures |b| == k
  {
    if k == 0 then [] else [v % 0x100] + LeBytes(v / 0x100, k - 1)
  }

  /** A word as four bytes. */
  function Le(v: uint32): (b: seq<byte>)
    ensures |b| == 4
  {
    LeBytes(v, 4)
  }

  function Base(k: nat): nat {
    if k == 0 then 1 else 0x100 * Base(k - 1)
  }

  /** k digits are enough for every number below 256^k. */
  lemma {:induction false} LeBytesInverse(v: nat, k: nat)
    requires v < Base(k)
    ensures LeValue(LeBytes(v, k)) == v
  {
    if k > 0 {
      LeBytesInverse(v / 0x100, k - 1);
      assert LeBytes(v, k)[1..] == LeBytes(v / 0x100, k - 1);
    }
  }

  lemma LeIsInverse(v: uint32)
    ensures LeValue(Le(v)) == v
  {
    assert Base(2) == 0x1_0000 && Base(4) == WORD_LIMIT;
    LeBytesInverse(v, 4);
  }

  /** And every four bytes are those of the number they stand for. */
  lemma {:induction false} BytesOfValue(s: seq<byte>)
    ensures LeBytes(LeValue(s), |s|) == s
  {
    if s != [] {
      BytesOfValue(s[1..]);
      assert (s[0] + 0x100 * LeValue(s[1..])) / 0x100 == LeValue(s[1..]);
      assert s == [s[0]] + s[1..];
    }
  }

  lemma WordIs(b: seq<byte>, off: nat, v: uint32)
    requires off + 4 <= |b|
    ensures U32(b, off) == v <==> b[off..off + 4] == Le(v)
  {
    BytesOfValue(b[off..off + 4]);
    LeIsInverse(v);
  }

  /** A word reads back from wherever its four bytes were put. */
  lemma LeReadsBack(v: uint32, b: seq<byte>, off: nat)
    requires off + 4 <= |b| && b[off..off + 4] == Le(v)
    ensures U32(b, off) == v
  {
    LeIsInverse(v);
  }

  /** `s` with the bytes `t` written over it from offset `off` on. */
  function Overlay(s: seq<byte>, off: nat, t: seq<byte>): (r: seq<byte>)
    requires off + |t| <= |s|
    ensures |r| == |s|
    ensures forall i :: 0 <= i < |s| ==> r[i] == if off <= i < off + |t| then t[i - off] else s[i]
  {
    s[..off] + t + s[off + |t|..]
  }

  /** Nothing outside [p, p + n) differs. */
  ghost predicate SameOutside(before: seq<byte>, after: seq<byte>, p: nat, n: nat) {
    |before| == |after| && forall k :: 0 <= k < |before| && !(p <= k < p + n) ==> after[k] == before[k]
  }

  /** The stretches [a, a + n) and [b, b + m) do not meet. */
  predicate Apart(a: nat, n: nat, b: nat, m: nat) {
    a + n <= b || b + m <= a
  }

  function Zeros(n: nat): (z: seq<byte>)
    ensures |z| == n && forall i :: 0 <= i < n ==> z[i] == 0
  {
    seq(n, _ => 0)
  }

  /** Two pieces written one behind the other. */
  lemma OverlayJoins(s: seq<byte>, off: nat, a: seq<byte>, b: seq<byte>, next: nat)
    requires off + |a| + |b| <= |s| && next == off + |a|
    ensures Overlay(Overlay(s, off, a), next, b) == Overlay(s, off, a + b)
  {
  }

  lemma OverlayNothing(s: seq<byte>, off: nat)
    requires off <= |s|
    ensures Overlay(s, off, []) == s
  {
  }

  lemma OverlayOutside(s: seq<byte>, off: nat, t: seq<byte>, n: nat)
    requires off + |t| <= |s| && |t| <= n
    ensures SameOutside(s, Overlay(s, off, t), off, n)
  {
  }

  lemma OverlayThere(s: seq<byte>, off: nat, t: seq<byte>)
    requires off + |t| <= |s|
    ensures Overlay(s, off, t)[off..off + |t|] == t
  {
  }

  lemma OverlayElsewhere(s: seq<byte>, off: nat, t: seq<byte>, i: nat, j: nat)
    requires off + |t| <= |s| && i <= j <= |s| && (j <= off || off + |t| <= i)
    ensures Overlay(s, off, t)[i..j] == s[i..j]
  {
  }

  lemma SliceOfEqual(a: seq<byte>, b: seq<byte>, lo: nat, hi: nat, i: nat, j: nat)
    requires lo <= i <= j <= hi <= |a| && hi <= |b| && a[lo..hi] == b[lo..hi]
    ensures a[i..j] == b[i..j]
  {
    forall k | i <= k < j ensures a[k] == b[k] {
      assert a[k] == a[lo..hi][k - lo] && b[k] == b[lo..hi][k - lo];
    }
  }

  /** Bytes a..b of a whole are bytes i..j of its middle part. */
  lemma SliceInside(whole: seq<byte>, head: seq<byte>, body: seq<byte>, tail: seq<byte>, a: nat, b: nat, i: nat, j: nat)
    requires whole == head + body + tail && i <= j <= |body| && a == |head| + i && b == |head| + j
    ensures whole[a..b] == body[i..j]
  {
  }

  lemma SliceOfPrefix(whole: seq<byte>, head: seq<byte>, tail: seq<byte>, i: nat, j: nat)
    requires whole == head + tail && i <= j <= |head|
    ensures whole[i..j] == head[i..j]
  {
  }

  lemma SliceKept(head: seq<byte>, tail: seq<byte>, i: nat, j: nat, x: seq<byte>)
    requires i <= j <= |head| && head[i..j] == x
    ensures (head + tail)[i..j] == x
  {
  }

  lemma SliceOfTail(whole: seq<byte>, head: seq<byte>, tail: seq<byte>, a: nat, b: nat, i: nat, j: nat)
    requires whole == head + tail && i <= j <= |tail| && a == |head| + i && b == |head| + j
    ensures whole[a..b] == tail[i..j]
  {
  }

  lemma SliceOfSuffix(whole: seq<byte>, head: seq<byte>, tail: seq<byte>, i: nat, j: nat)
    requires whole == head + tail && i == |head| && j == |whole|
    ensures whole[i..j] == tail
  {
  }

  lemma SliceOfSlice(whole: seq<byte>, lo: nat, hi: nat, i: nat, j: nat, a: nat, b: nat)
    requires lo <= hi <= |whole| && i <= j <= hi - lo && a == lo + i && b == lo + j
    ensures whole[lo..hi][i..j] == whole[a..b]
  {
  }

  /** The three fields of a record, from its first byte on. */
  lemma ThreeFields(r: seq<byte>, x: seq<byte>, y: seq<byte>, z: seq<byte>, i: nat, j: nat)
    requires r == x + y + z && i == |x| && j == |x| + |y|
    ensures r[0..i] == x && r[i..j] == y && r[j..|r|] == z
  {
  }
}
