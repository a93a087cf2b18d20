/** Bytes, little-endian words and the two memory primitives (`sys_put_le16`,
    `memcpy`) that the packet code is written with. */
module Bytes {
  newtype byte = x: int | 0 <= x < 0x100
  type uint16 = x: int | 0 <= x < 0x1_0000

  datatype Option<+T> = None | Some(value: T)

  /** The two bytes `sys_put_le16` stores; the argument is truncated to 16 bits. */
  function Le16(v: int): (bytes: seq<byte>)
    ensures |bytes| == 2
  {
    [(v % 0x100) as byte, (v / 0x100 % 0x100) as byte]
  }

  function GetLe16(s: seq<byte>, at: nat): uint16
    requires at + 2 <= |s|
  {
    s[at] as int + 0x100 * s[at + 1] as int
  }

  lemma Le16RoundTrip(v: int)
    ensures GetLe16(Le16(v), 0) == v % 0x1_0000
  {
  }

  lemma Le16Read(s: seq<byte>, at: nat, v: uint16)
    requires at + 2 <= |s| && s[at..at + 2] == Le16(v)
    ensures GetLe16(s, at) == v
  {
    assert s[at] == s[at..at + 2][0] && s[at + 1] == s[at..at + 2][1];
  }

  /** The 16-bit words are exactly the pairs of bytes. */
  lemma Le16Surjective(lo: byte, hi: byte)
    ensures Le16(GetLe16([lo, hi], 0)) == [lo, hi]
  {
    var v := lo as int + 0x100 * hi as int;
    assert v % 0x100 == lo as int && v / 0x100 == hi as int;
  }

  lemma Le16Of(s: seq<byte>, v: uint16)
    requires |s| == 2
    ensures s == Le16(v) <==> GetLe16(s, 0) == v
  {
    Le16RoundTrip(v);
    Le16Surjective(s[0], s[1]);
    assert s == [s[0], s[1]];
  }

  lemma SliceOfSlice<T>(s: seq<T>, at: nat, n: nat, i: nat, j: nat)
    requires i <= j <= n && at + n <= |s|
    ensures s[at..at + n][i..j] == s[at + i..at + j]
  {
    var cut := s[at..at + n];
    assert forall k | 0 <= k < j - i :: cut[i..j][k] == cut[i + k] == s[at + i + k];
  }

  /** `buf` after `bytes` were copied to offset `at`. */
  function Patch(buf: seq<byte>, at: nat, bytes: seq<byte>): (r: seq<byte>)
    requires at + |bytes| <= |buf|
    ensures |r| == |buf|
  {
    buf[..at] + bytes + buf[at + |bytes|..]
  }

  /** Writing piece after piece from the start writes their concatenation. */
  lemma PatchExtend(buf: seq<byte>, a: seq<byte>, b: seq<byte>)
    requires |a| + |b| <= |buf|
    ensures Patch(Patch(buf, 0, a), |a|, b) == Patch(buf, 0, a + b)
  {
  }

  lemma PatchedStart(buf: seq<byte>, bytes: seq<byte>)
    requires |bytes| <= |buf|
    ensures Patch(buf, 0, bytes)[..|bytes|] == bytes
    ensures Patch(buf, 0, bytes)[|bytes|..] == buf[|bytes|..]
  {
  }

  /** Two sequences are equal exactly when they are with the same end behind them. */
  lemma SameBefore<T>(a: seq<T>, b: seq<T>, end: seq<T>)
    ensures a + end == b + end <==> a == b
  {
    if a + end == b + end {
      assert a == (a + end)[..|a|] && b == (b + end)[..|b|];
    }
  }

  function Zeros(n: nat): (z: seq<byte>)
    ensures |z| == n
  {
    seq(n, _ => 0)
  }

  lemma Regroup<T>(a: seq<T>, b: seq<T>, c: seq<T>)
    ensures (a + b) + c == a + (b + c)
  {
  }

  function Concat<T>(parts: seq<seq<T>>): seq<T> {
    if parts == [] then [] else parts[0] + Concat(parts[1..])
  }

  lemma {:induction false} ConcatAppend<T>(a: seq<seq<T>>, b: seq<seq<T>>)
    ensures Concat(a + b) == Concat(a) + Concat(b)
  {
    if a == [] {
      assert a + b == b;
    } else {
      ConcatAppend(a[1..], b);
      assert (a + b)[0] == a[0] && (a + b)[1..] == a[1..] + b;
      Regroup(a[0], Concat(a[1..]), Concat(b));
    }
  }

  /** `a` is obtained from `b` by leaving elements out. */
  ghost predicate Subsequence<T>(a: seq<T>, b: seq<T>) {
    a == [] || (b != [] && ((a[|a| - 1] == b[|b| - 1] && Subsequence(a[..|a| - 1], b[..|b| - 1]))
                            || Subsequence(a, b[..|b| - 1])))
  }

  lemma SubsequenceSnoc<T>(a: seq<T>, b: seq<T>, x: T)
    requires Subsequence(a, b)
    ensures Subsequence(a, b + [x])
    ensures Subsequence(a + [x], b + [x])
  {
    assert (b + [x])[..|b|] == b;
    assert (a + [x])[..|a|] == a;
  }

  lemma {:induction false} SubsequenceDropLast<T>(a: seq<T>, x: T, b: seq<T>)
    requires Subsequence(a + [x], b)
    ensures Subsequence(a, b)
    decreases |b|
  {
    assert (a + [x])[..|a|] == a;
    var y, init := b[|b| - 1], b[..|b| - 1];
    assert init + [y] == b;
    if x == y && Subsequence(a, init) {
      SubsequenceSnoc(a, init, y);
    } else {
      SubsequenceDropLast(a, x, init);
      SubsequenceSnoc(a, init, y);
    }
  }

  lemma {:induction false} SubsequenceTrans<T>(a: seq<T>, b: seq<T>, c: seq<T>)
    requires Subsequence(a, b) && Subsequence(b, c)
    ensures Subsequence(a, c)
    decreases |c|
  {
    if a != [] {
      var a0, b0, c0 := a[..|a| - 1], b[..|b| - 1], c[..|c| - 1];
      if Subsequence(b, c0) {
        SubsequenceTrans(a, b, c0);
      } else if Subsequence(a, b0) {
        SubsequenceTrans(a, b0, c0);
      } else {
        SubsequenceTrans(a0, b0, c0);
      }
    }
  }

  method PutLe16(v: int, a: array<byte>, at: nat)
    requires at + 2 <= a.Length
    modifies a
    ensures a[..] == Patch(old(a[..]), at, Le16(v))
  {
    a[at] := (v % 0x100) as byte;
    a[at + 1] := (v / 0x100 % 0x100) as byte;
  }

  /** `memcpy(dst + at, src, n)`: the regions must not overlap. */
  method MemCpy(dst: array<byte>, at: nat, src: array<byte>, n: nat)
    requires dst != src && n <= src.Length && at + n <= dst.Length
    modifies dst
    ensures dst[..] == Patch(old(dst[..]), at, src[..n])
  {
    forall i | 0 <= i < n {
      dst[at + i] := src[i];
    }
  }
}
