/** Service UUIDs: parsing a hex string, deriving a characteristic's id from a base, and
    comparison. 128-bit values are kept least significant byte first. */
module ServiceUuids {
  import opened Bytes

  const UUID_SIZE := 16
  const UUID_16_BASE_OFFSET := 12

  datatype Uuid = Uuid16(short: uint16) | Uuid128(val: seq<byte>)

  predicate ValidUuid(u: Uuid) {
    u.Uuid128? ==> |u.val| == UUID_SIZE
  }

  // ---------- hex strings ----------

  newtype nibble = x: int | 0 <= x < 16

  function DigitValue(c: char): Option<nibble> {
    if '0' <= c <= '9' then Some((c - '0') as nibble)
    else if 'a' <= c <= 'f' then Some((c - 'a') as nibble + 10)
    else if 'A' <= c <= 'F' then Some((c - 'A') as nibble + 10)
    else None
  }

  predicate IsHex(s: string) {
    forall i | 0 <= i < |s| :: DigitValue(s[i]).Some?
  }

  function Digits(s: string): (d: seq<nibble>)
    requires IsHex(s)
    ensures |d| == |s|
  {
    seq(|s|, i requires 0 <= i < |s| => DigitValue(s[i]).value)
  }

  function ByteOf(hi: nibble, lo: nibble): byte {
    (16 * hi as int + lo as int) as byte
  }

  function Pairs(d: seq<nibble>): (b: seq<byte>)
    ensures |b| == |d| / 2
  {
    if |d| < 2 then [] else [ByteOf(d[0], d[1])] + Pairs(d[2..])
  }

  /** The bytes `hex2bin` converts; an odd number of digits counts as if a zero led them. */
  function HexBytes(d: seq<nibble>): (b: seq<byte>)
    ensures |b| == (|d| + 1) / 2
  {
    Pairs(Padded(d))
  }

  function Padded(d: seq<nibble>): seq<nibble> {
    if |d| % 2 == 1 then [0] + d else d
  }

  function Reverse(s: seq<byte>): (r: seq<byte>)
    ensures |r| == |s|
    ensures forall i | 0 <= i < |s| :: r[i] == s[|s| - 1 - i]
  {
    if s == [] then [] else Reverse(s[1..]) + [s[0]]
  }

  /** A full UUID from its string form; anything but 31 or 32 hex digits is refused. */
  function Parse(s: string): Option<Uuid> {
    if IsHex(s) && (|s| + 1) / 2 == UUID_SIZE then Some(Uuid128(Reverse(HexBytes(Digits(s))))) else None
  }

  /** The id with `short` in the place of bytes 12 and 13. */
  function Derive(base: Uuid, short: uint16): Uuid
    requires base.Uuid128? && ValidUuid(base)
  {
    Uuid128(Patch(base.val, UUID_16_BASE_OFFSET, Le16(short)))
  }

  /** The 16-bit form stands for this 128-bit value. */
  function Expand(u: Uuid): seq<byte> {
    match u
    case Uuid16(short) => [0xFB, 0x34, 0x9B, 0x5F, 0x80, 0, 0, 0x80, 0, 0x10, 0, 0] + Le16(short) + [0, 0]
    case Uuid128(val) => val
  }

  function SameUuid(a: Uuid, b: Uuid): bool {
    if a.Uuid16? && b.Uuid16? then a.short == b.short else Expand(a) == Expand(b)
  }

  // ---------- patching commutes with parsing ----------

  function HexDigit(v: nat): (c: char)
    requires v < 16
    ensures DigitValue(c) == Some(v as nibble)
  {
    if v < 10 then '0' + v as char else 'a' + (v - 10) as char
  }

  /** Four digits, most significant first. */
  function HexShort(v: uint16): (s: string)
    ensures |s| == 4 && IsHex(s)
  {
    [HexDigit(v / 4096), HexDigit(v / 256 % 16), HexDigit(v / 16 % 16), HexDigit(v % 16)]
  }

  lemma {:induction false} PairsConcat(a: seq<nibble>, b: seq<nibble>, n: nat)
    requires |a| == 2 * n
    ensures Pairs(a + b) == Pairs(a) + Pairs(b)
    decreases n
  {
    if n == 0 {
      assert a + b == b;
    } else {
      PairsConcat(a[2..], b, n - 1);
      assert (a + b)[2..] == a[2..] + b;
    }
  }

  lemma OnePair(x: nibble, y: nibble)
    ensures Pairs([x, y]) == [ByteOf(x, y)]
  {
    assert Pairs([x, y]) == [ByteOf(x, y)] + Pairs([x, y][2..]);
  }

  lemma DigitsConcat(a: string, b: string)
    requires IsHex(a) && IsHex(b)
    ensures IsHex(a + b) && Digits(a + b) == Digits(a) + Digits(b)
  {
  }

  lemma HexShortBytes(v: uint16)
    ensures Pairs(Digits(HexShort(v))) == Reverse(Le16(v))
  {
    hide Pairs, Digits, HexShort, Reverse;
    var a, b, x, y := HexShortDigits(v);
    PairsConcat([a, b], [x, y], 1);
    OnePair(a, b);
    OnePair(x, y);
    NibblesOfWord(v);
    assert [a, b] + [x, y] == [a, b, x, y];
    assert Reverse(Le16(v)) == [Le16(v)[1], Le16(v)[0]];
  }

  lemma HexShortDigits(v: uint16) returns (a: nibble, b: nibble, x: nibble, y: nibble)
    ensures Digits(HexShort(v)) == [a, b, x, y]
    ensures a as int == v / 4096 && b as int == v / 256 % 16 && x as int == v / 16 % 16 && y as int == v % 16
  {
    hide HexDigit, DigitValue;
    var d := Digits(HexShort(v));
    a, b, x, y := d[0], d[1], d[2], d[3];
  }

  lemma NibblesOfWord(v: uint16)
    ensures v / 4096 < 16
    ensures 16 * (v / 4096) + v / 256 % 16 == v / 256 == v / 0x100 % 0x100
    ensures 16 * (v / 16 % 16) + v % 16 == v % 0x100
  {
  }

  lemma {:induction false} ReverseConcat(a: seq<byte>, b: seq<byte>)
    ensures Reverse(a + b) == Reverse(b) + Reverse(a)
  {
  }

  lemma ReverseTwice(a: seq<byte>)
    ensures Reverse(Reverse(a)) == a
  {
  }

  lemma PatchedPairs(d: seq<nibble>, h: seq<nibble>, short: uint16)
    requires |d| == 32 && h == Digits(HexShort(short))
    ensures Reverse(Pairs(d[..4] + (h + d[8..]))) == Patch(Reverse(Pairs(d)), UUID_16_BASE_OFFSET, Le16(short))
  {
    var a, m, z := d[..4], d[4..8], d[8..];
    assert d == a + (m + z);
    PairsConcat(m, z, 2);
    PairsConcat(a, m + z, 2);
    PairsConcat(h, z, 2);
    PairsConcat(a, h + z, 2);
    HexShortBytes(short);
    MiddleReplaced(Pairs(a), Pairs(m), Le16(short), Pairs(z));
  }

  /** Parsing, reversing and then patching bytes 12 and 13 gives the id of the string in which
      digits 4 to 7 were replaced by the short id in hex. */
  lemma PatchCommutesWithParse(s: string, short: uint16)
    requires |s| == 32 && IsHex(s)
    ensures Parse(s).Some?
    ensures Parse(s[..4] + HexShort(short) + s[8..]) == Some(Derive(Parse(s).value, short))
  {
    var h := HexShort(short);
    DigitsConcat(s[..4], h);
    DigitsConcat(s[..4] + h, s[8..]);
    var d := Digits(s);
    assert Digits(s[..4]) == d[..4] && Digits(s[8..]) == d[8..];
    assert d[..4] + Digits(h) + d[8..] == d[..4] + (Digits(h) + d[8..]);
    PatchedPairs(d, Digits(h), short);
  }

  lemma MiddleReplaced(x: seq<byte>, y: seq<byte>, le: seq<byte>, w: seq<byte>)
    requires |y| == |le|
    ensures Reverse(x + (Reverse(le) + w)) == Patch(Reverse(x + (y + w)), |w|, le)
  {
    ReverseConcat(x, y + w);
    ReverseConcat(y, w);
    ReverseConcat(x, Reverse(le) + w);
    ReverseConcat(Reverse(le), w);
    ReverseTwice(le);
  }

  /** A string of 31 digits stands for the one with a zero in front. */
  lemma OddStringIsPadded(s: string)
    requires |s| == 31 && IsHex(s)
    ensures Parse(s).Some? && Parse("0" + s) == Parse(s)
  {
    DigitsConcat("0", s);
    assert Digits("0") == [0];
  }

  /** Ids derived from one base are the same exactly when their short ids are. */
  lemma DerivedSameIff(base: Uuid, a: uint16, b: uint16)
    requires base.Uuid128? && ValidUuid(base)
    ensures SameUuid(Derive(base, a), Derive(base, b)) <==> a == b
  {
    assert Derive(base, a).val[12..14] == Le16(a);
    assert Derive(base, b).val[12..14] == Le16(b);
    Le16RoundTrip(a);
    Le16RoundTrip(b);
  }

  /** Comparison is equality of the 128-bit values the ids stand for. */
  lemma SameUuidIff(a: Uuid, b: Uuid)
    ensures SameUuid(a, b) <==> Expand(a) == Expand(b)
  {
    if a.Uuid16? && b.Uuid16? {
      assert Expand(a)[12..14] == Le16(a.short);
      assert Expand(b)[12..14] == Le16(b.short);
      Le16RoundTrip(a.short);
      Le16RoundTrip(b.short);
    }
  }

  // ---------- byte by byte ----------

  const LOWER := "0123456789abcdef"
  const UPPER := "0123456789ABCDEF"

  /** `c` is the hexadecimal digit for `v`. */
  predicate IsDigit(c: char, v: nat) {
    v < 16 && (c == LOWER[v] || c == UPPER[v])
  }

  lemma DigitByTable(c: char, v: nat)
    requires IsDigit(c, v)
    ensures v < 16 && DigitValue(c) == Some(v as nibble)
  {
  }

  lemma DigitInTable(c: char)
    ensures DigitValue(c).Some? <==> c in LOWER || c in UPPER
  {
    if DigitValue(c).Some? {
      var v := DigitValue(c).value as nat;
      assert c == LOWER[v] || c == UPPER[v];
    }
  }

  lemma {:induction false} PairAt(d: seq<nibble>, i: nat)
    requires 2 * i + 1 < |d|
    ensures Pairs(d)[i] == ByteOf(d[2 * i], d[2 * i + 1])
  {
    if i > 0 {
      PairAt(d[2..], i - 1);
    }
  }

  /** Exactly the strings of 31 or 32 hexadecimal digits are ids. */
  lemma ParsesIff(s: string)
    ensures Parse(s).Some? <==>
            (|s| == 31 || |s| == 32) && forall k | 0 <= k < |s| :: s[k] in LOWER || s[k] in UPPER
  {
    hide HexBytes, Reverse;
    forall k | 0 <= k < |s|
      ensures DigitValue(s[k]).Some? <==> s[k] in LOWER || s[k] in UPPER
    {
      DigitInTable(s[k]);
    }
  }

  /** Byte `i` of an id of 32 digits, counted from the least significant one, is the pair of
      digits at `30 - 2 * i`. */
  lemma ParsedBytes(s: string, i: nat, hi: nat, lo: nat)
    requires |s| == 32 && i < 16 && Parse(s).Some?
    requires IsDigit(s[30 - 2 * i], hi) && IsDigit(s[31 - 2 * i], lo)
    ensures |Parse(s).value.val| == 16 && Parse(s).value.val[i] as int == 16 * hi + lo
  {
    hide IsDigit, DigitValue, Pairs, Reverse;
    DigitByTable(s[30 - 2 * i], hi);
    DigitByTable(s[31 - 2 * i], lo);
    PairAt(Digits(s), 15 - i);
  }

  /** In the order of its text, most significant byte first, the 16-bit form stands for
      0000xxxx-0000-1000-8000-00805F9B34FB. */
  lemma ShortForm(short: uint16)
    ensures Reverse(Expand(Uuid16(short)))
         == [0, 0, (short / 256) as byte, (short % 256) as byte, 0, 0, 0x10, 0,
             0x80, 0, 0, 0x80, 0x5F, 0x9B, 0x34, 0xFB]
  {
    hide Reverse;
    assert Le16(short)[0] as int == short % 256 && Le16(short)[1] as int == short / 256;
  }

  // ---------- the object ----------

  /** `sys_mem_swap`: reverse a buffer in place. */
  method MemSwap(a: array<byte>)
    modifies a
    ensures a[..] == Reverse(old(a[..]))
  {
    var n, i := a.Length, 0;
    while i < n / 2
      invariant 0 <= i <= n / 2
      invariant forall k | 0 <= k < i :: a[k] == old(a[n - 1 - k]) && a[n - 1 - k] == old(a[k])
      invariant forall k | i <= k < n - i :: a[k] == old(a[k])
    {
      a[i], a[n - 1 - i] := a[n - 1 - i], a[i];
      i := i + 1;
    }
  }

  lemma HexBytesSnoc(d: seq<nibble>, x: nibble, y: nibble)
    ensures HexBytes(d + [x, y]) == HexBytes(d) + [ByteOf(x, y)]
  {
    var p := Padded(d);
    assert Padded(d + [x, y]) == p + [x, y];
    PairsConcat(p, [x, y], |p| / 2);
    OnePair(x, y);
  }

  lemma DigitsSnoc(s: string, n: nat)
    requires n + 2 <= |s| && IsHex(s[..n]) && DigitValue(s[n]).Some? && DigitValue(s[n + 1]).Some?
    ensures IsHex(s[..n + 2])
    ensures Digits(s[..n + 2]) == Digits(s[..n]) + [DigitValue(s[n]).value, DigitValue(s[n + 1]).value]
  {
    assert forall i | 0 <= i < n :: s[..n + 2][i] == s[..n][i];
  }

  ghost predicate Converted(s: string, from: nat, a: array<byte>, at: nat)
    reads a
  {
    && from <= |s| && at <= a.Length && IsHex(s[..from])
    && a[..at] == HexBytes(Digits(s[..from]))
  }

  method ConvertPair(s: string, from: nat, a: array<byte>, at: nat) returns (ok: bool)
    requires Converted(s, from, a, at) && from + 2 <= |s| && at < a.Length
    modifies a
    ensures ok ==> Converted(s, from + 2, a, at + 1)
    ensures !ok ==> !IsHex(s)
  {
    var hi, lo := DigitValue(s[from]), DigitValue(s[from + 1]);
    if hi == None || lo == None {
      return false;
    }
    DigitsSnoc(s, from);
    HexBytesSnoc(Digits(s[..from]), hi.value, lo.value);
    ghost var before := a[..at];
    a[at] := ByteOf(hi.value, lo.value);
    assert a[..at + 1] == before + [a[at]];
    return true;
  }

  method ConvertSingle(s: string, a: array<byte>) returns (ok: bool)
    requires |s| > 0 && a.Length > 0
    modifies a
    ensures ok ==> Converted(s, 1, a, 1)
    ensures !ok ==> !IsHex(s)
  {
    var lo := DigitValue(s[0]);
    if lo == None {
      return false;
    }
    a[0] := ByteOf(0, lo.value);
    OnePair(0, lo.value);
    assert Padded(Digits(s[..1])) == [0, lo.value];
    return true;
  }

  method ConvertPairs(s: string, odd: nat, pairs: nat, a: array<byte>) returns (ok: bool)
    requires |s| == odd + 2 * pairs && odd + pairs <= a.Length && Converted(s, odd, a, odd)
    modifies a
    ensures ok ==> Converted(s, |s|, a, odd + pairs)
    ensures !ok ==> !IsHex(s)
  {
    hide Converted, IsHex;
    var from, at := odd, odd;
    ok := true;
    while ok && at < odd + pairs
      invariant odd <= at <= odd + pairs && from - odd == 2 * (at - odd)
      invariant ok ==> Converted(s, from, a, at)
      invariant !ok ==> !IsHex(s)
      decreases ok, pairs + odd - at
    {
      ok := ConvertPair(s, from, a, at);
      if ok {
        from, at := from + 2, at + 1;
      }
    }
  }

  /** `hex2bin`: how many bytes were written, 0 when a character is no digit or the buffer is
      too small. */
  method Hex2Bin(s: string, a: array<byte>) returns (n: nat)
    modifies a
    ensures if IsHex(s) && (|s| + 1) / 2 <= a.Length
            then n == (|s| + 1) / 2 && a[..n] == HexBytes(Digits(s)) else n == 0
  {
    var pairs, odd := |s| / 2, |s| % 2;
    Halves(|s|);
    if a.Length < pairs + odd {
      return 0;
    }
    var ok := true;
    if odd != 0 {
      ok := ConvertSingle(s, a);
    } else {
      assert Converted(s, 0, a, 0);
    }
    if ok {
      ok := ConvertPairs(s, odd, pairs, a);
    }
    if !ok {
      return 0;
    }
    AllConverted(s, a, odd + pairs);
    return pairs + odd;
  }

  lemma Halves(n: nat)
    ensures n == n % 2 + 2 * (n / 2) && (n + 1) / 2 == n % 2 + n / 2
  {
  }

  lemma AllConverted(s: string, a: array<byte>, at: nat)
    requires Converted(s, |s|, a, at)
    ensures IsHex(s) && a[..at] == HexBytes(Digits(s))
  {
    assert s[..|s|] == s;
  }

  class ServiceUuid {
    var uuid: Uuid

    constructor ()
      ensures uuid == Uuid16(0)
    {
      uuid := Uuid16(0);
    }

    method FromFullUuid(fullUuid: string) returns (ok: bool)
      modifies this
      ensures ok == Parse(fullUuid).Some?
      ensures uuid == if ok then Parse(fullUuid).value else old(uuid)
    {
      if '-' in fullUuid {
        return false;
      }
      var uuidBuf := new byte[UUID_SIZE];
      var ret := Hex2Bin(fullUuid, uuidBuf);
      if ret != UUID_SIZE {
        return false;
      }
      MemSwap(uuidBuf);
      uuid := Uuid128(uuidBuf[..]);
      return true;
    }

    method FromShortUuid(shortUuid: uint16)
      modifies this
      ensures uuid == Uuid16(shortUuid)
    {
      var buf := new byte[2];
      PutLe16(shortUuid, buf, 0);
      Le16RoundTrip(shortUuid);
      uuid := Uuid16(GetLe16(buf[..], 0));
    }

    /** The base id must have been loaded in its 128-bit form. */
    method FromBaseUuid(base: ServiceUuid, shortUuid: uint16)
      requires base.uuid.Uuid128? && ValidUuid(base.uuid)
      modifies this
      ensures uuid == Derive(old(base.uuid), shortUuid)
    {
      uuid := base.uuid;
      var was := uuid.val;
      var val := new byte[UUID_SIZE](i requires 0 <= i < |was| => was[i]);
      assert val[..] == was;
      PutLe16(shortUuid, val, UUID_16_BASE_OFFSET);
      uuid := Uuid128(val[..]);
    }
  }
}
