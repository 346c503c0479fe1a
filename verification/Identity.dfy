/** Byte-level key encodings: X25519 scalar clamping and SSH length-prefixed strings. */
module Identity {
  import opened Wrappers
  import opened Orders

  type Byte = bv8

  // ----- Clamping (section 5 of RFC 7748) -----

  function Pow256(n: nat): nat {
    if n == 0 then 1 else 256 * Pow256(n - 1)
  }

  /** The bit that clamping sets. */
  const TOP_BIT: nat := 254

  /** The bytes read as a little-endian integer. */
  function LittleEndian(s: seq<Byte>): nat {
    if s == [] then 0 else s[0] as int + 256 * LittleEndian(s[1..])
  }

  function Clamped(s: seq<Byte>): seq<Byte>
    requires |s| == 32
  {
    s[0 := s[0] & 248][31 := (s[31] & 127) | 64]
  }

  /** Masks the first 32 digest bytes in place. */
  method ClampInPlace(key: array<Byte>)
    requires key.Length == 32
    modifies key
    ensures key[..] == Clamped(old(key[..]))
  {
    key[0] := key[0] & 248;
    key[31] := key[31] & 127;
    key[31] := key[31] | 64;
  }

  /** The secret key made of the first half of a SHA-512 digest. */
  method SecretKeyFromDigest(digest: seq<Byte>) returns (key: array<Byte>)
    requires |digest| == 64
    ensures fresh(key) && key.Length == 32 && key[..] == Clamped(digest[..32])
  {
    key := new Byte[32](i requires 0 <= i < 32 => digest[i]);
    assert key[..] == digest[..32];
    ClampInPlace(key);
  }

  lemma LowBits(b: Byte)
    ensures (b & 248) as int % 8 == 0
    ensures b as int == (b & 248) as int + (b & 7) as int
  {
  }

  lemma HighBits(b: Byte)
    ensures 64 <= ((b & 127) | 64) as int < 128
    ensures ((b & 127) | 64) & 63 == b & 63
    ensures ((((b & 127) | 64) & 127) | 64) == (b & 127) | 64
  {
  }

  // ----- The value of a clamped key -----

  function Pow2(n: nat): (p: nat)
    ensures p > 0
  {
    if n == 0 then 1 else 2 * Pow2(n - 1)
  }

  lemma {:induction false} Pow256Is(n: nat)
    ensures Pow256(n) == Pow2(8 * n) && Pow256(n) > 0
  {
    if n > 0 {
      Pow256Is(n - 1);
      var m := 8 * (n - 1);
      assert 8 * n == m + 8;
      assert Pow2(m + 8) == 2 * Pow2(m + 7) == 4 * Pow2(m + 6) == 8 * Pow2(m + 5) == 16 * Pow2(m + 4);
      assert Pow2(m + 4) == 2 * Pow2(m + 3) == 4 * Pow2(m + 2) == 8 * Pow2(m + 1) == 16 * Pow2(m);
    }
  }

  lemma {:induction false} LittleEndianBound(s: seq<Byte>)
    ensures LittleEndian(s) < Pow256(|s|)
  {
    if s != [] {
      LittleEndianBound(s[1..]);
    }
  }

  lemma {:induction false} LittleEndianSnoc(s: seq<Byte>, b: Byte)
    ensures LittleEndian(s + [b]) == LittleEndian(s) + Pow256(|s|) * b as int
  {
    if s == [] {
      assert [] + [b] == [b];
      assert [b][1..] == [];
    } else {
      LittleEndianSnoc(s[1..], b);
      assert (s + [b])[1..] == s[1..] + [b];
      Distribute(LittleEndian(s[1..]), Pow256(|s| - 1), b as int);
    }
  }

  lemma Distribute(x: int, p: int, b: int)
    ensures 256 * (x + p * b) == 256 * x + (256 * p) * b
  {
  }

  lemma Scaled(d: int, a: int, b: int)
    requires d > 0 && a < b
    ensures d * a + d <= d * b
  {
    Product(d, b - a - 1);
    assert d * b == d * a + d + d * (b - a - 1);
  }

  lemma Product(a: int, b: int)
    requires a >= 0 && b >= 0
    ensures a * b >= 0
  {
  }

  lemma Remainder(v: int, d: int, q: int, r: int)
    requires d > 0 && v == d * q + r && 0 <= r < d
    ensures v % d == r
  {
    assert v == d * (v / d) + v % d;
    if v / d < q {
      Scaled(d, v / d, q);
      assert false;
    } else if q < v / d {
      Scaled(d, q, v / d);
      assert false;
    }
  }

  /** A number of `n + 1` bytes as lowest byte, middle and highest byte. */
  lemma Spread(s: seq<Byte>, n: nat) returns (mid: nat)
    requires |s| == n + 1 && n >= 1
    ensures mid == LittleEndian(s[1..n]) && s[0] as int + 256 * mid < Pow256(n)
    ensures LittleEndian(s) == s[0] as int + 256 * mid + Pow256(n) * s[n] as int
  {
    mid := LittleEndian(s[1..n]);
    LittleEndianBound(s[..n]);
    LittleEndianSnoc(s[..n], s[n]);
    assert s == s[..n] + [s[n]];
    assert s[..n][1..] == s[1..n];
  }

  lemma TopByte(b: Byte)
    ensures b as int == 64 * (b >> 6) as int + (b & 63) as int
    ensures ((b & 127) | 64) as int == 64 + (b & 63) as int
    ensures (b & 63) as int < 64
  {
  }

  /** `p * (64 q + r)` split at the 64 p boundary. */
  lemma TopSplit(p: int, q: int, r: int, low: int)
    requires p > 0 && 0 <= r < 64 && 0 <= low < p
    ensures p * (64 * q + r) + low == (64 * p) * q + (p * r + low)
    ensures 0 <= p * r + low < 64 * p
    ensures p * (64 + r) + low == 64 * p + (p * r + low)
  {
    Scaled(p, r, 64);
  }

  /** The arithmetic of clamping: `first` and `top` are the outer bytes, split at the masks. */
  lemma ClampArithmetic(p: int, first: int, hi: int, lo: int, mid: int, top: int, q: int, r: int, v: int, c: int)
    requires p > 0 && first == hi + lo && top == 64 * q + r && 0 <= r < 64
    requires 0 <= first + 256 * mid < p
    requires v == first + 256 * mid + p * top && c == hi + 256 * mid + p * (64 + r)
    ensures c == 64 * p + v % (64 * p) - lo
  {
    var low := first + 256 * mid;
    TopSplit(p, q, r, low);
    assert p * top == p * (64 * q + r);
    Remainder(v, 64 * p, q, p * r + low);
  }

  lemma ClampedParts(s: seq<Byte>, n: nat)
    requires n == 31 && |s| == 32
    ensures |Clamped(s)| == n + 1 && Clamped(s)[1..n] == s[1..n]
    ensures Clamped(s)[0] == s[0] & 248 && Clamped(s)[n] as int == 64 + (s[31] & 63) as int
  {
    TopByte(s[31]);
  }

  lemma ClampBytes(s: seq<Byte>, n: nat, mid: nat)
    requires n == 31 && |s| == 32 && mid == LittleEndian(s[1..n])
    ensures LittleEndian(Clamped(s)) == (s[0] & 248) as int + 256 * mid + Pow256(n) * (64 + (s[31] & 63) as int)
  {
    ClampedParts(s, n);
    var m := Spread(Clamped(s), n);
  }

  lemma ClampedValueAt(s: seq<Byte>, n: nat)
    requires n == 31 && |s| == 32
    ensures Pow256(n) > 0
    ensures LittleEndian(Clamped(s)) == 64 * Pow256(n) + LittleEndian(s) % (64 * Pow256(n)) - LittleEndian(s) % 8
  {
    Pow256Is(n);
    var mid := Spread(s, n);
    ClampBytes(s, n, mid);
    LowBits(s[0]);
    TopByte(s[31]);
    LowThree(s);
    var hi, lo, q, r := (s[0] & 248) as int, (s[0] & 7) as int, (s[31] >> 6) as int, (s[31] & 63) as int;
    ClampArithmetic(Pow256(n), s[0] as int, hi, lo, mid, s[31] as int, q, r, LittleEndian(s), LittleEndian(Clamped(s)));
  }

  lemma PowerAt(n: nat)
    ensures Pow2(8 * n + 6) == 64 * Pow256(n)
  {
    Pow256Is(n);
    Pow2Shift(8 * n);
  }

  /**
   The clamped key as a number: the low three bits and the top bit are cleared, bit 254 is set,
   and every other bit of the digest is kept.
   */
  lemma {:induction false} ClampedValue(s: seq<Byte>)
    requires |s| == 32
    ensures TOP_BIT == 254
    ensures LittleEndian(Clamped(s)) == Pow2(TOP_BIT) + LittleEndian(s) % Pow2(TOP_BIT) - LittleEndian(s) % 8
  {
    var n := (TOP_BIT - 6) / 8;
    ClampedValueAt(s, n);
    PowerAt(n);
  }

  lemma Pow2Shift(n: nat)
    ensures Pow2(n + 6) == 64 * Pow2(n)
  {
    assert Pow2(n + 6) == 2 * Pow2(n + 5) == 4 * Pow2(n + 4) == 8 * Pow2(n + 3);
    assert Pow2(n + 3) == 2 * Pow2(n + 2) == 4 * Pow2(n + 1) == 8 * Pow2(n);
  }

  lemma LowThree(s: seq<Byte>)
    requires s != []
    ensures LittleEndian(s) % 8 == (s[0] & 7) as int
  {
    LowBits(s[0]);
    SmallMask(s[0]);
    var high := LittleEndian(s[1..]);
    Remainder(LittleEndian(s), 8, (s[0] & 248) as int / 8 + 32 * high, (s[0] & 7) as int);
  }

  lemma SmallMask(b: Byte)
    ensures (b & 7) as int < 8
  {
  }

  /** Section 5 of RFC 7748: a clamped key is a multiple of eight in [2^254, 2^255). */
  lemma {:induction false} ClampedRange(s: seq<Byte>)
    requires |s| == 32
    ensures LittleEndian(Clamped(s)) % 8 == 0
    ensures Pow2(TOP_BIT) <= LittleEndian(Clamped(s)) < Pow2(TOP_BIT + 1)
  {
    ClampedValue(s);
    LowThree(Clamped(s));
    assert (s[0] & 248) & 7 == 0;
    RemainderOrder(LittleEndian(s), TOP_BIT);
  }

  lemma RemainderOrder(v: nat, bit: nat)
    requires bit >= 3
    ensures v % 8 <= v % Pow2(bit) < Pow2(bit)
  {
    var p, m := Pow2(bit - 3), Pow2(bit);
    assert m == 2 * Pow2(bit - 1) == 4 * Pow2(bit - 2) == 8 * p;
    Division(v, m);
    EightBelow(v, m, p, v / m, v % m);
  }

  lemma Division(v: nat, m: nat)
    requires m > 0
    ensures v == m * (v / m) + v % m && 0 <= v % m < m
  {
  }

  /** A remainder by eight is no larger than one by a multiple of eight. */
  lemma EightBelow(v: nat, m: nat, p: nat, q: int, r: nat)
    requires m == 8 * p && v == m * q + r
    ensures v % 8 <= r
  {
    EightTimes(p, q, r, v, m);
    Remainder(v, 8, p * q + r / 8, r % 8);
  }

  lemma EightTimes(p: nat, q: int, r: nat, v: nat, m: nat)
    requires m == 8 * p && v == m * q + r
    ensures v == 8 * (p * q + r / 8) + r % 8
  {
    assert m * q == 8 * (p * q);
  }

  /** Clamping a clamped key changes nothing, and clamping changes only the first and last byte. */
  lemma {:induction false} ClampIdempotent(s: seq<Byte>)
    requires |s| == 32
    ensures Clamped(Clamped(s)) == Clamped(s)
    ensures Clamped(s)[1..31] == s[1..31]
    ensures Clamped(s)[0] & 248 == s[0] & 248 && Clamped(s)[31] & 63 == s[31] & 63
  {
    var c, d := Clamped(s), Clamped(Clamped(s));
    HighBits(s[31]);
    assert (s[0] & 248) & 248 == s[0] & 248;
    assert forall i :: 0 <= i < 32 ==> d[i] == c[i];
  }

  // ----- SSH strings (section 5 of RFC 4251) -----

  lemma Successor(b: Byte)
    requires b != 255
    ensures (b + 1) as int == b as int + 1
  {
  }

  /** The byte with the given value. */
  function ToByte(n: nat): (b: Byte)
    requires n < 256
    ensures b as int == n
  {
    if n == 0 then 0
    else
      Successor(ToByte(n - 1));
      ToByte(n - 1) + 1
  }

  const U32: nat := 0x1_0000_0000

  /** The four big-endian bytes of a 32-bit number. */
  function BigEndian(n: nat): seq<Byte>
    requires n < U32
  {
    [ToByte(n / 0x100_0000), ToByte(n / 0x1_0000 % 0x100), ToByte(n / 0x100 % 0x100), ToByte(n % 0x100)]
  }

  function ReadU32(s: seq<Byte>): nat
    requires |s| >= 4
  {
    0x100_0000 * s[0] as int + 0x1_0000 * s[1] as int + 0x100 * s[2] as int + s[3] as int
  }

  /** The length, cut to 32 bits, and then the bytes. */
  function SshString(v: seq<Byte>): seq<Byte> {
    BigEndian(|v| % U32) + v
  }

  /** Four bytes that hold the length modulo 2^32, most significant first, and then the bytes. */
  lemma SshStringIs(v: seq<Byte>)
    ensures var s := SshString(v);
            && |s| == 4 + |v| && s[4..] == v
            && 0x100_0000 * s[0] as int + 0x1_0000 * s[1] as int + 0x100 * s[2] as int + s[3] as int == |v| % 0x1_0000_0000
  {
    var n := |v| % U32;
    BigEndianRoundTrip(n, v);
  }

  method AppendSshString(buf: seq<Byte>, value: seq<Byte>) returns (buf': seq<Byte>)
    ensures buf' == buf + SshString(value)
  {
    buf' := buf + BigEndian(|value| % U32);
    Assoc(buf, BigEndian(|value| % U32), value);
    buf' := buf' + value;
  }

  datatype Parsed = Parsed(value: seq<Byte>, rest: seq<Byte>)

  /** Reads one length-prefixed string. */
  function ReadString(s: seq<Byte>): Option<Parsed> {
    if |s| < 4 then None
    else
      var n := ReadU32(s);
      if |s| < 4 + n then None else Some(Parsed(s[4..4+n], s[4+n..]))
  }

  function ReadStrings(s: seq<Byte>): Option<seq<seq<Byte>>>
    decreases |s|
  {
    if s == [] then Some([])
    else match ReadString(s)
      case None => None
      case Some(Parsed(value, rest)) =>
        match ReadStrings(rest)
        case None => None
        case Some(more) => Some([value] + more)
  }

  function SshStrings(vs: seq<seq<Byte>>): seq<Byte> {
    if vs == [] then [] else SshString(vs[0]) + SshStrings(vs[1..])
  }

  lemma Digits(n: nat)
    requires n < U32
    ensures n == 0x100_0000 * (n / 0x100_0000) + 0x1_0000 * (n / 0x1_0000 % 0x100) + 0x100 * (n / 0x100 % 0x100) + n % 0x100
  {
    assert n / 0x1_0000 == n / 0x100 / 0x100;
    assert n / 0x100_0000 == n / 0x1_0000 / 0x100;
  }

  lemma BigEndianRoundTrip(n: nat, tail: seq<Byte>)
    requires n < U32
    ensures ReadU32(BigEndian(n) + tail) == n
  {
    var b, s := BigEndian(n), BigEndian(n) + tail;
    assert s[0] == b[0] && s[1] == b[1] && s[2] == b[2] && s[3] == b[3];
    Digits(n);
  }

  lemma SplitAfter<T>(a: seq<T>, v: seq<T>, tail: seq<T>, n: nat)
    requires n <= |v|
    ensures var s, k := a + (v + tail), |a|; s[k..k+n] == v[..n] && s[k+n..] == v[n..] + tail
  {
  }

  lemma ReadsAfter(header: seq<Byte>, v: seq<Byte>, tail: seq<Byte>, n: nat)
    requires |header| == 4 && n <= |v| && ReadU32(header + (v + tail)) == n
    ensures ReadString(header + (v + tail)) == Some(Parsed(v[..n], v[n..] + tail))
  {
    SplitAfter(header, v, tail, n);
  }

  lemma CutLength(len: nat)
    ensures len % U32 < U32 && len % U32 <= len && (len < U32 <==> len % U32 == len)
  {
  }

  /** What is read back: as many bytes as the 32-bit length says, and then the rest. */
  lemma ReadsPrefix(v: seq<Byte>, tail: seq<Byte>, n: nat)
    requires n == |v| % U32
    ensures n <= |v| && ReadString(SshString(v) + tail) == Some(Parsed(v[..n], v[n..] + tail))
  {
    CutLength(|v|);
    var header := BigEndian(n);
    Assoc(header, v, tail);
    BigEndianRoundTrip(n, v + tail);
    ReadsAfter(header, v, tail, n);
  }

  /** An appended string is read back, with what follows it, exactly when its length fits. */
  lemma {:induction false} ReadBackIff(v: seq<Byte>, tail: seq<Byte>)
    ensures ReadString(SshString(v) + tail) == Some(Parsed(v, tail)) <==> |v| < 0x1_0000_0000
  {
    var n := |v| % U32;
    CutLength(|v|);
    ReadsPrefix(v, tail, n);
    if |v| < U32 {
      assert v[..n] == v;
      assert v[n..] + tail == tail;
    } else {
      assert |v[..n]| != |v|;
    }
  }

  /** The shortest string that is lost: its length is written as zero. */
  lemma OverlongLost()
    ensures var v: seq<Byte> := seq(U32, _ => 0);
            |v| == 0x1_0000_0000 && ReadString(SshString(v)) != Some(Parsed(v, []))
  {
    var v: seq<Byte> := seq(U32, _ => 0);
    ReadBackIff(v, []);
    assert SshString(v) + [] == SshString(v);
  }

  ghost predicate AllFit(vs: seq<seq<Byte>>) {
    forall v :: v in vs ==> |v| < 0x1_0000_0000
  }

  /** Strings appended one after another are recovered exactly, if and only if every length fits. */
  lemma {:induction false} ReadBackAllIff(vs: seq<seq<Byte>>)
    ensures ReadStrings(SshStrings(vs)) == Some(vs) <==> AllFit(vs)
  {
    if vs != [] {
      var s, tail := SshStrings(vs), SshStrings(vs[1..]);
      assert vs[0] in vs && vs == [vs[0]] + vs[1..];
      ReadBackIff(vs[0], tail);
      ReadBackAllIff(vs[1..]);
      assert AllFit(vs) <==> |vs[0]| < U32 && AllFit(vs[1..]);
      if |vs[0]| >= U32 {
        ReadsShort(vs[0], tail);
      }
    }
  }

  /** An over-long string is read back shorter. */
  lemma ReadsShort(v: seq<Byte>, tail: seq<Byte>)
    requires |v| >= U32
    ensures var r := ReadString(SshString(v) + tail); r.Some? && |r.value.value| < |v|
  {
    CutLength(|v|);
    ReadsPrefix(v, tail, |v| % U32);
  }

  /** So different lists of strings have different encodings. */
  lemma {:induction false} EncodingInjective(a: seq<seq<Byte>>, b: seq<seq<Byte>>)
    requires AllFit(a) && AllFit(b) && SshStrings(a) == SshStrings(b)
    ensures a == b
  {
    ReadBackAllIff(a);
    ReadBackAllIff(b);
  }

  /** The text "ssh-ed25519". */
  const KEY_TYPE: seq<Byte> := [0x73, 0x73, 0x68, 0x2d, 0x65, 0x64, 0x32, 0x35, 0x35, 0x31, 0x39]

  /** Two strings one after the other. */
  lemma TwoStrings(a: seq<Byte>, b: seq<Byte>)
    requires |a| < U32 && |b| < U32
    ensures |SshString(a) + SshString(b)| == 8 + |a| + |b|
    ensures ReadStrings(SshString(a) + SshString(b)) == Some([a, b])
  {
    var both: seq<seq<Byte>>, last: seq<seq<Byte>> := [a, b], [b];
    assert both[1..] == last && last[1..] == [];
    assert SshStrings(last) == SshString(b) + [];
    assert SshStrings(both) == SshString(a) + SshString(b);
    ReadBackAllIff(both);
  }

  /** The public key blob of section 4 of RFC 8709: 51 bytes that parse back to the key. */
  method Ed25519Blob(key: seq<Byte>) returns (blob: seq<Byte>)
    requires |key| == 32
    ensures |blob| == 51
    ensures forall i :: 0 <= i < 11 ==> blob[4 + i] as int == "ssh-ed25519"[i] as int
    ensures blob[19..] == key
    ensures ReadStrings(blob) == Some([KEY_TYPE, key])
  {
    var keyType := KEY_TYPE;
    blob := AppendSshString([], keyType);
    assert blob == SshString(keyType);
    blob := AppendSshString(blob, key);
    TwoStrings(keyType, key);
    BlobLayout(keyType, key);
    KeyTypeText();
  }

  lemma BlobLayout(a: seq<Byte>, b: seq<Byte>)
    ensures var s := SshString(a) + SshString(b);
            |s| == 8 + |a| + |b| && s[8 + |a|..] == b && forall i :: 0 <= i < |a| ==> s[4 + i] == a[i]
  {
    SshStringIs(a);
    SshStringIs(b);
    var s := SshString(a) + SshString(b);
    assert s[8 + |a|..] == SshString(b)[4..];
    assert forall i :: 0 <= i < |a| ==> s[4 + i] == SshString(a)[4..][i];
  }

  lemma KeyTypeText()
    ensures |KEY_TYPE| == 11 && forall i :: 0 <= i < 11 ==> KEY_TYPE[i] as int == "ssh-ed25519"[i] as int
  {
  }
}
