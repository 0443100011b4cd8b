/** Go strings and byte slices as sequences of bytes: the bytewise order Go compares
    strings with, prefixes, big-endian 32-bit integers and length-prefixed strings. */
module ByteStrings {

  type byte = b: int | 0 <= b < 256

  type Bytes = seq<byte>

  const U32_LIMIT: int := 0x1_0000_0000

  datatype Option<+T> = None | Some(value: T)

  // ----- order -----

  /** Go's `<` on strings. */
  predicate Less(a: Bytes, b: Bytes) {
    b != [] && (a == [] || a[0] < b[0] || (a[0] == b[0] && Less(a[1..], b[1..])))
  }

  predicate LessEq(a: Bytes, b: Bytes) {
    a == b || Less(a, b)
  }

  lemma {:induction false} LessIrreflexive(a: Bytes)
    ensures !Less(a, a)
  {
    if a != [] {
      LessIrreflexive(a[1..]);
    }
  }

  lemma {:induction false} LessTransitive(a: Bytes, b: Bytes, c: Bytes)
    requires Less(a, b) && Less(b, c)
    ensures Less(a, c)
  {
    if a != [] && a[0] == b[0] == c[0] {
      LessTransitive(a[1..], b[1..], c[1..]);
    }
  }

  lemma {:induction false} LessTotal(a: Bytes, b: Bytes)
    ensures Less(a, b) || a == b || Less(b, a)
  {
    if a != [] && b != [] && a[0] == b[0] {
      LessTotal(a[1..], b[1..]);
      assert a == [a[0]] + a[1..] && b == [b[0]] + b[1..];
    }
  }

  lemma LessAsymmetric(a: Bytes, b: Bytes)
    requires Less(a, b)
    ensures !LessEq(b, a)
  {
    LessIrreflexive(a);
    if Less(b, a) {
      LessTransitive(a, b, a);
    }
  }

  /** At the first place where the two differ, the first has ended or has the smaller byte. */
  predicate DiffersBelow(a: Bytes, b: Bytes, n: nat) {
    && n <= |a| && n < |b|
    && (forall i :: 0 <= i < n ==> a[i] == b[i])
    && (n == |a| || a[n] < b[n])
  }

  ghost predicate Precedes(a: Bytes, b: Bytes) {
    exists n: nat :: DiffersBelow(a, b, n)
  }

  lemma {:induction false} LessIff(a: Bytes, b: Bytes)
    ensures Less(a, b) <==> Precedes(a, b)
  {
    if Less(a, b) {
      if a == [] || a[0] < b[0] {
        assert DiffersBelow(a, b, 0);
      } else {
        LessIff(a[1..], b[1..]);
        var n: nat :| DiffersBelow(a[1..], b[1..], n);
        assert DiffersBelow(a, b, n + 1);
      }
    }
    if Precedes(a, b) {
      var n: nat :| DiffersBelow(a, b, n);
      if n > 0 {
        assert DiffersBelow(a[1..], b[1..], n - 1);
        LessIff(a[1..], b[1..]);
      }
    }
  }

  // ----- prefixes -----

  /** `strings.HasPrefix`. */
  predicate HasPrefix(key: Bytes, prefix: Bytes) {
    |prefix| <= |key| && key[..|prefix|] == prefix
  }

  /** `key[0:min(len(prefix), len(key))]`. */
  function Cut(key: Bytes, prefix: Bytes): Bytes {
    if |prefix| <= |key| then key[..|prefix|] else key
  }

  lemma PrefixStep(key: Bytes, prefix: Bytes)
    requires prefix != []
    ensures HasPrefix(key, prefix) <==> key != [] && key[0] == prefix[0] && HasPrefix(key[1..], prefix[1..])
  {
    if |prefix| <= |key| {
      assert key[..|prefix|] == [key[0]] + key[1..][..|prefix| - 1];
      assert prefix == [prefix[0]] + prefix[1..];
      assert key[..|prefix|][1..] == key[1..][..|prefix| - 1];
    }
  }

  lemma {:induction false} PrefixIsBelow(key: Bytes, prefix: Bytes)
    requires HasPrefix(key, prefix)
    ensures LessEq(prefix, key)
  {
    if prefix != [] {
      PrefixStep(key, prefix);
      PrefixIsBelow(key[1..], prefix[1..]);
      assert prefix == [prefix[0]] + prefix[1..] && key == [key[0]] + key[1..];
    }
  }

  /** The keys with a given prefix form an interval that starts at the prefix itself. */
  lemma {:induction false} PrefixConvex(prefix: Bytes, mid: Bytes, key: Bytes)
    requires LessEq(prefix, mid) && LessEq(mid, key) && HasPrefix(key, prefix)
    ensures HasPrefix(mid, prefix)
  {
    if prefix != [] && mid != key {
      PrefixStep(key, prefix);
      PrefixStep(mid, prefix);
      PrefixConvex(prefix[1..], mid[1..], key[1..]);
    }
  }

  /** The early stop of a prefix scan is sound: once the truncated key is past the prefix,
      no later key can have it. */
  lemma {:induction false} PastPrefix(prefix: Bytes, key: Bytes, later: Bytes)
    requires !HasPrefix(key, prefix) && Less(prefix, Cut(key, prefix)) && Less(key, later)
    ensures !HasPrefix(later, prefix)
  {
    assert prefix != [];
    PrefixStep(later, prefix);
    PrefixStep(key, prefix);
    assert key[0] == Cut(key, prefix)[0];
    if key[0] == prefix[0] == later[0] {
      assert Cut(key, prefix)[1..] == Cut(key[1..], prefix[1..]);
      PastPrefix(prefix[1..], key[1..], later[1..]);
    }
  }

  // ----- 32-bit integers -----

  /** `binary.BigEndian.AppendUint32(nil, uint32(n))`; the conversion keeps the low 32 bits. */
  function U32(n: int): (r: Bytes)
    ensures |r| == 4
  {
    var m := n % U32_LIMIT;
    [m / 0x100_0000, m / 0x1_0000 % 0x100, m / 0x100 % 0x100, m % 0x100]
  }

  /** `binary.BigEndian.Uint32`. */
  function ReadU32(buf: Bytes): (n: int)
    requires |buf| == 4
    ensures 0 <= n < U32_LIMIT
  {
    var b0: int, b1: int, b2: int, b3: int := buf[0], buf[1], buf[2], buf[3];
    b0 * 0x100_0000 + b1 * 0x1_0000 + b2 * 0x100 + b3
  }

  function AsInt(b: byte): int { b }

  /** Four bytes, the highest first. */
  lemma U32Layout(n: int)
    ensures AsInt(U32(n)[0]) * 0x100_0000 + AsInt(U32(n)[1]) * 0x1_0000 + AsInt(U32(n)[2]) * 0x100 + AsInt(U32(n)[3])
      == n % 0x1_0000_0000
  {
    U32RoundTrip(n);
  }

  lemma HighLow(m: nat)
    requires m < U32_LIMIT
    ensures m / 0x100_0000 == m / 0x1_0000 / 0x100
    ensures m / 0x100 % 0x100 * 0x100 + m % 0x100 == m % 0x1_0000
    ensures m / 0x1_0000 * 0x1_0000 + m % 0x1_0000 == m
  {
  }

  lemma U32RoundTrip(n: int)
    ensures ReadU32(U32(n)) == n % U32_LIMIT
  {
    var m := n % U32_LIMIT;
    HighLow(m);
    assert m / 0x100_0000 * 0x100 + m / 0x1_0000 % 0x100 == m / 0x1_0000;
  }

  lemma Split(q: nat, r: nat)
    requires r < 0x100
    ensures (q * 0x100 + r) / 0x100 == q && (q * 0x100 + r) % 0x100 == r
  {
  }

  lemma ByHundreds(n: nat)
    ensures n / 0x1_0000 == n / 0x100 / 0x100 && n / 0x100_0000 == n / 0x100 / 0x100 / 0x100
  {
  }

  lemma FourDigits(n: nat, q: nat, p: nat, a: nat, b: nat, c: nat, d: nat)
    requires b < 0x100 && c < 0x100 && d < 0x100
    requires p == a * 0x100 + b && q == p * 0x100 + c && n == q * 0x100 + d
    ensures n / 0x100_0000 == a && n / 0x1_0000 % 0x100 == b && n / 0x100 % 0x100 == c && n % 0x100 == d
  {
    ByHundreds(n);
    Split(q, d);
    Split(p, c);
    Split(a, b);
  }

  lemma U32Digits(n: nat, a: byte, b: byte, c: byte, d: byte)
    requires n < U32_LIMIT
    requires n / 0x100_0000 == AsInt(a) && n / 0x1_0000 % 0x100 == AsInt(b) && n / 0x100 % 0x100 == AsInt(c) && n % 0x100 == AsInt(d)
    ensures U32(n) == [a, b, c, d]
  {
    assert n % U32_LIMIT == n;
  }

  lemma Digits(b0: byte, b1: byte, b2: byte, b3: byte)
    ensures U32(ReadU32([b0, b1, b2, b3])) == [b0, b1, b2, b3]
  {
    hide U32;
    var n, p := ReadU32([b0, b1, b2, b3]), AsInt(b0) * 0x100 + AsInt(b1);
    FourDigits(n, p * 0x100 + AsInt(b2), p, AsInt(b0), AsInt(b1), AsInt(b2), AsInt(b3));
    U32Digits(n, b0, b1, b2, b3);
  }

  lemma ReadU32RoundTrip(buf: Bytes)
    requires |buf| == 4
    ensures U32(ReadU32(buf)) == buf
  {
    Digits(buf[0], buf[1], buf[2], buf[3]);
  }

  lemma SameLow(m: int, n: int)
    requires m % U32_LIMIT == n % U32_LIMIT
    ensures U32(m) == U32(n)
  {
  }

  // ----- length-prefixed strings -----

  /** `[length][bytes]`, the one building block of every format of the engine. */
  function Framed(s: Bytes): (r: Bytes)
    ensures |r| == 4 + |s|
  {
    U32(|s|) + s
  }

  datatype Taken = Taken(value: Bytes, rest: Bytes)

  /** Reading one length-prefixed string off the front of a buffer. */
  function Take(buf: Bytes): (t: Option<Taken>)
    ensures t.Some? ==> |t.value.value| + |t.value.rest| + 4 == |buf|
  {
    if |buf| < 4 then None
    else
      var n := ReadU32(buf[..4]);
      if 4 + n > |buf| then None else Some(Taken(buf[4..4 + n], buf[4 + n..]))
  }

  lemma TakeFramed(s: Bytes, rest: Bytes)
    requires |s| < U32_LIMIT
    ensures Take(Framed(s) + rest) == Some(Taken(s, rest))
  {
    var buf := Framed(s) + rest;
    assert buf[..4] == U32(|s|);
    U32RoundTrip(|s|);
    assert buf[4..4 + |s|] == s && buf[4 + |s|..] == rest;
  }

  /** Nothing but the framing of what was taken is accepted. */
  lemma TakeInverts(buf: Bytes)
    requires Take(buf).Some?
    ensures buf == Framed(Take(buf).value.value) + Take(buf).value.rest
    ensures |Take(buf).value.value| < U32_LIMIT
  {
    ReadU32RoundTrip(buf[..4]);
    var n := ReadU32(buf[..4]);
    assert buf == buf[..4] + buf[4..4 + n] + buf[4 + n..];
  }
}
