/** The byte keys of the state stores (state/serialization.py) and the scans over them (state/rocksdb). */
module KeyEncoding {
  import opened Wrappers

  type Byte = x: int | 0 <= x < 256

  const SEPARATOR: Byte := 124

  const UINT64: int := 0x1_0000_0000_0000_0000

  /** Bytewise lexicographic order, the order in which the store keeps its keys. */
  predicate Less(x: seq<Byte>, y: seq<Byte>) {
    y != [] && (x == [] || x[0] < y[0] || (x[0] == y[0] && Less(x[1..], y[1..])))
  }

  predicate AtMost(x: seq<Byte>, y: seq<Byte>) { x == y || Less(x, y) }

  /** The big-endian bytes of n, width of them. */
  function BigEndian(n: nat, width: nat): (r: seq<Byte>)
    ensures |r| == width
  {
    if width == 0 then [] else BigEndian(n / 256, width - 1) + [n % 256]
  }

  function Number(b: seq<Byte>): nat {
    if b == [] then 0 else 256 * Number(b[..|b| - 1]) + b[|b| - 1]
  }

  /** struct.pack(">Q", n): an error outside the unsigned 64-bit range. */
  function IntToBytes(n: int): Option<seq<Byte>> {
    if 0 <= n < UINT64 then Some(BigEndian(n, 8)) else None
  }

  function EncodeIntegerPair(n: int, m: int): Option<seq<Byte>> {
    if IntToBytes(n).Some? && IntToBytes(m).Some?
    then Some(IntToBytes(n).value + [SEPARATOR] + IntToBytes(m).value)
    else None
  }

  /** struct.unpack: an error for any other length; the middle byte is not looked at. */
  function DecodeIntegerPair(b: seq<Byte>): Option<(int, int)> {
    if |b| == 17 then Some((Number(b[..8]), Number(b[9..]))) else None
  }

  function Pow256(width: nat): nat { if width == 0 then 1 else 256 * Pow256(width - 1) }

  lemma {:induction false} NumberOfBigEndian(n: nat, width: nat)
    requires n < Pow256(width)
    ensures Number(BigEndian(n, width)) == n
  {
    if width > 0 {
      NumberOfBigEndian(n / 256, width - 1);
      assert BigEndian(n, width)[..width - 1] == BigEndian(n / 256, width - 1);
    }
  }

  lemma {:induction false} BigEndianOfNumber(b: seq<Byte>)
    ensures BigEndian(Number(b), |b|) == b && Number(b) < Pow256(|b|)
  {
    if b != [] {
      BigEndianOfNumber(b[..|b| - 1]);
    }
  }

  lemma Pow8()
    ensures Pow256(8) == UINT64
  {
    assert Pow256(4) == 256 * 256 * 256 * 256;
    assert Pow256(8) == 256 * 256 * 256 * 256 * Pow256(4);
  }

  /** Decoding undoes encoding, and encoding undoes decoding where the middle byte is the separator. */
  lemma PairRoundTrip(n: int, m: int, b: seq<Byte>)
    ensures EncodeIntegerPair(n, m).Some? <==> 0 <= n < UINT64 && 0 <= m < UINT64
    ensures EncodeIntegerPair(n, m).Some? ==> DecodeIntegerPair(EncodeIntegerPair(n, m).value) == Some((n, m))
    ensures DecodeIntegerPair(b).Some? && b[8] == SEPARATOR ==>
              EncodeIntegerPair(DecodeIntegerPair(b).value.0, DecodeIntegerPair(b).value.1) == Some(b)
  {
    hide BigEndian, Number, Pow256;
    Pow8();
    if EncodeIntegerPair(n, m).Some? {
      var e := EncodeIntegerPair(n, m).value;
      NumberOfBigEndian(n, 8);
      NumberOfBigEndian(m, 8);
      assert e[..8] == BigEndian(n, 8) && e[9..] == BigEndian(m, 8);
    }
    if DecodeIntegerPair(b).Some? && b[8] == SEPARATOR {
      BigEndianOfNumber(b[..8]);
      BigEndianOfNumber(b[9..]);
      assert b == b[..8] + [b[8]] + b[9..];
    }
  }

  /** The order of two extended strings of one length: that of the strings, then of the extensions. */
  lemma {:induction false} LessAppend(x: seq<Byte>, y: seq<Byte>, u: seq<Byte>, v: seq<Byte>)
    requires |x| == |y|
    ensures Less(x + u, y + v) <==> Less(x, y) || (x == y && Less(u, v))
  {
    if x == [] {
      assert x + u == u && y + v == v;
    } else {
      assert (x + u)[1..] == x[1..] + u && (y + v)[1..] == y[1..] + v;
      LessAppend(x[1..], y[1..], u, v);
      assert x == [x[0]] + x[1..] && y == [y[0]] + y[1..];
    }
  }

  lemma {:induction false} BigEndianOrder(n: nat, m: nat, width: nat)
    requires n < Pow256(width) && m < Pow256(width)
    ensures Less(BigEndian(n, width), BigEndian(m, width)) <==> n < m
    ensures BigEndian(n, width) == BigEndian(m, width) <==> n == m
  {
    if width > 0 {
      BigEndianOrder(n / 256, m / 256, width - 1);
      var x, y := BigEndian(n / 256, width - 1), BigEndian(m / 256, width - 1);
      LessAppend(x, y, [n % 256], [m % 256]);
      AppendEqual(x, y, n % 256, m % 256);
      assert n == 256 * (n / 256) + n % 256 && m == 256 * (m / 256) + m % 256;
    }
  }

  lemma AppendEqual(x: seq<Byte>, y: seq<Byte>, p: Byte, q: Byte)
    requires |x| == |y|
    ensures x + [p] == y + [q] <==> x == y && p == q
  {
    if x + [p] == y + [q] {
      assert (x + [p])[..|x|] == x && (y + [q])[..|y|] == y;
      assert (x + [p])[|x|] == p && (y + [q])[|y|] == q;
    }
  }

  lemma {:induction false} LessIrreflexive(x: seq<Byte>)
    ensures !Less(x, x)
  {
    if x != [] {
      LessIrreflexive(x[1..]);
    }
  }

  /** The bytes of two pairs stand in the order of the pairs: first numbers first. */
  lemma PairOrder(n1: int, m1: int, n2: int, m2: int)
    requires EncodeIntegerPair(n1, m1).Some? && EncodeIntegerPair(n2, m2).Some?
    ensures Less(EncodeIntegerPair(n1, m1).value, EncodeIntegerPair(n2, m2).value) <==> n1 < n2 || (n1 == n2 && m1 < m2)
  {
    hide BigEndian, Less, Pow256;
    Pow8();
    BigEndianOrder(n1, n2, 8);
    BigEndianOrder(m1, m2, 8);
    var x1, x2 := BigEndian(n1, 8) + [SEPARATOR], BigEndian(n2, 8) + [SEPARATOR];
    LessAppend(x1, x2, BigEndian(m1, 8), BigEndian(m2, 8));
    LessAppend(BigEndian(n1, 8), BigEndian(n2, 8), [SEPARATOR], [SEPARATOR]);
    LessIrreflexive([SEPARATOR]);
    AppendEqual(BigEndian(n1, 8), BigEndian(n2, 8), SEPARATOR, SEPARATOR);
  }

  // ----- Scans -----

  /** The key under which a record of the given message key, timestamp and counter is stored. */
  function RecordKey(key: seq<Byte>, ts: nat, counter: nat): seq<Byte> {
    key + [SEPARATOR] + (BigEndian(ts, 8) + [SEPARATOR] + BigEndian(counter, 8))
  }

  /** append_integer */
  function Bound(key: seq<Byte>, ts: nat): seq<Byte> { key + [SEPARATOR] + BigEndian(ts, 8) }

  predicate StartsWith(k: seq<Byte>, x: seq<Byte>) { |x| <= |k| && k[..|x|] == x }

  /** What lies between two extensions of x goes on from x with something between the extensions. */
  lemma {:induction false} BetweenExtensions(x: seq<Byte>, u: seq<Byte>, v: seq<Byte>, k: seq<Byte>)
    ensures AtMost(x + u, k) && Less(k, x + v) <==> StartsWith(k, x) && AtMost(u, k[|x|..]) && Less(k[|x|..], v)
  {
    if x == [] {
      assert x + u == u && x + v == v && k[0..] == k;
    } else if k != [] && k[0] == x[0] {
      assert (x + u)[1..] == x[1..] + u && (x + v)[1..] == x[1..] + v;
      assert k == [k[0]] + k[1..] && x == [x[0]] + x[1..] && x + u == [x[0]] + (x[1..] + u);
      StartsTail(k, x);
      BetweenExtensions(x[1..], u, v, k[1..]);
    } else {
      StartsFirst(k, x);
    }
  }

  lemma StartsTail(k: seq<Byte>, x: seq<Byte>)
    requires k != [] && x != [] && k[0] == x[0]
    ensures StartsWith(k, x) <==> StartsWith(k[1..], x[1..])
    ensures |x| <= |k| ==> k[1..][|x[1..]|..] == k[|x|..]
  {
    if |x| <= |k| {
      assert k[1..][..|x| - 1] == k[..|x|][1..];
      assert k[..|x|] == [k[0]] + k[..|x|][1..] && x == [x[0]] + x[1..];
    }
  }

  lemma StartsFirst(k: seq<Byte>, x: seq<Byte>)
    requires x != [] && (k == [] || k[0] != x[0])
    ensures !StartsWith(k, x)
  {
    if k != [] && |x| <= |k| {
      assert k[..|x|][0] == k[0];
    }
  }

  /**
   * A scan of any message key between two times: the keys that go on from it and a separator with
   * bytes between the two times'.
   */
  lemma ScanBytes(p: seq<Byte>, start: nat, end: nat, k: seq<Byte>)
    ensures AtMost(Bound(p, start), k) && Less(k, Bound(p, end))
            <==> && StartsWith(k, p + [SEPARATOR])
                 && AtMost(BigEndian(start, 8), k[|p| + 1..]) && Less(k[|p| + 1..], BigEndian(end, 8))
  {
    BetweenExtensions(p + [SEPARATOR], BigEndian(start, 8), BigEndian(end, 8), k);
  }

  /** A sweep of any message key: the keys that go on from it with bytes below the separator and the bound. */
  lemma SweepBytes(p: seq<Byte>, bound: nat, k: seq<Byte>)
    ensures AtMost(p, k) && Less(k, Bound(p, bound))
            <==> StartsWith(k, p) && Less(k[|p|..], [SEPARATOR] + BigEndian(bound, 8))
  {
    hide BigEndian, Less;
    BetweenExtensions(p, [], [SEPARATOR] + BigEndian(bound, 8), k);
    assert p + [] == p && p + ([SEPARATOR] + BigEndian(bound, 8)) == Bound(p, bound);
    NothingLeast();
  }

  lemma NothingLeast()
    ensures forall x :: AtMost([], x)
  {
  }

  /**
   * A message key that holds the separator can stand among another key's records: nine bytes more,
   * and its record is in the scan.
   */
  lemma SeparatorCollides(p: seq<Byte>, ts: nat, counter: nat, start: nat, end: nat, within: nat)
    requires start <= within < end < UINT64
    ensures var q := p + [SEPARATOR] + BigEndian(within, 8);
            p != q && AtMost(Bound(p, start), RecordKey(q, ts, counter))
            && Less(RecordKey(q, ts, counter), Bound(p, end))
  {
    hide BigEndian, Less, Pow256;
    Pow8();
    var q, rest := p + [SEPARATOR] + BigEndian(within, 8),
                   [SEPARATOR] + (BigEndian(ts, 8) + [SEPARATOR] + BigEndian(counter, 8));
    var k := RecordKey(q, ts, counter);
    ScanBytes(p, start, end, k);
    assert k == (p + [SEPARATOR]) + (BigEndian(within, 8) + rest);
    assert k[..|p| + 1] == p + [SEPARATOR] && k[|p| + 1..] == BigEndian(within, 8) + rest;
    BigEndianOrder(start, within, 8);
    BigEndianOrder(within, end, 8);
    LessLonger(BigEndian(start, 8), BigEndian(within, 8), rest);
    LessLonger(BigEndian(end, 8), BigEndian(within, 8), rest);
  }

  // ----- Which keys collide -----

  ghost predicate InScan(p: seq<Byte>, start: nat, end: nat, k: seq<Byte>) {
    AtMost(Bound(p, start), k) && Less(k, Bound(p, end))
  }

  /** A scan of p between some times meets a record of q. */
  ghost predicate Collides(p: seq<Byte>, q: seq<Byte>) {
    exists start: nat, end: nat, ts: nat, counter: nat ::
      && start < UINT64 && end < UINT64 && ts < UINT64 && counter < UINT64
      && InScan(p, start, end, RecordKey(q, ts, counter))
  }

  /** q goes on from p with a separator and what may be the bytes of a time that is not the last one. */
  predicate GoesOn(p: seq<Byte>, q: seq<Byte>) {
    && StartsWith(q, p + [SEPARATOR])
    && var r := q[|p| + 1..]; |r| >= 8 ==> exists i :: 0 <= i < 8 && r[i] < 255
  }

  /** p goes on from q as the bytes of a time, a separator and part of a counter may do. */
  predicate PartOfRecord(p: seq<Byte>, q: seq<Byte>) {
    && StartsWith(p, q + [SEPARATOR])
    && var s := p[|q| + 1..]; |s| < 16 && (|s| > 8 ==> s[8] == SEPARATOR)
  }

  lemma {:induction false} LeastBytes(x: seq<Byte>, t: seq<Byte>)
    requires (forall i :: 0 <= i < |x| ==> x[i] == 0) && |x| <= |t|
    ensures AtMost(x, t)
  {
    if x != [] {
      LeastBytes(x[1..], t[1..]);
      assert t == [t[0]] + t[1..] && x == [x[0]] + x[1..];
    }
  }

  /** What is below some bytes differs from the greatest bytes of that length. */
  lemma {:induction false} BelowGreatest(t: seq<Byte>, y: seq<Byte>)
    requires Less(t, y) && |y| <= |t|
    ensures exists i :: 0 <= i < |y| && t[i] < 255
  {
    if t[0] == y[0] {
      BelowGreatest(t[1..], y[1..]);
      var i :| 0 <= i < |y| - 1 && t[1..][i] < 255;
      assert t[i + 1] < 255;
    } else {
      assert t[0] < 255;
    }
  }

  lemma {:induction false} GreatestBytes(t: seq<Byte>, y: seq<Byte>)
    requires (forall i :: 0 <= i < |y| ==> y[i] == 255) && exists i :: 0 <= i < |t| && i < |y| && t[i] < 255
    ensures Less(t, y)
  {
    if t[0] == 255 {
      var i :| 0 <= i < |t| && i < |y| && t[i] < 255;
      assert t[1..][i - 1] < 255;
      GreatestBytes(t[1..], y[1..]);
    }
  }

  lemma {:induction false} ZeroBytes(width: nat)
    ensures forall i :: 0 <= i < width ==> BigEndian(0, width)[i] == 0
  {
    if width > 0 {
      ZeroBytes(width - 1);
    }
  }

  lemma {:induction false} LastBytes(n: nat, width: nat)
    requires n == Pow256(width) - 1
    ensures var b := BigEndian(n, width); forall i :: 0 <= i < |b| ==> b[i] == 255
  {
    if width > 0 {
      assert n == 256 * (Pow256(width - 1) - 1) + 255;
      assert n / 256 == Pow256(width - 1) - 1 && n % 256 == 255;
      LastBytes(n / 256, width - 1);
      assert BigEndian(n, width) == BigEndian(n / 256, width - 1) + [n % 256];
    }
  }

  /** A record is met by the widest scan if its key goes on with bytes between those of the first and the last time. */
  lemma WidestScan(p: seq<Byte>, k: seq<Byte>)
    requires StartsWith(k, p + [SEPARATOR])
    requires var t := k[|p| + 1..];
             (|t| >= 8 || (t != [] && t[0] > 0)) && exists i :: 0 <= i < |t| && i < 8 && t[i] < 255
    ensures InScan(p, 0, UINT64 - 1, k)
  {
    hide Less, BigEndian, Pow256;
    var t := k[|p| + 1..];
    Pow8();
    ZeroBytes(8);
    LastBytes(UINT64 - 1, 8);
    ScanBytes(p, 0, UINT64 - 1, k);
    if |t| >= 8 {
      LeastBytes(BigEndian(0, 8), t);
    } else {
      FirstLess(BigEndian(0, 8), t);
    }
    GreatestBytes(t, BigEndian(UINT64 - 1, 8));
  }

  lemma FirstLess(x: seq<Byte>, y: seq<Byte>)
    requires x != [] && y != [] && x[0] < y[0]
    ensures Less(x, y)
  {
  }

  /** Every eight bytes are those of a number. */
  lemma EveryEight(b: seq<Byte>)
    requires |b| == 8
    ensures Number(b) < UINT64 && BigEndian(Number(b), 8) == b
  {
    Pow8();
    BigEndianOfNumber(b);
  }

  lemma GoesOnCollides(p: seq<Byte>, q: seq<Byte>)
    requires GoesOn(p, q)
    ensures Collides(p, q)
  {
    hide BigEndian;
    var k, rest := RecordKey(q, 0, 0), [SEPARATOR] + (BigEndian(0, 8) + [SEPARATOR] + BigEndian(0, 8));
    var r := q[|p| + 1..];
    assert k == q + rest;
    assert k[..|p| + 1] == q[..|p| + 1];
    assert k[|p| + 1..] == r + rest;
    if |r| < 8 {
      assert (r + rest)[|r|] == SEPARATOR;
    } else {
      var i :| 0 <= i < 8 && r[i] < 255;
      assert (r + rest)[i] < 255;
    }
    WidestScan(p, k);
    hide InScan, RecordKey;
  }

  /** The bytes of a time, a separator and a counter that begin with s and another separator. */
  function Filled(s: seq<Byte>): (u: seq<Byte>)
    requires |s| < 16 && (|s| > 8 ==> s[8] == SEPARATOR)
    ensures |u| == 17 && u[8] == SEPARATOR && u[..|s|] == s && u[|s|] == SEPARATOR && 0 < u[|s| + 1] < 255
  {
    seq(17, i requires 0 <= i < 17 => if i < |s| then s[i] else if i == |s| || i == 8 then SEPARATOR else 1)
  }

  lemma PartCollides(p: seq<Byte>, q: seq<Byte>)
    requires PartOfRecord(p, q)
    ensures Collides(p, q)
  {
    hide BigEndian, Number;
    var s := p[|q| + 1..];
    var u := Filled(s);
    EveryEight(u[..8]);
    EveryEight(u[9..]);
    var k := RecordKey(q, Number(u[..8]), Number(u[9..]));
    assert u == u[..8] + [SEPARATOR] + u[9..];
    assert k == q + [SEPARATOR] + u;
    assert p == q + [SEPARATOR] + s;
    assert k[..|p| + 1] == q + [SEPARATOR] + u[..|s| + 1];
    assert u[..|s| + 1] == s + [SEPARATOR];
    assert k[|p| + 1..] == u[|s| + 1..];
    assert u[|s| + 1..][0] == u[|s| + 1];
    WidestScan(p, k);
    hide InScan, RecordKey;
  }

  lemma CollidesOnly(p: seq<Byte>, q: seq<Byte>, start: nat, end: nat, ts: nat, counter: nat)
    requires p != q && InScan(p, start, end, RecordKey(q, ts, counter))
    ensures GoesOn(p, q) || PartOfRecord(p, q)
  {
    hide BigEndian, Less;
    var k, u := RecordKey(q, ts, counter), BigEndian(ts, 8) + [SEPARATOR] + BigEndian(counter, 8);
    ScanBytes(p, start, end, k);
    assert k == q + [SEPARATOR] + u && |u| == 17 && u[8] == SEPARATOR;
    assert k[..|q|] == q && k[..|p| + 1][..|p|] == p && k[..|p|] == p;
    var t := k[|p| + 1..];
    if |t| >= 8 {
      BelowGreatest(t, BigEndian(end, 8));
    }
    if |p| < |q| {
      assert q[..|p| + 1] == k[..|p| + 1];
      var r := q[|p| + 1..];
      assert t == r + ([SEPARATOR] + u);
    } else if |p| > |q| {
      var s := p[|q| + 1..];
      assert p[..|q| + 1] == k[..|q| + 1] == q + [SEPARATOR];
      assert s == k[|q| + 1..|p|] == u[..|s|];
      NotBelow(BigEndian(start, 8), t);
    }
  }

  lemma NotBelow(x: seq<Byte>, t: seq<Byte>)
    requires x != [] && AtMost(x, t)
    ensures t != []
  {
  }

  /**
   * The exact condition under which a scan of one message key may meet a record of another: one of
   * the two keys goes on from the other with a separator and bytes that can be read as part of a
   * record's time and counter.
   */
  lemma CollidesIff(p: seq<Byte>, q: seq<Byte>)
    requires p != q
    ensures Collides(p, q) <==> GoesOn(p, q) || PartOfRecord(p, q)
  {
    hide GoesOn, PartOfRecord, InScan;
    if Collides(p, q) {
      var start: nat, end: nat, ts: nat, counter: nat :| InScan(p, start, end, RecordKey(q, ts, counter));
      CollidesOnly(p, q, start, end, ts, counter);
    }
    if GoesOn(p, q) {
      GoesOnCollides(p, q);
    }
    if PartOfRecord(p, q) {
      PartCollides(p, q);
    }
  }

  predicate Plain(key: seq<Byte>) { SEPARATOR !in key }

  /** p is a proper prefix of q, and q goes on with a byte below the separator. */
  predicate Overlaps(p: seq<Byte>, q: seq<Byte>) {
    |p| < |q| && q[..|p|] == p && q[|p|] < SEPARATOR
  }

  /** How a key with one of its separators in front compares with a key of another message key. */
  lemma {:induction false} KeysApart(p: seq<Byte>, q: seq<Byte>, u: seq<Byte>, v: seq<Byte>)
    requires Plain(p) && Plain(q) && p != q
    ensures Less(p + [SEPARATOR] + u, q + [SEPARATOR] + v) <==> Less(p + [SEPARATOR], q + [SEPARATOR])
  {
    var x, y := p + [SEPARATOR], q + [SEPARATOR];
    if p == [] || q == [] || p[0] != q[0] {
      assert (x + u)[0] == x[0] && (y + v)[0] == y[0];
      FirstBytes(p, q);
    } else {
      assert (x + u)[1..] == p[1..] + [SEPARATOR] + u && (y + v)[1..] == q[1..] + [SEPARATOR] + v;
      assert x[1..] == p[1..] + [SEPARATOR] && y[1..] == q[1..] + [SEPARATOR];
      assert p == [p[0]] + p[1..] && q == [q[0]] + q[1..];
      KeysApart(p[1..], q[1..], u, v);
    }
  }

  lemma FirstBytes(p: seq<Byte>, q: seq<Byte>)
    requires Plain(p) && Plain(q) && p != q
    requires p == [] || q == [] || p[0] != q[0]
    ensures (p + [SEPARATOR])[0] != (q + [SEPARATOR])[0]
  {
    if p != [] {
      assert p[0] in p;
    }
    if q != [] {
      assert q[0] in q;
    }
  }

  lemma {:induction false} LessTotal(x: seq<Byte>, y: seq<Byte>)
    ensures (Less(x, y) || Less(y, x) || x == y) && !(Less(x, y) && Less(y, x))
  {
    if x != [] && y != [] {
      LessTotal(x[1..], y[1..]);
      assert x == [x[0]] + x[1..] && y == [y[0]] + y[1..];
    }
  }

  lemma LessLonger(x: seq<Byte>, y: seq<Byte>, z: seq<Byte>)
    requires |x| == |y| && z != []
    ensures Less(x, y + z) <==> AtMost(x, y)
    ensures Less(y + z, x) <==> Less(y, x)
  {
    LessAppend(x, y, [], z);
    LessAppend(y, x, z, []);
    assert x + [] == x && [] != z;
  }

  /** How a record's key compares with a bound of its own message key. */
  lemma OwnBound(key: seq<Byte>, bound: nat, ts: nat, counter: nat)
    requires bound < UINT64 && ts < UINT64
    ensures Less(RecordKey(key, ts, counter), Bound(key, bound)) <==> ts < bound
    ensures AtMost(Bound(key, bound), RecordKey(key, ts, counter)) <==> bound <= ts
  {
    hide BigEndian, Less, Pow256;
    Pow8();
    BigEndianOrder(bound, ts, 8);
    BigEndianOrder(ts, bound, 8);
    var head, rest := key + [SEPARATOR], [SEPARATOR] + BigEndian(counter, 8);
    LessLonger(BigEndian(bound, 8), BigEndian(ts, 8), rest);
    LessAppend(head, head, BigEndian(bound, 8), BigEndian(ts, 8) + rest);
    LessAppend(head, head, BigEndian(ts, 8) + rest, BigEndian(bound, 8));
    LessIrreflexive(head);
    assert RecordKey(key, ts, counter) == head + (BigEndian(ts, 8) + rest);
    assert |Bound(key, bound)| < |RecordKey(key, ts, counter)|;
  }

  /** How a record's key compares with a bound of another message key: as the message keys do. */
  lemma OtherBound(p: seq<Byte>, q: seq<Byte>, bound: nat, ts: nat, counter: nat)
    requires Plain(p) && Plain(q) && p != q
    ensures Less(RecordKey(q, ts, counter), Bound(p, bound)) <==> Less(q + [SEPARATOR], p + [SEPARATOR])
    ensures AtMost(Bound(p, bound), RecordKey(q, ts, counter)) <==> Less(p + [SEPARATOR], q + [SEPARATOR])
  {
    hide BigEndian, Less;
    var rest := BigEndian(ts, 8) + [SEPARATOR] + BigEndian(counter, 8);
    KeysApart(q, p, rest, BigEndian(bound, 8));
    KeysApart(p, q, BigEndian(bound, 8), rest);
    AppendDiffers(p, q);
    LessTotal(p + [SEPARATOR], q + [SEPARATOR]);
    LessTotal(Bound(p, bound), RecordKey(q, ts, counter));
  }

  lemma AppendDiffers(p: seq<Byte>, q: seq<Byte>)
    requires p != q
    ensures p + [SEPARATOR] != q + [SEPARATOR]
  {
    assert (p + [SEPARATOR])[..|p|] == p && (q + [SEPARATOR])[..|q|] == q;
  }

  /** A scan of one message key between two times sees its records of those times and no other key's. */
  lemma ScanExact(p: seq<Byte>, q: seq<Byte>, start: nat, end: nat, ts: nat, counter: nat)
    requires Plain(p) && Plain(q) && start < UINT64 && end < UINT64 && ts < UINT64
    ensures AtMost(Bound(p, start), RecordKey(q, ts, counter)) && Less(RecordKey(q, ts, counter), Bound(p, end))
            <==> p == q && start <= ts < end
  {
    hide Less, Bound, RecordKey;
    if p == q {
      OwnBound(p, start, ts, counter);
      OwnBound(p, end, ts, counter);
    } else {
      OtherBound(p, q, start, ts, counter);
      OtherBound(p, q, end, ts, counter);
      LessTotal(p + [SEPARATOR], q + [SEPARATOR]);
    }
  }

  /**
   * The sweep of expired records of one message key starts at the bare key, without a separator.
   * It takes its own records older than the bound, and with them every record of any longer key
   * that goes on with a byte below the separator.
   */
  lemma SweepExact(p: seq<Byte>, q: seq<Byte>, bound: nat, ts: nat, counter: nat)
    requires Plain(p) && Plain(q) && bound < UINT64 && ts < UINT64
    ensures AtMost(p, RecordKey(q, ts, counter)) && Less(RecordKey(q, ts, counter), Bound(p, bound))
            <==> (p == q && ts < bound) || Overlaps(p, q)
  {
    hide Less, Bound, BigEndian;
    var rest := BigEndian(ts, 8) + [SEPARATOR] + BigEndian(counter, 8);
    assert RecordKey(q, ts, counter) == q + [SEPARATOR] + rest;
    if p == q {
      OwnBound(p, bound, ts, counter);
      PrefixBelow(p, [SEPARATOR] + rest);
      assert p + ([SEPARATOR] + rest) == p + [SEPARATOR] + rest;
    } else {
      OtherBound(p, q, bound, ts, counter);
      Between(p, q, rest);
    }
  }

  lemma {:induction false} PrefixBelow(p: seq<Byte>, rest: seq<Byte>)
    ensures AtMost(p, p + rest)
  {
    LessAppend(p, p, [], rest);
    assert p + [] == p;
  }

  lemma {:induction false} Between(p: seq<Byte>, q: seq<Byte>, rest: seq<Byte>)
    requires Plain(p) && Plain(q) && p != q
    ensures AtMost(p, q + [SEPARATOR] + rest) && Less(q + [SEPARATOR], p + [SEPARATOR]) <==> Overlaps(p, q)
  {
    var k := q + [SEPARATOR] + rest;
    if p == [] || q == [] || p[0] != q[0] {
      FirstBytes(p, q);
      BetweenFirst(p, q, k);
    } else {
      assert k[1..] == q[1..] + [SEPARATOR] + rest;
      assert (p + [SEPARATOR])[1..] == p[1..] + [SEPARATOR] && (q + [SEPARATOR])[1..] == q[1..] + [SEPARATOR];
      assert p == [p[0]] + p[1..] && q == [q[0]] + q[1..] && k == [k[0]] + k[1..];
      Between(p[1..], q[1..], rest);
      OverlapsTail(p, q);
    }
  }

  lemma BetweenFirst(p: seq<Byte>, q: seq<Byte>, k: seq<Byte>)
    requires p == [] || q == [] || p[0] != q[0]
    requires (p + [SEPARATOR])[0] != (q + [SEPARATOR])[0]
    requires k != [] && k[0] == (q + [SEPARATOR])[0]
    ensures AtMost(p, k) && Less(q + [SEPARATOR], p + [SEPARATOR]) <==> Overlaps(p, q)
  {
    if q != [] {
      assert (q + [SEPARATOR])[0] == q[0];
    }
    if p != [] {
      assert (p + [SEPARATOR])[0] == p[0];
    }
    OverlapsFirst(p, q);
  }

  lemma OverlapsFirst(p: seq<Byte>, q: seq<Byte>)
    ensures p != [] && Overlaps(p, q) ==> q != [] && p[0] == q[0]
  {
    if p != [] && Overlaps(p, q) {
      assert q[..|p|][0] == q[0];
    }
  }

  lemma OverlapsTail(p: seq<Byte>, q: seq<Byte>)
    requires p != [] && q != [] && p[0] == q[0]
    ensures Overlaps(p, q) <==> Overlaps(p[1..], q[1..])
  {
    if |p| < |q| {
      assert q[1..][..|p| - 1] == q[..|p|][1..];
      assert q[..|p|] == [q[0]] + q[..|p|][1..] && p == [p[0]] + p[1..];
    }
  }
}
