/** What an id tells of its clock, its counter and its random bits, and when two ids are one. */
module UuidReading {
  import opened Texts
  import opened Uuid

  /** Two ids are the same text exactly when clock and counter agree, and the 62 random bits with them. */
  lemma SameId(c: Clock, x: seq<Byte>, d: Clock, y: seq<Byte>)
    requires InRange(c) && InRange(d) && |x| == 16 && |y| == 16
    ensures Id(c, x) == Id(d, y) <==> c == d && x[8] % 0x40 == y[8] % 0x40 && x[9..] == y[9..]
  {
    var a, b := Pack(c.last, c.counter, x), Pack(d.last, d.counter, y);
    PrintedOrder(a, b, 16);
    assert a[..16] == a && b[..16] == b;
    PrefixSame(c, x, d, y);
    TailSame(c, x, d, y);
    hide Pack, Printed;
    assert a == a[..8] + a[8..] && b == b[..8] + b[8..];
  }

  lemma PrefixSame(c: Clock, x: seq<Byte>, d: Clock, y: seq<Byte>)
    requires InRange(c) && InRange(d) && |x| == 16 && |y| == 16
    ensures Pack(c.last, c.counter, x)[..8] == Pack(d.last, d.counter, y)[..8] <==> c == d
  {
    var a, b := Pack(c.last, c.counter, x), Pack(d.last, d.counter, y);
    PackedPrefix(c.last, c.counter, x);
    PackedPrefix(d.last, d.counter, y);
    hide BigEndian;
    if c == d {
      assert forall i | 0 <= i < 8 :: a[i] == b[i];
    }
  }

  lemma TailSame(c: Clock, x: seq<Byte>, d: Clock, y: seq<Byte>)
    requires InRange(c) && InRange(d) && |x| == 16 && |y| == 16
    ensures Pack(c.last, c.counter, x)[8..] == Pack(d.last, d.counter, y)[8..] <==>
      x[8] % 0x40 == y[8] % 0x40 && x[9..] == y[9..]
  {
    var a, b := Pack(c.last, c.counter, x), Pack(d.last, d.counter, y);
    hide Part, Version;
    assert a[8..] == [a[8]] + x[9..] && b[8..] == [b[8]] + y[9..];
    assert a[8..][0] == a[8] && b[8..][0] == b[8] && a[8..][1..] == x[9..] && b[8..][1..] == y[9..];
  }

  /** Hexadecimal digits that make a number. */
  predicate Reads(t: Text, n: nat) {
    (forall u | u in t :: IsHex(u)) && FromHex(t) == n
  }

  /** The digits of the bytes from `i` to `k`, between which no dash stands. */
  lemma DigitsBetween(b: seq<Byte>, i: nat, k: nat)
    requires |b| == 16 && i < k <= 16
    requires forall n | i <= n < k :: Place(n) == Place(i) + 2 * (n - i)
    ensures Place(i) + 2 * (k - i) <= |Printed(b, 16)|
    ensures Reads(Printed(b, 16)[Place(i)..Place(i) + 2 * (k - i)], BigEndian(b[i..k]))
  {
    PrintedAt(b, 16);
    var text := Printed(b, 16);
    assert Place(k - 1) + 2 <= Place(16);
    var t := text[Place(i)..Place(i) + 2 * (k - i)];
    forall n | 0 <= n < k - i
      ensures t[2 * n] == HexDigit(b[i..k][n] / 16) && t[2 * n + 1] == HexDigit(b[i..k][n] % 16)
    {
      assert Place(i + n) == Place(i) + 2 * n;
    }
    forall m | 0 <= m < |t| ensures IsHex(t[m]) {
      var n := m / 2;
      assert 0 <= n < k - i && (m == 2 * n || m == 2 * n + 1);
      assert IsHex(t[2 * n]) && IsHex(t[2 * n + 1]);
    }
    hide Printed, IsHex, Place;
    FromHexBytes(t, b[i..k]);
  }

  /** The three groups behind the time: version and counter, variant and random bits, random bits. */
  lemma GroupsRead(c: Clock, x: seq<Byte>)
    requires InRange(c) && |x| == 16
    ensures var id := Id(c, x);
      && IsUuid(id)
      && Reads(id[14..18], 0x7000 + c.counter)
      && Reads(id[19..23], 0x8000 + 0x100 * (x[8] as nat % 0x40) + x[9] as nat)
      && Reads(id[24..], BigEndian(x[10..]))
  {
    var b := Pack(c.last, c.counter, x);
    IdReads(c, x);
    GroupNumbers(c, x);
    PrintedLength(b);
    hide Pack, Printed, Reads, IsUuid, BigEndian;
    DigitsBetween(b, 6, 8);
    DigitsBetween(b, 8, 10);
    DigitsBetween(b, 10, 16);
    assert Printed(b, 16)[24..36] == Printed(b, 16)[24..];
  }

  lemma PrintedLength(b: seq<Byte>)
    requires |b| == 16
    ensures |Printed(b, 16)| == 36
  {
    PrintedAt(b, 16);
  }

  lemma GroupNumbers(c: Clock, x: seq<Byte>)
    requires InRange(c) && |x| == 16
    ensures var b := Pack(c.last, c.counter, x);
      && BigEndian(b[6..8]) == 0x7000 + c.counter
      && BigEndian(b[8..10]) == 0x8000 + 0x100 * (x[8] as nat % 0x40) + x[9] as nat
      && b[10..16] == x[10..]
  {
    var b := Pack(c.last, c.counter, x);
    assert b[6] == Version(c.counter) && b[7] == Part(c.counter, 1) && b[8] == Variant(x[8]) && b[9] == x[9];
    assert b[10..16] == x[10..];
    hide Pack, BigEndian;
    TwoBytes(b[6..8]);
    TwoBytes(b[8..10]);
  }

  lemma TwoBytes(b: seq<Byte>)
    requires |b| == 2
    ensures BigEndian(b) == 0x100 * (b[0] as nat) + b[1] as nat
  {
    BigEndianStep(b, 0);
    BigEndianStep(b, 1);
    assert b[..2] == b;
  }

  /**
   * The id of a call tells: in a millisecond other than that of the call before, the time of the call
   * and the low ten bits of what was drawn; in the same one, one more than before; and when the
   * counter is full, the millisecond after and nothing.
   */
  lemma NextReads(c: Clock, now: nat, random2: nat, x: seq<Byte>)
    requires c == START || InRange(c)
    requires now < TIME_LIMIT - 1 && c.last < TIME_LIMIT - 1 && |x| == 16
    ensures InRange(Tick(c, now, random2))
    ensures var id := Id(Tick(c, now, random2), x);
      && IsUuid(id)
      && (now != c.last ==> Timestamp(id) == now && Reads(id[14..18], 0x7000 + random2 % 1024))
      && (now == c.last && c.counter < 4095 ==> Timestamp(id) == now && Reads(id[14..18], 0x7001 + c.counter))
      && (now == c.last && c.counter == 4095 ==> Timestamp(id) == now + 1 && Reads(id[14..18], 0x7000))
  {
    hide Reads, IsUuid, Id, Timestamp;
    var d := Tick(c, now, random2);
    IdReads(d, x);
    GroupsRead(d, x);
  }
}
