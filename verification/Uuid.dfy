/** UUIDv7 (section 5.7 of RFC 9562): a clock and a counter, packed so that string order is creation order. */
module Uuid {
  import opened Texts

  type Byte = b: nat | b < 0x100

  const MAX_COUNTER := 0xfff
  const TIME_LIMIT := 0x1_0000_0000_0000

  // ----- `nextCounter`

  /** The module's two variables. */
  datatype Clock = Clock(last: int, counter: nat)

  const START := Clock(-1, 0)

  /** What the two random bytes of a call come to. */
  function Seed(random: nat): nat {
    random % 0x400
  }

  function Tick(c: Clock, timestamp: int, random: nat): Clock {
    if timestamp != c.last then Clock(timestamp, Seed(random))
    else if c.counter >= MAX_COUNTER then Clock(c.last + 1, 0)
    else Clock(c.last, c.counter + 1)
  }

  // ----- the layout

  const DASH := [U('-')]

  /** `Math.floor(n / unit) & 0xff`. */
  function Part(n: nat, unit: nat): Byte
    requires unit > 0
  {
    n / unit % 0x100
  }

  /** `0x70 | ((count >> 8) & 0x0f)`. */
  function Version(counter: nat): Byte {
    0x70 + counter / 0x100 % 0x10
  }

  /** `0x80 | (b & 0x3f)`. */
  function Variant(b: Byte): Byte {
    0x80 + b % 0x40
  }

  /** Byte `i` of an id. */
  function PackedByte(timestamp: nat, counter: nat, random: seq<Byte>, i: nat): Byte
    requires |random| == 16 && i < 16
  {
    match i
    case 0 => Part(timestamp, 0x100_0000_0000)
    case 1 => Part(timestamp, 0x1_0000_0000)
    case 2 => Part(timestamp, 0x100_0000)
    case 3 => Part(timestamp, 0x1_0000)
    case 4 => Part(timestamp, 0x100)
    case 5 => Part(timestamp, 1)
    case 6 => Version(counter)
    case 7 => Part(counter, 1)
    case 8 => Variant(random[8])
    case _ => random[i]
  }

  function Pack(timestamp: nat, counter: nat, random: seq<Byte>): (r: seq<Byte>)
    requires |random| == 16
    ensures |r| == 16
  {
    seq(16, i requires 0 <= i < 16 => PackedByte(timestamp, counter, random, i))
  }

  /** The first `n` bytes in hexadecimal, with the dashes. */
  function Printed(bytes: seq<Byte>, n: nat): Text
    requires n <= |bytes|
  {
    if n == 0 then []
    else
      Printed(bytes, n - 1) + Hex(2, bytes[n - 1]) +
      if n - 1 == 3 || n - 1 == 5 || n - 1 == 7 || n - 1 == 9 then DASH else []
  }

  function Id(c: Clock, random: seq<Byte>): Text
    requires c.last >= 0 && |random| == 16
  {
    Printed(Pack(c.last, c.counter, random), 16)
  }

  class Generator {
    var lastTimestamp: int
    var counter: nat

    function State(): Clock
      reads this
    {
      Clock(lastTimestamp, counter)
    }

    constructor ()
      ensures State() == START
    {
      lastTimestamp, counter := -1, 0;
    }

    /** `nextCounter`; `random` is what `randomBytes(2)` returned. */
    method NextCounter(timestamp: int, random: nat) returns (r: nat)
      modifies this
      ensures State() == Tick(old(State()), timestamp, random) && r == counter
    {
      if timestamp != lastTimestamp {
        lastTimestamp := timestamp;
        counter := random % 0x400;
        return counter;
      }
      if counter >= MAX_COUNTER {
        lastTimestamp := lastTimestamp + 1;
        counter := 0;
        return counter;
      }
      counter := counter + 1;
      return counter;
    }

    /** `uuidv7`; `random2` and `random16` are what `randomBytes` returned. */
    method Uuidv7(now: nat, random2: nat, random16: seq<Byte>) returns (out: Text)
      requires |random16| == 16
      modifies this
      ensures State() == Tick(old(State()), now, random2)
      ensures State().last >= 0 && out == Id(State(), random16)
    {
      var count := NextCounter(now, random2);
      var bytes := new Byte[16](i requires 0 <= i < 16 => random16[i]);
      assert bytes[..] == random16;
      PackInto(bytes, lastTimestamp, count);
      out := PrintBytes(bytes);
    }
  }

  /** The assignments of `uuidv7` to its buffer of random bytes. */
  method PackInto(bytes: array<Byte>, timestamp: nat, count: nat)
    requires bytes.Length == 16
    modifies bytes
    ensures bytes[..] == Pack(timestamp, count, old(bytes[..]))
  {
    hide Part, Version, Variant;
    ghost var random := bytes[..];
    bytes[0] := Part(timestamp, 0x100_0000_0000);
    bytes[1] := Part(timestamp, 0x1_0000_0000);
    bytes[2] := Part(timestamp, 0x100_0000);
    bytes[3] := Part(timestamp, 0x1_0000);
    bytes[4] := Part(timestamp, 0x100);
    bytes[5] := Part(timestamp, 1);
    bytes[6] := Version(count);
    bytes[7] := Part(count, 1);
    bytes[8] := Variant(bytes[8]);
    assert bytes[8] == Variant(random[8]) && bytes[9..] == random[9..];
  }

  /** The printing loop of `uuidv7`. */
  method PrintBytes(bytes: array<Byte>) returns (out: Text)
    requires bytes.Length == 16
    ensures out == Printed(bytes[..], 16)
  {
    hide Hex;
    out := [];
    for index := 0 to 16
      invariant out == Printed(bytes[..], index)
    {
      out := out + Hex(2, bytes[index]);
      if index == 3 || index == 5 || index == 7 || index == 9 {
        out := out + DASH;
      }
    }
  }

  // ----- bytes and numbers

  function BigEndian(bytes: seq<Byte>): nat {
    if bytes == [] then 0 else 0x100 * BigEndian(bytes[..|bytes| - 1]) + bytes[|bytes| - 1]
  }

  lemma TimeParts(t: nat)
    requires t < TIME_LIMIT
    ensures t / 0x100_0000_0000 == Part(t, 0x100_0000_0000)
    ensures t / 0x1_0000_0000 == 0x100 * (t / 0x100_0000_0000) + Part(t, 0x1_0000_0000)
    ensures t / 0x100_0000 == 0x100 * (t / 0x1_0000_0000) + Part(t, 0x100_0000)
    ensures t / 0x1_0000 == 0x100 * (t / 0x100_0000) + Part(t, 0x1_0000)
    ensures t / 0x100 == 0x100 * (t / 0x1_0000) + Part(t, 0x100)
    ensures t == 0x100 * (t / 0x100) + Part(t, 1)
  {
  }

  lemma BigEndianStep(b: seq<Byte>, n: nat)
    requires n < |b|
    ensures BigEndian(b[..n + 1]) == 0x100 * BigEndian(b[..n]) + b[n]
    ensures BigEndian(b[..0]) == 0
  {
    assert b[..n + 1][..n] == b[..n];
  }

  /** The time, the version 7 and the counter, as one number. */
  lemma PackedPrefix(timestamp: nat, counter: nat, random: seq<Byte>)
    requires timestamp < TIME_LIMIT && counter <= MAX_COUNTER && |random| == 16
    ensures BigEndian(Pack(timestamp, counter, random)[..6]) == timestamp
    ensures BigEndian(Pack(timestamp, counter, random)[..8]) == 0x1_0000 * timestamp + 0x7000 + counter
  {
    var b := Pack(timestamp, counter, random);
    assert 0x100 * Version(counter) + Part(counter, 1) == 0x7000 + counter;
    TimeParts(timestamp);
    hide Part, BigEndian;
    BigEndianStep(b, 0);
    BigEndianStep(b, 1);
    BigEndianStep(b, 2);
    BigEndianStep(b, 3);
    BigEndianStep(b, 4);
    BigEndianStep(b, 5);
    BigEndianStep(b, 6);
    BigEndianStep(b, 7);
    assert BigEndian(b[..0 + 1]) == timestamp / 0x100_0000_0000;
    assert BigEndian(b[..1 + 1]) == timestamp / 0x1_0000_0000;
    assert BigEndian(b[..2 + 1]) == timestamp / 0x100_0000;
    assert BigEndian(b[..3 + 1]) == timestamp / 0x1_0000;
    assert BigEndian(b[..4 + 1]) == timestamp / 0x100;
    assert BigEndian(b[..5 + 1]) == timestamp;
    assert BigEndian(b[..6 + 1]) == 0x100 * timestamp + b[6];
    assert BigEndian(b[..7 + 1]) == 0x100 * BigEndian(b[..6 + 1]) + b[7];
  }

  /** Two byte strings of one length compare as the numbers they are. */
  lemma {:induction false} BytesOrder(a: seq<Byte>, b: seq<Byte>)
    requires |a| == |b|
    ensures Less(a, b) <==> BigEndian(a) < BigEndian(b)
    ensures a == b <==> BigEndian(a) == BigEndian(b)
  {
    if a != [] {
      var n := |a| - 1;
      BytesOrder(a[..n], b[..n]);
      assert a == a[..n] + [a[n]] && b == b[..n] + [b[n]];
      LessAppend(a[..n], b[..n], [a[n]], [b[n]]);
      assert Less([a[n]], [b[n]]) <==> a[n] < b[n];
    }
  }

  // ----- the printed text

  function Dashed(n: nat): Text {
    if n == 3 || n == 5 || n == 7 || n == 9 then DASH else []
  }

  lemma {:induction false} ByteOrder(x: Byte, y: Byte)
    ensures Less(Hex(2, x), Hex(2, y)) <==> Less([x], [y])
    ensures Hex(2, x) == Hex(2, y) <==> x == y
  {
    assert Pow16(2) == 0x100;
    HexOrder(2, x, y);
    assert Less([x], [y]) <==> x < y;
  }

  /** Printing keeps order: the text compares as the bytes do. */
  lemma {:induction false} PrintedOrder(a: seq<Byte>, b: seq<Byte>, n: nat)
    requires n <= |a| && n <= |b|
    ensures |Printed(a, n)| == |Printed(b, n)|
    ensures Less(Printed(a, n), Printed(b, n)) <==> Less(a[..n], b[..n])
    ensures Printed(a, n) == Printed(b, n) <==> a[..n] == b[..n]
  {
    if n > 0 {
      hide Hex, Less;
      var x, y, d := a[n - 1], b[n - 1], Dashed(n - 1);
      PrintedOrder(a, b, n - 1);
      assert a[..n] == a[..n - 1] + [x] && b[..n] == b[..n - 1] + [y];
      LessAppend(a[..n - 1], b[..n - 1], [x], [y]);
      ByteOrder(x, y);
      var p, q, h, k := Printed(a, n - 1), Printed(b, n - 1), Hex(2, x), Hex(2, y);
      assert Printed(a, n) == p + (h + d) && Printed(b, n) == q + (k + d);
      hide Printed;
      LessAppend(h, k, d, d);
      LessIrreflexive(d);
      LessAppend(p, q, h + d, k + d);
      SuffixEqual(h, k, d);
      AppendEqual(p, q, h + d, k + d);
      AppendEqual(a[..n - 1], b[..n - 1], [x], [y]);
    }
  }

  lemma SuffixEqual(a: Text, b: Text, d: Text)
    requires |a| == |b|
    ensures a + d == b + d <==> a == b
  {
    assert (a + d)[..|a|] == a && (b + d)[..|a|] == b;
  }

  lemma AppendEqual(p: Text, q: Text, a: Text, b: Text)
    requires |p| == |q|
    ensures p + a == q + b <==> p == q && a == b
  {
    assert (p + a)[..|p|] == p && (p + a)[|p|..] == a && (q + b)[..|p|] == q && (q + b)[|p|..] == b;
  }

  /** Where the digits of byte `k` stand. */
  function Place(k: nat): nat {
    2 * k + (if k > 3 then 1 else 0) + (if k > 5 then 1 else 0) + (if k > 7 then 1 else 0) + (if k > 9 then 1 else 0)
  }

  lemma {:induction false} PrintedAt(b: seq<Byte>, n: nat)
    requires n <= |b|
    ensures |Printed(b, n)| == Place(n)
    ensures forall k | 0 <= k < n ::
      Printed(b, n)[Place(k)] == HexDigit(b[k] / 16) && Printed(b, n)[Place(k) + 1] == HexDigit(b[k] % 16)
    ensures forall i | 0 <= i < |Printed(b, n)| && i in {8, 13, 18, 23} :: Printed(b, n)[i] == U('-')
  {
    if n > 0 {
      PrintedAt(b, n - 1);
      var x := b[n - 1];
      assert Hex(2, x) == [HexDigit(x / 16), HexDigit(x % 16)] by {
        assert Hex(1, x / 16) == [HexDigit(x / 16)];
      }
      assert Printed(b, n) == Printed(b, n - 1) + ([HexDigit(x / 16), HexDigit(x % 16)] + Dashed(n - 1));
    }
  }

  // ----- reading an id

  predicate IsUuid(v: Text) {
    && |v| == 36
    && forall i | 0 <= i < 36 :: if i in {8, 13, 18, 23} then v[i] == U('-') else IsHex(v[i])
  }

  /** `uuidv7Timestamp`, of a text that is an id. */
  function Timestamp(id: Text): nat
    requires IsUuid(id)
  {
    FromHex(id[..8] + id[9..13])
  }

  lemma {:induction false} FromHexBytes(t: Text, b: seq<Byte>)
    requires |t| == 2 * |b| && forall u | u in t :: IsHex(u)
    requires forall k | 0 <= k < |b| :: t[2 * k] == HexDigit(b[k] / 16) && t[2 * k + 1] == HexDigit(b[k] % 16)
    ensures FromHex(t) == BigEndian(b)
  {
    if b != [] {
      var n := |b| - 1;
      FromHexBytes(t[..2 * n], b[..n]);
      assert t[..2 * n + 1][..2 * n] == t[..2 * n];
      assert t[..|t| - 1] == t[..2 * n + 1];
      assert t[2 * n] == HexDigit(b[n] / 16) && t[2 * n + 1] == HexDigit(b[n] % 16);
    }
  }

  lemma {:induction false} PlaceOf(i: nat)
    requires i < 36 && i !in {8, 13, 18, 23}
    ensures exists k :: 0 <= k < 16 && (Place(k) == i || Place(k) + 1 == i)
  {
    var dashes := if i > 23 then 4 else if i > 18 then 3 else if i > 13 then 2 else if i > 8 then 1 else 0;
    var k := (i - dashes) / 2;
    assert Place(k) == i || Place(k) + 1 == i;
  }

  /** Every id is a well-formed UUID of version 7 and of the variant 10, and gives back its time. */
  lemma IdReads(c: Clock, random: seq<Byte>)
    requires InRange(c) && |random| == 16
    ensures IsUuid(Id(c, random)) && Timestamp(Id(c, random)) == c.last
    ensures Id(c, random)[14] == U('7') && Id(c, random)[19] in {U('8'), U('9'), U('a'), U('b')}
  {
    var b, id := Pack(c.last, c.counter, random), Id(c, random);
    PrintedAt(b, 16);
    assert Place(16) == 36 && Place(6) == 14 && Place(8) == 19;
    assert b[6] / 16 == 7 && 8 <= b[8] / 16 < 12;
    forall i | 0 <= i < 36 && i !in {8, 13, 18, 23} ensures IsHex(id[i]) {
      PlaceOf(i);
    }
    var t := id[..8] + id[9..13];
    forall k | 0 <= k < 6 ensures t[2 * k] == HexDigit(b[k] / 16) && t[2 * k + 1] == HexDigit(b[k] % 16) {
      assert Place(k) == if k > 3 then 2 * k + (if k > 5 then 2 else 1) else 2 * k;
    }
    FromHexBytes(t, b[..6]);
    PackedPrefix(c.last, c.counter, random);
  }

  // ----- order

  predicate Before(c: Clock, d: Clock) {
    c.last < d.last || (c.last == d.last && c.counter < d.counter)
  }

  predicate InRange(c: Clock) {
    0 <= c.last < TIME_LIMIT && c.counter <= MAX_COUNTER
  }

  /** String order is (time, counter) order, whatever the random part. */
  lemma IdOrder(c: Clock, d: Clock, x: seq<Byte>, y: seq<Byte>)
    requires InRange(c) && InRange(d) && |x| == 16 && |y| == 16
    requires c != d
    ensures Less(Id(c, x), Id(d, y)) <==> Before(c, d)
  {
    var a, b := Pack(c.last, c.counter, x), Pack(d.last, d.counter, y);
    PrintedOrder(a, b, 16);
    assert a[..16] == a[..8] + a[8..] && b[..16] == b[..8] + b[8..];
    LessAppend(a[..8], b[..8], a[8..], b[8..]);
    BytesOrder(a[..8], b[..8]);
    PackedPrefix(c.last, c.counter, x);
    PackedPrefix(d.last, d.counter, y);
  }

  // ----- runs of the generator

  datatype Call = Call(now: nat, random2: nat, random16: seq<Byte>)

  ghost predicate Possible(calls: seq<Call>) {
    forall call | call in calls :: call.now < TIME_LIMIT - 1 && |call.random16| == 16
  }

  ghost function After(c: Clock, call: Call): Clock {
    Tick(c, call.now, call.random2)
  }

  ghost function Ids(c: Clock, calls: seq<Call>): (r: seq<Text>)
    requires Possible(calls)
    ensures |r| == |calls|
    decreases |calls|
  {
    if calls == [] then []
    else
      assert calls[0] in calls;
      [Id(After(c, calls[0]), calls[0].random16)] + Ids(After(c, calls[0]), calls[1..])
  }

  ghost predicate Ascending(ids: seq<Text>) {
    forall i, k | 0 <= i < k < |ids| :: Less(ids[i], ids[k])
  }

  /** No call comes at a time before the one the id before it was given. */
  ghost predicate NeverBehind(c: Clock, calls: seq<Call>)
    decreases |calls|
  {
    calls == [] || (calls[0].now >= c.last && NeverBehind(After(c, calls[0]), calls[1..]))
  }

  /** One call: the new id follows the last one just when the clock has not fallen behind it. */
  lemma CallOrder(c: Clock, call: Call, x: seq<Byte>)
    requires InRange(c) && |x| == 16 && Possible([call])
    ensures InRange(After(c, call))
    ensures Less(Id(c, x), Id(After(c, call), call.random16)) <==> call.now >= c.last
  {
    assert call in [call];
    IdOrder(c, After(c, call), x, call.random16);
  }

  lemma {:induction false} AscendingCons(id: Text, ids: seq<Text>)
    ensures Ascending([id] + ids) <==> Ascending(ids) && (ids != [] ==> Less(id, ids[0]))
  {
    var all := [id] + ids;
    assert forall i | 0 <= i < |ids| :: all[i + 1] == ids[i];
    if Ascending(all) {
      forall i, k | 0 <= i < k < |ids| ensures Less(ids[i], ids[k]) {
        assert Less(all[i + 1], all[k + 1]);
      }
      if ids != [] {
        assert Less(all[0], all[1]);
      }
    }
    if Ascending(ids) && (ids != [] ==> Less(id, ids[0])) {
      forall i, k | 0 <= i < k < |all| ensures Less(all[i], all[k]) {
        if i > 0 {
          assert Less(ids[i - 1], ids[k - 1]);
        } else if k > 1 {
          assert Less(ids[0], ids[k - 1]);
          LessTransitive(id, ids[0], ids[k - 1]);
        }
      }
    }
  }

  lemma {:induction false} RunFrom(c: Clock, x: seq<Byte>, calls: seq<Call>)
    requires InRange(c) && |x| == 16 && Possible(calls)
    ensures Ascending([Id(c, x)] + Ids(c, calls)) <==> NeverBehind(c, calls)
    decreases |calls|
  {
    hide Less, Id, Tick;
    AscendingCons(Id(c, x), Ids(c, calls));
    if calls != [] {
      assert calls[0] in calls;
      CallOrder(c, calls[0], x);
      RunFrom(After(c, calls[0]), calls[0].random16, calls[1..]);
    }
  }

  /** A process's ids ascend, as strings, if and only if no call is behind the id before it. */
  lemma IdsAscend(calls: seq<Call>)
    requires Possible(calls)
    ensures Ascending(Ids(START, calls)) <==> NeverBehind(START, calls)
  {
    if calls != [] {
      assert calls[0] in calls;
      RunFrom(After(START, calls[0]), calls[0].random16, calls[1..]);
    }
  }

  // ----- how many calls one millisecond holds

  function CallsAt(calls: seq<Call>, t: nat): nat {
    if calls == [] then 0 else (if calls[0].now == t then 1 else 0) + CallsAt(calls[1..], t)
  }

  predicate Forward(from: nat, calls: seq<Call>)
    decreases |calls|
  {
    calls == [] || (from <= calls[0].now && Forward(calls[0].now, calls[1..]))
  }

  const CAPACITY := 3074

  /** Where the clock can be after `n` calls at `t`: still within it, or one borrow ahead after the last it holds. */
  ghost predicate Holds(c: Clock, t: nat, n: nat) {
    || (c.last == t && c.counter <= 1022 + n && c.counter <= MAX_COUNTER && n >= 1)
    || (c.last == t + 1 && c.counter == 0 && n >= CAPACITY)
  }

  lemma {:induction false} WithinCapacity(c: Clock, t: nat, n: nat, calls: seq<Call>)
    requires Holds(c, t, n) && Forward(t, calls)
    requires n + CallsAt(calls, t) <= CAPACITY
    requires forall u :: CallsAt(calls, u) <= CAPACITY
    ensures NeverBehind(c, calls)
    decreases |calls|
  {
    if calls != [] {
      var now := calls[0].now;
      forall u ensures CallsAt(calls[1..], u) <= CAPACITY {
        assert CallsAt(calls, u) <= CAPACITY;
      }
      var next := After(c, calls[0]);
      if now == t {
        assert Holds(next, t, n + 1);
        WithinCapacity(next, t, n + 1, calls[1..]);
      } else {
        assert CallsAt(calls, now) <= CAPACITY;
        assert Holds(next, now, 1);
        WithinCapacity(next, now, 1, calls[1..]);
      }
    }
  }

  /** With a clock that never goes back and at most 3074 calls in any millisecond, the ids ascend. */
  lemma CapacityAscends(calls: seq<Call>)
    requires Possible(calls) && Forward(0, calls)
    requires forall u :: CallsAt(calls, u) <= CAPACITY
    ensures Ascending(Ids(START, calls))
  {
    if calls != [] {
      var now := calls[0].now;
      forall u ensures CallsAt(calls[1..], u) <= CAPACITY {
        assert CallsAt(calls, u) <= CAPACITY;
      }
      assert CallsAt(calls, now) <= CAPACITY;
      assert Holds(After(START, calls[0]), now, 1);
      WithinCapacity(After(START, calls[0]), now, 1, calls[1..]);
    }
    IdsAscend(calls);
  }

  function Burst(t: nat, random2: nat, random16: seq<Byte>, n: nat): seq<Call> {
    seq(n, _ => Call(t, random2, random16))
  }

  lemma {:induction false} BurstFrom(c: Clock, t: nat, random2: nat, random16: seq<Byte>, n: nat)
    requires c.last == t && c.counter <= MAX_COUNTER
    ensures NeverBehind(c, Burst(t, random2, random16, n)) <==> n + c.counter <= MAX_COUNTER + 1
    decreases n
  {
    var calls := Burst(t, random2, random16, n);
    if n > 0 {
      assert calls[1..] == Burst(t, random2, random16, n - 1);
      if c.counter < MAX_COUNTER {
        BurstFrom(After(c, calls[0]), t, random2, random16, n - 1);
      } else if n > 1 {
        assert calls[1..][0].now < After(c, calls[0]).last;
      }
    }
  }

  /**
   * The bound is tight, and depends on the seed alone: a burst within one millisecond ascends if and
   * only if it has at most 4097 calls less the seed. The highest seed leaves 3074.
   */
  lemma BurstCapacity(t: nat, random2: nat, random16: seq<Byte>, n: nat)
    requires t < TIME_LIMIT - 1 && |random16| == 16
    ensures Possible(Burst(t, random2, random16, n))
    ensures Ascending(Ids(START, Burst(t, random2, random16, n))) <==> n <= 4097 - Seed(random2)
  {
    var calls := Burst(t, random2, random16, n);
    IdsAscend(calls);
    if n > 0 {
      assert calls[1..] == Burst(t, random2, random16, n - 1);
      BurstFrom(After(START, calls[0]), t, random2, random16, n - 1);
    }
  }
}
