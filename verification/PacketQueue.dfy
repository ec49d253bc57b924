/** The ring buffer of point packets (ldq.cpp) and the two ends of the hand-off that use it (lds.cpp, lddc.cpp). */
module PacketQueue {

  const WORD := 0x1_0000_0000

  type uint32 = x: int | 0 <= x < 0x1_0000_0000

  function Wrap(x: int): uint32 { x % WORD }

  function Power2(k: nat): (r: nat)
    ensures r > 0
  {
    if k == 0 then 1 else 2 * Power2(k - 1)
  }

  /** Bitwise and. */
  function And(a: nat, b: nat): nat
    decreases a
  {
    if a == 0 || b == 0 then 0 else (a % 2) * (b % 2) + 2 * And(a / 2, b / 2)
  }

  lemma {:induction false} AndOdd(x: nat, m: nat)
    requires x > 0 && m > 0
    ensures And(x, 2 * m - 1) == x % 2 + 2 * And(x / 2, m - 1)
  {
    assert (2 * m - 1) / 2 == m - 1 && (2 * m - 1) % 2 == 1;
  }

  lemma {:induction false} MaskIsRemainder(x: nat, k: nat)
    ensures And(x, Power2(k) - 1) == x % Power2(k)
    decreases k
  {
    hide And, Power2;
    if k == 0 || x == 0 {
      MaskBase(x, k);
    } else {
      var m := Power2(k - 1);
      PowerStep(k);
      AndOdd(x, m);
      MaskIsRemainder(x / 2, k - 1);
      HalfRemainder(x, m);
    }
  }

  lemma {:induction false} MaskBase(x: nat, k: nat)
    requires k == 0 || x == 0
    ensures And(x, Power2(k) - 1) == x % Power2(k)
  {
  }

  lemma {:induction false} PowerStep(k: nat)
    requires k > 0
    ensures Power2(k) == 2 * Power2(k - 1)
  {
  }

  lemma {:induction false} HalfRemainder(x: nat, m: nat)
    requires m > 0
    ensures x % (2 * m) == x % 2 + 2 * ((x / 2) % m)
  {
    var q, r := x / 2 / m, (x / 2) % m;
    assert x / 2 == q * m + r;
    Doubled(x, q, m, r);
    RemainderIs(x, q, 2 * m, 2 * r + x % 2);
  }

  lemma {:induction false} Doubled(x: nat, q: nat, m: nat, r: nat)
    requires x / 2 == q * m + r
    ensures x == q * (2 * m) + (2 * r + x % 2)
  {
    assert q * (2 * m) == 2 * (q * m);
  }

  /** The remainder is the one number below `n` that differs from `x` by a multiple of `n`. */
  lemma {:induction false} RemainderIs(x: int, q: int, n: nat, r: int)
    requires n > 0 && 0 <= r < n && x == q * n + r
    ensures x % n == r
  {
    var d := x / n - q;
    assert d * n == (x / n) * n - q * n;
    SmallMultiple(d, n, r - x % n);
  }

  lemma {:induction false} SmallMultiple(d: int, n: nat, x: int)
    requires n > 0 && d * n == x && 0 - n < x < n
    ensures x == 0
  {
    MultipleGrows(d, n);
  }

  lemma {:induction false} MultipleGrows(d: int, n: nat)
    ensures d >= 1 ==> d * n >= n
    ensures d <= -1 ==> d * n <= 0 - n
  {
  }

  lemma {:induction false} Powers()
    ensures Power2(31) == 0x8000_0000 && Power2(32) == WORD
  {
    assert Power2(8) == 256;
    PowerSum(8, 8);
    PowerSum(16, 8);
    PowerSum(24, 7);
    assert Power2(7) == 128;
  }

  lemma {:induction false} PowerSum(a: nat, b: nat)
    ensures Power2(a + b) == Power2(a) * Power2(b)
    decreases a
  {
    if a > 0 {
      PowerSum(a - 1, b);
      DoubledProduct(Power2(a - 1), Power2(b));
    }
  }

  lemma {:induction false} DoubledProduct(x: nat, y: nat)
    ensures 2 * (x * y) == (2 * x) * y
  {
  }

  /** A remainder by a multiple does not change the remainder. */
  lemma {:induction false} RemainderOfRemainder(x: nat, n: nat, m: nat)
    requires n > 0 && m > 0 && n * m > 0
    ensures (x % (n * m)) % n == x % n
  {
    var w := n * m;
    var q, y := x / w, x % w;
    var p, r := y / n, y % n;
    assert x == q * w + y && y == p * n + r;
    Collected(q, n, m, p, r);
    RemainderIs(x, q * m + p, n, r);
  }

  lemma {:induction false} Collected(q: nat, n: nat, m: nat, p: nat, r: nat)
    ensures q * (n * m) + (p * n + r) == (q * m + p) * n + r
  {
    assert q * (n * m) == (q * m) * n;
    assert (q * m + p) * n == (q * m) * n + p * n;
  }

  /** Wrapping at 32 bits does not change the slot, because the size divides the word. */
  lemma {:induction false} WrapKeepsSlot(x: nat, k: nat)
    requires k <= 32
    ensures Wrap(x) % Power2(k) == x % Power2(k)
  {
    hide Power2;
    Powers();
    PowerSum(k, 32 - k);
    RemainderOfRemainder(x, Power2(k), Power2(32 - k));
  }

  lemma {:induction false} SlotsDiffer(x: nat, i: nat, j: nat, n: nat)
    requires i < j < i + n
    ensures (x + i) % n != (x + j) % n
  {
    if (x + i) % n == (x + j) % n {
      var d := (x + j) / n - (x + i) / n;
      assert (x + j) - (x + i) == d * n;
      SmallMultiple(d, n, j - i);
    }
  }

  predicate IsPowerOf2(size: uint32) {
    size != 0 && And(size, size - 1) == 0
  }

  ghost predicate IsPower(size: nat) {
    exists k: nat :: Power2(k) == size
  }

  lemma {:induction false} HalfPower(size: nat)
    requires size > 1
    ensures IsPower(size) <==> size % 2 == 0 && IsPower(size / 2)
  {
    if IsPower(size) {
      var k: nat :| Power2(k) == size;
      assert Power2(k - 1) == size / 2;
    }
    if size % 2 == 0 && IsPower(size / 2) {
      var k: nat :| Power2(k) == size / 2;
      assert Power2(k + 1) == size;
    }
  }

  /** The test by bits tells powers of two. */
  lemma {:induction false} PowerTest(size: nat)
    requires size > 0
    ensures And(size, size - 1) == 0 <==> IsPower(size)
    decreases size
  {
    hide IsPower;
    if size == 1 {
      OneIsPower();
    } else {
      HalfPower(size);
      if size % 2 == 1 {
        assert (size - 1) / 2 == size / 2;
        AndSelf(size / 2);
      } else {
        assert (size - 1) / 2 == size / 2 - 1;
        PowerTest(size / 2);
      }
    }
  }

  lemma {:induction false} OneIsPower()
    ensures IsPower(1)
  {
    assert Power2(0) == 1;
  }

  lemma {:induction false} AndSelf(x: nat)
    ensures And(x, x) == x
  {
    if x > 0 {
      AndSelf(x / 2);
    }
  }

  /** The power of two not below the size, or the largest one a word holds. */
  method RoundupPowerOf2(size: uint32) returns (power: uint32)
    ensures PowerSized(power)
    ensures size <= 0x8000_0000 ==> size <= power && (power == 1 || power < 2 * size)
    ensures size > 0x8000_0000 ==> power == 0x8000_0000
  {
    Powers();
    power := 0;
    var i: nat := 0;
    while i < 32
      invariant i <= 32
      invariant i > 0 ==> power == Power2(i - 1) && size > power
    {
      PowerUp(i, 31);
      power := Power2(i);
      if size <= power {
        return;
      }
      i := i + 1;
    }
  }

  lemma {:induction false} PowerUp(a: nat, b: nat)
    requires a <= b
    ensures Power2(a) <= Power2(b)
    decreases b - a
  {
    if a < b {
      PowerUp(a, b - 1);
    }
  }

  /** A packet with its points, each known by its identity. */
  datatype Packet = Packet(baseTime: nat, points: seq<int>)

  /** The slot of an index in a ring of `n`. */
  function Place(x: nat, n: nat): (r: nat)
    requires n > 0
    ensures r < n
  {
    x % n
  }

  /** The packets in `n` slots from index `rd` on. */
  function Listed(slots: seq<Packet>, rd: nat, n: nat): (r: seq<Packet>)
    requires n > 0 ==> |slots| > 0
    ensures |r| == n
  {
    seq(n, i requires 0 <= i < n => slots[Place(rd + i, |slots|)])
  }

  lemma {:induction false} PushLists(slots: seq<Packet>, rd: nat, n: nat, packet: Packet)
    requires n < |slots|
    ensures Listed(slots[Place(rd + n, |slots|) := packet], rd, n + 1) == Listed(slots, rd, n) + [packet]
  {
    hide Place;
    var more := slots[Place(rd + n, |slots|) := packet];
    var after, before := Listed(more, rd, n + 1), Listed(slots, rd, n);
    forall i | 0 <= i < n ensures after[i] == before[i] {
      PlacesDiffer(rd, i, n, |slots|);
      assert more[Place(rd + i, |slots|)] == slots[Place(rd + i, |slots|)];
    }
    assert after == before + [packet];
  }

  lemma {:induction false} PlacesDiffer(x: nat, i: nat, j: nat, n: nat)
    requires i < j < i + n
    ensures Place(x + i, n) != Place(x + j, n)
  {
    SlotsDiffer(x, i, j, n);
  }

  lemma {:induction false} PopLists(slots: seq<Packet>, rd: nat, n: nat)
    requires 0 < n <= |slots|
    ensures Listed(slots, rd, n) == [slots[Place(rd, |slots|)]] + Listed(slots, rd + 1, n - 1)
  {
    hide Place;
    var before, after := Listed(slots, rd, n), Listed(slots, rd + 1, n - 1);
    forall i | 1 <= i < n ensures before[i] == after[i - 1] {
      assert rd + i == (rd + 1) + (i - 1);
    }
    assert before == [before[0]] + after;
  }

  lemma {:induction false} WrapLists(slots: seq<Packet>, rd: nat, n: nat, k: nat)
    requires k <= 32 && |slots| == Power2(k)
    ensures Listed(slots, Wrap(rd), n) == Listed(slots, rd, n)
  {
    hide Power2, Place, Wrap;
    forall i | 0 <= i < n ensures Listed(slots, Wrap(rd), n)[i] == Listed(slots, rd, n)[i] {
      WrapPlaces(rd, i, k);
    }
    assert Listed(slots, Wrap(rd), n) == Listed(slots, rd, n);
  }

  lemma {:induction false} WrapPlaces(rd: nat, i: nat, k: nat)
    requires k <= 32
    ensures Place(Wrap(rd) + i, Power2(k)) == Place(rd + i, Power2(k))
  {
    hide Power2;
    WrapKeepsSlot(Wrap(rd) + i, k);
    WrapKeepsSlot(rd + i, k);
    WrapAdds(rd, i);
  }

  lemma {:induction false} WrapAdds(x: nat, i: int)
    ensures Wrap(Wrap(x) + i) == Wrap(x + i)
  {
  }

  class LidarDataQueue {
    var storage: array?<Packet>
    var rdIdx: uint32
    var wrIdx: uint32
    var size: uint32
    var mask: uint32

    /** A queue without storage, as a lidar has it before its first packet. */
    constructor ()
      ensures Valid() && storage == null && Contents() == []
    {
      storage, rdIdx, wrIdx, size, mask := null, 0, 0, 0, 0;
    }

    ghost predicate Valid()
      reads this, storage
    {
      if storage == null then rdIdx == wrIdx
      else PowerSized(size) && storage.Length == size && mask == size - 1 && Used() <= size
    }

    function Used(): uint32
      reads this
    {
      Wrap(wrIdx - rdIdx)
    }

    /** The packets in the queue, the oldest first. */
    ghost function Contents(): (r: seq<Packet>)
      requires Valid()
      reads this, storage
      ensures |r| == Used()
    {
      if storage == null then [] else Listed(storage[..], rdIdx, Used())
    }

    method Init(queueSize: uint32)
      modifies this
      ensures Valid() && storage != null && fresh(storage) && Contents() == []
      ensures PowerSized(queueSize) ==> size == queueSize
      ensures queueSize <= 0x8000_0000 ==> queueSize <= size && (size == 1 || size < 2 * queueSize)
    {
      hide PowerSized, Listed, IsPowerOf2;
      var n := queueSize;
      PowerTests(queueSize);
      if !IsPowerOf2(queueSize) {
        n := RoundupPowerOf2(queueSize);
      }
      SlotIs(0, n);
      storage := new Packet[n](_ => Packet(0, []));
      rdIdx, wrIdx, size, mask := 0, 0, n, n - 1;
    }

    method IsFull() returns (b: bool)
      requires Valid() && storage != null
      ensures b == (|Contents()| == size)
    {
      b := Wrap(wrIdx - rdIdx) > mask;
    }

    method IsEmpty() returns (b: bool)
      requires Valid()
      ensures b == (Contents() == [])
    {
      b := rdIdx == wrIdx;
    }

    /** The caller has made sure that the queue is not full. */
    method PushAny(packet: Packet)
      requires Valid() && storage != null && |Contents()| < size
      modifies this, storage
      ensures Valid() && storage == old(storage) && size == old(size)
      ensures Contents() == old(Contents()) + [packet]
    {
      hide PowerSized, Listed, And, Place, Wrap;
      var w := And(wrIdx, mask);
      ghost var used := Used();
      SlotIs(wrIdx, size);
      EndSlot(rdIdx, wrIdx, size);
      PushLists(storage[..], rdIdx, used, packet);
      storage[w] := packet;
      assert storage[..] == old(storage[..])[w := packet];
      OneMore(rdIdx, wrIdx, size);
      wrIdx := Wrap(wrIdx + 1);
    }

    method Pop() returns (ok: bool, packet: Packet)
      requires Valid()
      modifies this
      ensures Valid() && storage == old(storage) && size == old(size)
      ensures ok == (old(Contents()) != [])
      ensures ok ==> old(Contents()) == [packet] + Contents()
      ensures !ok ==> Contents() == []
    {
      hide PowerSized, Listed, And, Place, Wrap;
      UsedZero(rdIdx, wrIdx);
      packet := Packet(0, []);
      ok := false;
      var empty := IsEmpty();
      if !empty {
        ghost var used := Used();
        SlotIs(rdIdx, size);
        PopLists(storage[..], rdIdx, used);
        NextLists(storage[..], rdIdx, used - 1, size);
        packet := storage[And(rdIdx, mask)];
        OneLess(rdIdx, wrIdx);
        rdIdx := Wrap(rdIdx + 1);
        ok := true;
      }
    }
  }

  ghost predicate PowerSized(size: nat) {
    exists k: nat :: k < 32 && size == Power2(k)
  }

  lemma {:induction false} PowerTests(size: uint32)
    ensures IsPowerOf2(size) <==> PowerSized(size)
  {
    if size > 0 {
      PowerTest(size);
      PowerBelowWord(size);
    }
  }

  lemma {:induction false} PowerBelowWord(size: uint32)
    ensures IsPower(size) <==> PowerSized(size)
  {
    if IsPower(size) {
      var k: nat :| Power2(k) == size;
      BelowWord(k);
      assert k < 32 && size == Power2(k);
    }
  }

  lemma {:induction false} BelowWord(k: nat)
    ensures Power2(k) < WORD ==> k < 32
  {
    Powers();
    if k >= 32 {
      PowerUp(32, k);
    }
  }

  lemma {:induction false} SlotIs(idx: uint32, size: uint32)
    requires PowerSized(size)
    ensures size > 0 && And(idx, size - 1) == Place(idx, size)
  {
    var k: nat :| k < 32 && size == Power2(k);
    MaskIsRemainder(idx, k);
  }

  /** The slot behind the last packet is the one the write index says. */
  lemma {:induction false} EndSlot(rd: uint32, wr: uint32, size: uint32)
    requires PowerSized(size)
    ensures size > 0 && Place(rd + Wrap(wr - rd), size) == Place(wr, size)
  {
    var k: nat :| k < 32 && size == Power2(k);
    WrapKeepsSlot(rd + Wrap(wr - rd), k);
    assert Wrap(rd + Wrap(wr - rd)) == wr;
  }

  lemma {:induction false} OneMore(rd: uint32, wr: uint32, size: uint32)
    requires Wrap(wr - rd) < size
    ensures Wrap(Wrap(wr + 1) - rd) == Wrap(wr - rd) + 1
  {
  }

  lemma {:induction false} OneLess(rd: uint32, wr: uint32)
    requires Wrap(wr - rd) > 0
    ensures Wrap(wr - Wrap(rd + 1)) == Wrap(wr - rd) - 1
  {
  }

  lemma {:induction false} UsedZero(rd: uint32, wr: uint32)
    ensures Wrap(wr - rd) == 0 <==> wr == rd
  {
  }

  lemma {:induction false} NextLists(slots: seq<Packet>, rd: uint32, n: nat, size: uint32)
    requires PowerSized(size) && |slots| == size
    ensures Listed(slots, Wrap(rd + 1), n) == Listed(slots, rd + 1, n)
  {
    var k: nat :| k < 32 && size == Power2(k);
    WrapLists(slots, rd + 1, n, k);
  }

  // ----- the two ends

  class Semaphore {
    var count: int

    method Signal()
      modifies this
      ensures count == old(count) + 1
    {
      count := count + 1;
    }

    /** Returns only once the count is positive. */
    method Wait()
      requires count > 0
      modifies this
      ensures count == old(count) - 1
    {
      count := count - 1;
    }
  }

  /**
   * PushLidarData, nobody interfering: a queue is set up before its first packet, a full queue drops
   * the packet, and either way the semaphore is left positive.
   */
  method PushLidarData(queue: LidarDataQueue, semaphore: Semaphore, packet: Packet, queueSize: uint32)
    requires queue.Valid()
    modifies queue, semaphore, queue.storage
    ensures queue.Valid() && queue.storage != null
    ensures
      var room := old(queue.storage == null) || |old(queue.Contents())| < queue.size;
      queue.Contents() == if room then old(queue.Contents()) + [packet] else old(queue.Contents())
    ensures old(semaphore.count) >= 0 ==>
      semaphore.count == if old(semaphore.count) == 0 then 1 else old(semaphore.count)
    ensures old(queue.storage) != null ==> queue.storage == old(queue.storage) && queue.size == old(queue.size)
    ensures old(queue.storage) == null && queueSize <= 0x8000_0000 ==>
      && queueSize <= queue.size && (queue.size == 1 || queue.size < 2 * queueSize)
      && (PowerSized(queueSize) ==> queue.size == queueSize)
  {
    if queue.storage == null {
      queue.Init(queueSize);
    }
    var full := queue.IsFull();
    if !full {
      queue.PushAny(packet);
      var empty := queue.IsEmpty();
      if !empty {
        if semaphore.count <= 0 {
          semaphore.Signal();
        }
      }
    } else {
      if semaphore.count <= 0 {
        semaphore.Signal();
      }
    }
  }

  /** What is published of a run of packets: those without points are dropped. */
  function Published(packets: seq<Packet>): seq<Packet> {
    if packets == [] then []
    else (if packets[0].points == [] then [] else [packets[0]]) + Published(packets[1..])
  }

  /**
   * PollingLidarPointCloudData with either of the two formats that pop, nobody interfering: the queue
   * ends empty, and what it held is published in order but for packets without points.
   */
  method PollLidar(queue: LidarDataQueue) returns (published: seq<Packet>)
    requires queue.Valid()
    modifies queue
    ensures queue.Valid() && queue.Contents() == []
    ensures published == Published(old(queue.Contents()))
  {
    hide queue.Valid, queue.Contents, Published;
    published := [];
    ghost var all := queue.Contents();
    var empty := queue.IsEmpty();
    assert [] + Published(all) == Published(all);
    while !empty
      invariant queue.Valid() && empty == (queue.Contents() == [])
      invariant published + Published(queue.Contents()) == Published(all)
      invariant queue.storage == old(queue.storage)
      decreases |queue.Contents()|
    {
      ghost var before, sent := queue.Contents(), published;
      var ok, packet := queue.Pop();
      PublishOne(sent, packet, queue.Contents());
      if packet.points != [] {
        published := published + [packet];
      }
      empty := queue.IsEmpty();
    }
    PublishNone(published);
  }

  lemma {:induction false} PublishOne(sent: seq<Packet>, packet: Packet, rest: seq<Packet>)
    ensures sent + Published([packet] + rest)
         == (if packet.points != [] then sent + [packet] else sent) + Published(rest)
  {
    assert ([packet] + rest)[1..] == rest;
  }

  lemma {:induction false} PublishNone(sent: seq<Packet>)
    ensures sent + Published([]) == sent
  {
  }
}
