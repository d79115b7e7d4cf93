/** What the serial read loop of one forwarding step does to the downlink
    buffer, stated on values.

    Each call `UartGetBuffer(&Uart1, DnBuffer + i, DnBufferSize, &nbReadByte)`
    is given as a `Chunk`: the return code and the bytes it delivered. The call
    stores those bytes at offset `i` and sets `nbReadByte` to their number; when
    it returns 0 the loop adds `nbReadByte` to `i` and calls again. */
module Intake {
  import opened Bytes

  datatype Chunk = Chunk(status: int, data: seq<byte>)

  /** The calls one run of the read loop makes: every call but the last returns
      0, and the last, which ends the loop, does not. */
  predicate ReadSession(cs: seq<Chunk>) {
    |cs| > 0 &&
    cs[|cs| - 1].status != 0 &&
    forall j :: 0 <= j < |cs| - 1 ==> cs[j].status == 0
  }

  /** In a run, a call returns 0 exactly when another call follows it. */
  lemma SessionStatus(cs: seq<Chunk>, j: nat)
    requires ReadSession(cs) && j < |cs|
    ensures cs[j].status == 0 <==> j < |cs| - 1
  {
  }

  /** Bytes delivered by all calls. */
  function TotalLength(cs: seq<Chunk>): nat {
    if cs == [] then 0 else |cs[0].data| + TotalLength(cs[1..])
  }

  /** All delivered bytes, in the order they were delivered. */
  function Flatten(cs: seq<Chunk>): (s: seq<byte>)
    ensures |s| == TotalLength(cs)
  {
    if cs == [] then [] else cs[0].data + Flatten(cs[1..])
  }

  /** The value of `i` after one call made at offset `at`. */
  function Next(at: nat, c: Chunk): nat {
    if c.status == 0 then at + |c.data| else at
  }

  /** The value of `i` after all calls: it never moves back and never passes
      the end of the delivered bytes. */
  function Advance(at: nat, cs: seq<Chunk>): (r: nat)
    ensures at <= r <= at + TotalLength(cs)
    decreases |cs|
  {
    if cs == [] then at else Advance(Next(at, cs[0]), cs[1..])
  }

  /** `buf` with `d` stored from offset `at` on. */
  function Store(buf: seq<byte>, at: nat, d: seq<byte>): (r: seq<byte>)
    requires at + |d| <= |buf|
    ensures |r| == |buf|
  {
    buf[..at] + d + buf[at + |d|..]
  }

  /** Storing ends at `at + |d|`: from any later offset on the buffer is unchanged. */
  lemma StoreTail(buf: seq<byte>, at: nat, d: seq<byte>, m: nat)
    requires at + |d| <= m <= |buf|
    ensures Store(buf, at, d)[m..] == buf[m..]
  {
    var r := Store(buf, at, d);
    forall k | m <= k < |buf| ensures r[k] == buf[k] {
      assert r[k] == buf[at + |d|..][k - at - |d|];
    }
  }

  /** The buffer after all calls, starting with `i == at`. */
  function AfterReads(buf: seq<byte>, at: nat, cs: seq<Chunk>): (r: seq<byte>)
    requires at + TotalLength(cs) <= |buf|
    ensures |r| == |buf|
    decreases |cs|
  {
    if cs == [] then buf
    else AfterReads(Store(buf, at, cs[0].data), Next(at, cs[0]), cs[1..])
  }

  /** Call `k` of the loop: storing its chunk and moving `i` past it leaves
      the rest of the run with the same result, and the rest still fits in
      the buffer. */
  lemma ReadStep(buf: seq<byte>, at: nat, cs: seq<Chunk>, k: nat)
    requires k < |cs| && at + TotalLength(cs[k..]) <= |buf|
    ensures at + |cs[k].data| <= |buf| && Next(at, cs[k]) + TotalLength(cs[k + 1..]) <= |buf|
    ensures AfterReads(Store(buf, at, cs[k].data), Next(at, cs[k]), cs[k + 1..]) == AfterReads(buf, at, cs[k..])
    ensures Advance(Next(at, cs[k]), cs[k + 1..]) == Advance(at, cs[k..])
  {
    assert cs[k..][0] == cs[k] && cs[k..][1..] == cs[k + 1..];
  }

  /** Bytes the last call delivered: the value `nbReadByte` keeps after the
      loop, since every call overwrites it. */
  function LastCount(cs: seq<Chunk>): (n: nat)
    requires |cs| > 0
    ensures n <= TotalLength(cs)
  {
    LastWithinTotal(cs);
    |cs[|cs| - 1].data|
  }

  lemma {:induction false} LastWithinTotal(cs: seq<Chunk>)
    requires |cs| > 0
    ensures |cs[|cs| - 1].data| <= TotalLength(cs)
  {
    if |cs| > 1 {
      LastWithinTotal(cs[1..]);
      assert cs[1..][|cs[1..]| - 1] == cs[|cs| - 1];
    }
  }

  /** The reads store only into `[at, at + TotalLength(cs))`: every other byte
      of the buffer keeps its value. */
  lemma {:induction false} AfterReadsOutside(buf: seq<byte>, at: nat, cs: seq<Chunk>, k: nat)
    requires at + TotalLength(cs) <= |buf|
    requires k < |buf| && (k < at || at + TotalLength(cs) <= k)
    ensures AfterReads(buf, at, cs)[k] == buf[k]
    decreases |cs|
  {
    if cs != [] {
      var b := Store(buf, at, cs[0].data);
      AfterReadsOutside(b, Next(at, cs[0]), cs[1..], k);
      assert b[k] == buf[k] by {
        if k < at {
          assert b[k] == b[..at][k];
        } else {
          assert b[k] == b[at + |cs[0].data|..][k - at - |cs[0].data|];
        }
      }
    }
  }

  /** In one run of the read loop the delivered bytes land one after another
      from offset `at`, in delivery order, and `i` ends just before the last
      call's bytes. */
  lemma ReadsContiguous(buf: seq<byte>, at: nat, cs: seq<Chunk>)
    requires ReadSession(cs)
    requires at + TotalLength(cs) <= |buf|
    ensures AfterReads(buf, at, cs)[at..at + TotalLength(cs)] == Flatten(cs)
    ensures Advance(at, cs) + LastCount(cs) == at + TotalLength(cs)
  {
    ReadsLand(buf, at, cs);
    StopsBeforeLast(at, cs);
  }

  lemma {:induction false} ReadsLand(buf: seq<byte>, at: nat, cs: seq<Chunk>)
    requires ReadSession(cs)
    requires at + TotalLength(cs) <= |buf|
    ensures AfterReads(buf, at, cs)[at..at + TotalLength(cs)] == Flatten(cs)
    decreases |cs|
  {
    if |cs| == 1 {
      LandsLast(buf, at, cs);
    } else {
      SessionTail(cs);
      var d := cs[0].data;
      ReadsLand(Store(buf, at, d), at + |d|, cs[1..]);
      LandsBefore(buf, at, cs);
    }
  }

  /** The last call's bytes land from the current `i`. */
  lemma LandsLast(buf: seq<byte>, at: nat, cs: seq<Chunk>)
    requires |cs| == 1 && at + TotalLength(cs) <= |buf|
    ensures AfterReads(buf, at, cs)[at..at + TotalLength(cs)] == Flatten(cs)
  {
    var d := cs[0].data;
    var b := Store(buf, at, d);
    assert cs[1..] == [];
    assert AfterReads(buf, at, cs) == b;
    assert Flatten(cs) == d && TotalLength(cs) == |d|;
    assert b[at..at + |d|] == d;
  }

  /** A call that returned 0 puts its bytes just before those of the calls
      that follow it. */
  lemma LandsBefore(buf: seq<byte>, at: nat, cs: seq<Chunk>)
    requires |cs| > 1 && cs[0].status == 0 && at + TotalLength(cs) <= |buf|
    requires AfterReads(Store(buf, at, cs[0].data), at + |cs[0].data|, cs[1..])
               [at + |cs[0].data|..at + |cs[0].data| + TotalLength(cs[1..])] == Flatten(cs[1..])
    ensures AfterReads(buf, at, cs)[at..at + TotalLength(cs)] == Flatten(cs)
  {
    var d := cs[0].data;
    var rest := cs[1..];
    var r := AfterReads(buf, at, cs);
    assert r == AfterReads(Store(buf, at, d), at + |d|, rest);
    assert Flatten(cs) == d + Flatten(rest) && TotalLength(cs) == |d| + TotalLength(rest);
    var t := at + TotalLength(cs);
    assert r[at + |d|..t] == Flatten(rest);
    FirstChunkKept(buf, at, cs);
    assert r[at..at + |d|] == d;
    SliceSplit(r, at, at + |d|, t);
  }

  lemma {:induction false} StopsBeforeLast(at: nat, cs: seq<Chunk>)
    requires ReadSession(cs)
    ensures Advance(at, cs) + LastCount(cs) == at + TotalLength(cs)
    decreases |cs|
  {
    if |cs| == 1 {
      assert cs[1..] == [];
    } else {
      SessionTail(cs);
      StopsBeforeLast(at + |cs[0].data|, cs[1..]);
    }
  }

  /** After the first call of a run of several returned 0, the remaining calls
      form a run of their own with the same last call. */
  lemma SessionTail(cs: seq<Chunk>)
    requires ReadSession(cs) && |cs| > 1
    ensures cs[0].status == 0 && ReadSession(cs[1..])
    ensures LastCount(cs[1..]) == LastCount(cs)
  {
    var rest := cs[1..];
    assert rest[|rest| - 1] == cs[|cs| - 1];
    forall j | 0 <= j < |rest| - 1 ensures rest[j].status == 0 {
      assert rest[j] == cs[j + 1];
    }
  }

  lemma SliceSplit(r: seq<byte>, i: nat, j: nat, l: nat)
    requires i <= j <= l <= |r|
    ensures r[i..l] == r[i..j] + r[j..l]
  {
  }

  /** The later calls of a run do not overwrite the first call's bytes when
      that call returned 0, since `i` has moved past them. */
  lemma {:induction false} FirstChunkKept(buf: seq<byte>, at: nat, cs: seq<Chunk>)
    requires |cs| > 0 && cs[0].status == 0
    requires at + TotalLength(cs) <= |buf|
    ensures AfterReads(buf, at, cs)[at..at + |cs[0].data|] == cs[0].data
  {
    var d := cs[0].data;
    var b := Store(buf, at, d);
    assert b[at..at + |d|] == d;
    var r := AfterReads(buf, at, cs);
    assert r == AfterReads(b, at + |d|, cs[1..]);
    forall k | at <= k < at + |d| ensures r[k] == d[k - at] {
      AfterReadsOutside(b, at + |d|, cs[1..], k);
      assert b[k] == b[at..at + |d|][k - at];
    }
  }

  /** Starting from `i == 0`, `Send` gets the first `nbReadByte` bytes of the
      stream the run delivered, where `nbReadByte` counts only the last call's
      bytes (and not the bytes accumulated in `i`). */
  lemma SendsStreamPrefix(buf: seq<byte>, cs: seq<Chunk>)
    requires ReadSession(cs)
    requires TotalLength(cs) <= |buf|
    ensures AfterReads(buf, 0, cs)[..LastCount(cs)] == Flatten(cs)[..LastCount(cs)]
  {
    ReadsContiguous(buf, 0, cs);
    var r := AfterReads(buf, 0, cs);
    assert r[..LastCount(cs)] == r[0..TotalLength(cs)][..LastCount(cs)];
  }
}
