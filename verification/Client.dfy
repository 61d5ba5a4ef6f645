/**
 The echo check of test-apps/test-client.c: a pseudo-random stream is sent in blocks, and whatever the
 server sends back, in whatever pieces, is compared with the same stream.
 */
module Client {
  const BLOCK_SIZE: nat := 3 * 4096

  /** struct lws_poly_gen */
  datatype Gen = Gen(cyc0: bv32, cyc1: bv32)

  const SEED: Gen := Gen(0xabcde, 0x23456789)

  function Step0(x: bv32): bv32 {
    if x & 1 == 1 then (x >> 1) ^ 0xb4bcd35c else x >> 1
  }

  function Step1(x: bv32): bv32 {
    if x & 1 == 1 then (x >> 1) ^ 0x7a5bc2e3 else x >> 1
  }

  /** lws_poly_rand(): the next state, and the byte it yields. */
  function Next(g: Gen): Gen {
    Gen(Step0(Step0(g.cyc0)), Step1(g.cyc1))
  }

  function Yield(g: Gen): bv8 {
    ((g.cyc0 ^ g.cyc1) & 0xff) as bv8
  }

  /** A change of either register's low byte changes the byte in just the same bits. */
  lemma YieldIs(g: Gen, d: bv32)
    ensures Yield(Gen(g.cyc0 ^ d, g.cyc1)) == Yield(g) ^ ((d & 0xff) as bv8)
    ensures Yield(Gen(g.cyc0, g.cyc1 ^ d)) == Yield(g) ^ ((d & 0xff) as bv8)
  {
  }

  /** Neither register is stuck at zero, and the second keeps to 31 bits. */
  predicate Alive(g: Gen) {
    g.cyc0 != 0 && g.cyc1 != 0 && g.cyc1 < 0x8000_0000
  }

  /** The steps backwards: a bit that only the polynomial sets says which way a register went. */
  function Back0(y: bv32): bv32 {
    if y & 0x8000_0000 != 0 then ((y ^ 0xb4bcd35c) << 1) | 1 else y << 1
  }

  function Back1(y: bv32): bv32 {
    if y & 0x4000_0000 != 0 then ((y ^ 0x7a5bc2e3) << 1) | 1 else y << 1
  }

  lemma StepsUndone(x: bv32)
    ensures Back0(Step0(x)) == x && (x < 0x8000_0000 ==> Back1(Step1(x)) == x)
  {
  }

  /** Each register update undoes uniquely: nothing is lost from one state to the next. */
  lemma StepsInjective(x: bv32, y: bv32)
    ensures Step0(x) == Step0(y) ==> x == y
    ensures x < 0x8000_0000 && y < 0x8000_0000 && Step1(x) == Step1(y) ==> x == y
  {
    StepsUndone(x);
    StepsUndone(y);
  }

  lemma NextAlive(g: Gen)
    requires Alive(g)
    ensures Alive(Next(g))
  {
  }

  lemma NextInjective(g: Gen, h: Gen)
    requires Alive(g) && Alive(h) && Next(g) == Next(h)
    ensures g == h
  {
    StepsInjective(Step0(g.cyc0), Step0(h.cyc0));
    StepsInjective(g.cyc0, h.cyc0);
    StepsInjective(g.cyc1, h.cyc1);
  }

  function After(g: Gen, n: nat): Gen {
    if n == 0 then g else Next(After(g, n - 1))
  }

  lemma {:induction false} AliveForever(n: nat)
    ensures Alive(After(SEED, n))
  {
    if n > 0 {
      AliveForever(n - 1);
      NextAlive(After(SEED, n - 1));
    }
  }

  /** The generator has no run-in: if its state ever recurs, the seed itself recurs after as many steps,
      so the stream is one cycle from its first byte. */
  lemma {:induction false} PurelyPeriodic(m: nat, n: nat)
    requires m <= n && After(SEED, m) == After(SEED, n)
    ensures After(SEED, n - m) == SEED
  {
    if m > 0 {
      AliveForever(m - 1);
      AliveForever(n - 1);
      NextInjective(After(SEED, m - 1), After(SEED, n - 1));
      PurelyPeriodic(m - 1, n - 1);
    }
  }

  // ---- a stream of bytes, whatever makes them ---------------------------------------------------

  /** The byte with a given number. */
  type Source = nat -> bv8

  /** `n` bytes of a source, from number `at` on. */
  function Bytes(src: Source, at: nat, n: nat): (s: seq<bv8>)
    ensures |s| == n && forall i :: 0 <= i < n ==> s[i] == src(at + i)
  {
    seq(n, i requires 0 <= i < n => src(at + i))
  }

  /** The stream both ends compute. */
  function PolyRand(n: nat): bv8 {
    Yield(After(SEED, n + 1))
  }

  /** The stream begins with these bytes. */
  lemma StreamBegins()
    ensures Bytes(PolyRand, 0, 4) == [0x4c, 0x98, 0x42, 0x9e]
  {
    var a, b, c, d := Next(SEED), Next(Next(SEED)), Next(Next(Next(SEED))), Next(Next(Next(Next(SEED))));
    assert a == Gen(0xb4be7c6b, 0x6bf97127) && Yield(a) == 0x4c;
    assert b == Gen(0xc3cd25e8, 0x4fa77a70) && Yield(b) == 0x98;
    assert c == Gen(0x30f3497a, 0x27d3bd38) && Yield(c) == 0x42;
    assert d == Gen(0xb8800102, 0x13e9de9c) && Yield(d) == 0x9e;
    assert After(SEED, 1) == a && After(SEED, 2) == b && After(SEED, 3) == c && After(SEED, 4) == d;
  }

  /** The checker's state: `at` counts the calls of the generator; `failed` is set once a byte differed,
      after which the connection is closed. */
  datatype Echo = Echo(at: nat, rxb: nat, rxCount: nat, errs: nat, failed: bool)

  const ECHO_START: Echo := Echo(0, 0, 0, 0, false)

  /** A chunk that matches is counted, one that does not is reported. */
  function Receive(src: Source, e: Echo, chunk: seq<bv8>): Echo {
    if e.failed then e
    else if chunk != Bytes(src, e.at, |chunk|) then e.(errs := e.errs + 1, failed := true)
    else
      var count := e.rxCount + |chunk|;
      e.(at := e.at + |chunk|, rxb := e.rxb + count / BLOCK_SIZE, rxCount := count % BLOCK_SIZE)
  }

  function ReceiveAll(src: Source, chunks: seq<seq<bv8>>): Echo {
    if chunks == [] then ECHO_START else Receive(src, ReceiveAll(src, chunks[..|chunks| - 1]), chunks[|chunks| - 1])
  }

  function Joined(chunks: seq<seq<bv8>>): seq<bv8> {
    if chunks == [] then [] else Joined(chunks[..|chunks| - 1]) + chunks[|chunks| - 1]
  }

  /** Two pieces in a row are the beginning of the stream exactly when each is its own part of it. */
  lemma ContinuesIff(src: Source, a: seq<bv8>, b: seq<bv8>)
    ensures a + b == Bytes(src, 0, |a| + |b|) <==> a == Bytes(src, 0, |a|) && b == Bytes(src, |a|, |b|)
  {
    if a + b == Bytes(src, 0, |a| + |b|) {
      forall i | 0 <= i < |b| ensures b[i] == src(|a| + i) {
        assert (a + b)[|a| + i] == b[i];
      }
      assert a == (a + b)[..|a|];
    }
  }

  /** However the echo is cut up, no mismatch is reported exactly when the bytes received are the
      beginning of the stream, and then the block and byte counts add up to their number. */
  lemma {:induction false} EchoCheckedIff(src: Source, chunks: seq<seq<bv8>>)
    ensures var e, all := ReceiveAll(src, chunks), Joined(chunks);
            && (!e.failed <==> all == Bytes(src, 0, |all|))
            && e.errs == (if e.failed then 1 else 0)
            && (!e.failed ==> e.at == |all| && e.rxb * BLOCK_SIZE + e.rxCount == |all| && e.rxCount < BLOCK_SIZE)
  {
    if chunks != [] {
      EchoCheckedIff(src, chunks[..|chunks| - 1]);
      ContinuesIff(src, Joined(chunks[..|chunks| - 1]), chunks[|chunks| - 1]);
    }
  }

  /** So everything is found received exactly when that many blocks' worth of bytes came, all of them right. */
  lemma CompleteIff(src: Source, chunks: seq<seq<bv8>>, countBlocks: nat)
    ensures var e, all := ReceiveAll(src, chunks), Joined(chunks);
            !e.failed && e.rxCount == 0 && e.rxb == countBlocks <==> all == Bytes(src, 0, countBlocks * BLOCK_SIZE)
  {
    EchoCheckedIff(src, chunks);
  }

  // ---- as it runs -------------------------------------------------------------------------------

  /** One block for the server, after `at` bytes were sent: the next BLOCK_SIZE bytes of the stream. */
  method FillBlock(tx: Gen, buf: array<bv8>, ghost at: nat) returns (tx': Gen)
    requires buf.Length == BLOCK_SIZE && tx == After(SEED, at)
    modifies buf
    ensures tx' == After(SEED, at + BLOCK_SIZE) && buf[..] == Bytes(PolyRand, at, BLOCK_SIZE)
  {
    tx' := tx;
    for n := 0 to BLOCK_SIZE
      invariant tx' == After(SEED, at + n) && forall i :: 0 <= i < n ==> buf[i] == PolyRand(at + i)
    {
      tx' := Next(tx');
      assert tx' == After(SEED, at + n + 1);
      buf[n] := Yield(tx');
    }
  }

  /** LWS_CALLBACK_CLIENT_RECEIVE with flag_echo; `rx` is the receiving generator. */
  method CheckChunk(e: Echo, rx: Gen, chunk: seq<bv8>) returns (r: Echo, rx': Gen)
    requires !e.failed && e.rxCount < BLOCK_SIZE && rx == After(SEED, e.at)
    ensures r == Receive(PolyRand, e, chunk)
    ensures !r.failed ==> rx' == After(SEED, r.at)
  {
    r, rx' := e, rx;
    for n := 0 to |chunk|
      invariant rx' == After(SEED, e.at + n) && forall i :: 0 <= i < n ==> chunk[i] == PolyRand(e.at + i)
    {
      rx' := Next(rx');
      assert rx' == After(SEED, e.at + n + 1);
      if chunk[n] != Yield(rx') {
        assert chunk[n] != Bytes(PolyRand, e.at, |chunk|)[n];
        return e.(errs := e.errs + 1, failed := true), rx';
      }
    }
    assert chunk == Bytes(PolyRand, e.at, |chunk|);
    var count, blocks := CountBlocks(e.rxCount + |chunk|, e.rxb);
    r := e.(at := e.at + |chunk|, rxb := blocks, rxCount := count);
  }

  /** Whole blocks are taken off the byte count one at a time. */
  method CountBlocks(total: nat, rxb: nat) returns (count: nat, blocks: nat)
    ensures blocks == rxb + total / BLOCK_SIZE && count == total % BLOCK_SIZE
  {
    count, blocks := total, rxb;
    while count >= BLOCK_SIZE
      invariant blocks >= rxb && count + (blocks - rxb) * BLOCK_SIZE == total
    {
      count, blocks := count - BLOCK_SIZE, blocks + 1;
    }
  }
}
