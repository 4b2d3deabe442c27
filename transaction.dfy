/** One bounded register transaction: `_do_kvread` and `_do_kvwrite`. Each fits
    its request into the 128-byte scratch buffer by silently lowering the element
    count, sends the register number (address phase) and moves the data (data
    phase), and reports how many whole elements went through. */
module KvTransaction {
  import opened Words
  import opened KvCodec
  import opened I2cTransport

  function Min(a: int, b: int): int
  {
    if a <= b then a else b
  }

  /** C's `/` on `int`: the quotient truncated toward zero. */
  function CDiv(x: int, d: int): (q: int)
    requires 0 < d
    ensures 0 <= x ==> q == x / d
    ensures x < 0 ==> q <= 0
    ensures q == 0 <==> -d < x < d
  {
    DivZero(if x >= 0 then x else -x, d);
    if x >= 0 then x / d else -((-x) / d)
  }

  /** The remainder left by `CDiv` takes the sign of the dividend and is smaller
      than the divisor in magnitude, as C's `/` and `%` require; this pins the
      quotient down for every dividend, negative ones included. */
  lemma CDivTruncates(x: int, d: int)
    requires 0 < d
    ensures 0 <= x ==> 0 <= x - CDiv(x, d) * d < d
    ensures x < 0 ==> -d < x - CDiv(x, d) * d <= 0
    ensures forall q :: (0 <= x ==> 0 <= x - q * d < d) && (x < 0 ==> -d < x - q * d <= 0) ==> q == CDiv(x, d)
  {
    var m := if x >= 0 then x else -x;
    assert m == (m / d) * d + m % d;
    forall q | (0 <= x ==> 0 <= x - q * d < d) && (x < 0 ==> -d < x - q * d <= 0)
      ensures q == CDiv(x, d)
    {
      if x >= 0 {
        DivModUnique(x, d, q, x - q * d);
      } else {
        assert m == (-q) * d + (q * d - x);
        DivModUnique(m, d, -q, q * d - x);
      }
    }
  }

  /** The element count `_do_kvread` keeps for a request of `count` elements of
      `d` bytes. */
  function ReadClamp(count: nat, d: nat): nat
    requires 0 < d
  {
    if Span(count, d) > BUFFER_SIZE then BUFFER_SIZE / d else count
  }

  /** The element count `_do_kvwrite` keeps, leaving room for `a` address bytes. */
  function WriteClamp(count: nat, a: int, d: nat): int
    requires 0 < d
  {
    if Span(count, d) + a > BUFFER_SIZE then (BUFFER_SIZE - a) / d else count
  }

  /** The read clamp is `min(count, 128 / d)`, and a positive request keeps at
      least one element and never more than the buffer holds. */
  lemma ReadClampFits(count: nat, d: nat)
    requires 0 < d < BUFFER_SIZE
    ensures ReadClamp(count, d) == Min(count, BUFFER_SIZE / d)
    ensures 0 < count ==> 0 < ReadClamp(count, d) && Span(ReadClamp(count, d), d) <= BUFFER_SIZE
  {
    SpanIsProduct(count, d);
    if 0 < count {
      SpanIsProduct(ReadClamp(count, d), d);
    }
    DivFloor(BUFFER_SIZE, d, count);
    DivFloor(BUFFER_SIZE, d, 1);
    DivFloor(BUFFER_SIZE, d, BUFFER_SIZE / d);
  }

  /** The write clamp is `min(count, (128 - a) / d)`; address and data together
      never exceed the buffer, and no data element fits at all exactly when one
      element does not fit beside the address. */
  lemma WriteClampFits(count: nat, a: int, d: nat)
    requires 0 < a < BUFFER_SIZE && 0 < d < BUFFER_SIZE
    ensures WriteClamp(count, a, d) == Min(count, (BUFFER_SIZE - a) / d)
    ensures 0 < count ==> 0 <= WriteClamp(count, a, d) && a + Span(WriteClamp(count, a, d), d) <= BUFFER_SIZE
    ensures 0 < count ==> (WriteClamp(count, a, d) == 0 <==> a + d > BUFFER_SIZE)
  {
    SpanIsProduct(count, d);
    if 0 < count && 0 <= WriteClamp(count, a, d) {
      SpanIsProduct(WriteClamp(count, a, d), d);
    }
    DivFloor(BUFFER_SIZE - a, d, count);
    DivFloor(BUFFER_SIZE - a, d, 1);
    DivFloor(BUFFER_SIZE - a, d, 0);
    DivFloor(BUFFER_SIZE - a, d, (BUFFER_SIZE - a) / d);
  }

  /** The data phase of `_do_kvread`: a read of `n` elements' worth of bytes
      on a bus whose next request has position `k`, decoded into the whole
      elements it holds; `data` is what it stores in the caller's buffer. */
  function Fetch(answer: Oracle, k: nat, dfmt: int, n: nat): (f: Exchange)
    requires ReadsConform(answer) && ValidFmt(dfmt)
    ensures 0 <= f.result ==> |f.data| == Span(f.result, Abs(dfmt))
    ensures f.result < 0 ==> f.data == []
  {
    var d := Abs(dfmt);
    var fetch := Read(Span(n, d));
    var reply := answer(k, fetch);
    if reply.result < 0 then Exchange(reply.result, [fetch], [])
    else
      assert Conforms(fetch, reply);
      SpanDiv(reply.result, d);
      Exchange(reply.result / d, [fetch], SwapElems(reply.payload, dfmt, reply.result / d))
  }

  /** What `_do_kvread` does for `count` elements at register `reg`, on a bus
      whose next request has position `k`: the address phase, and the data
      phase only if the whole register number went out. */
  function ReadChunk(answer: Oracle, k: nat, afmt: int, dfmt: int, reg: U64, count: nat): (c: Exchange)
    requires ReadsConform(answer) && ValidFmt(afmt) && ValidFmt(dfmt)
    ensures 0 <= c.result ==> |c.data| == Span(c.result, Abs(dfmt))
    ensures c.result < 0 ==> c.data == []
  {
    var seek := Write(RegBytes(reg, afmt));
    if answer(k, seek).result != Abs(afmt) then Exchange(-1, [seek], [])
    else
      var f := Fetch(answer, k + 1, dfmt, ReadClamp(count, Abs(dfmt)));
      Exchange(f.result, [seek] + f.ops, f.data)
  }

  /** The two phases of a read and how each failure is reported: a short address
      phase gives -1 with no data phase; a failed data phase is passed on. */
  lemma ReadChunkPhases(answer: Oracle, k: nat, afmt: int, dfmt: int, reg: U64, count: nat)
    requires ReadsConform(answer) && ValidFmt(afmt) && ValidFmt(dfmt)
    ensures var c := ReadChunk(answer, k, afmt, dfmt, reg, count);
            1 <= |c.ops| <= 2 && c.ops[0] == Write(RegBytes(reg, afmt)) &&
            (answer(k, c.ops[0]).result != Abs(afmt) ==> c.result == -1 && |c.ops| == 1) &&
            (answer(k, c.ops[0]).result == Abs(afmt) ==>
               |c.ops| == 2 && c.ops[1] == Read(Span(ReadClamp(count, Abs(dfmt)), Abs(dfmt))) &&
               (answer(k + 1, c.ops[1]).result < 0 ==> c.result == answer(k + 1, c.ops[1]).result))
  {
  }

  /** A successful data phase of `bytes` bytes yields `bytes / d` whole elements:
      a partial trailing element is dropped, no more elements come back than
      were requested, and undoing the byte order of the delivered elements gives
      back the bytes the controller sent. */
  lemma FetchWholeElements(answer: Oracle, k: nat, dfmt: int, n: nat)
    requires ReadsConform(answer) && ValidFmt(dfmt)
    requires 0 <= answer(k, Read(Span(n, Abs(dfmt)))).result
    ensures var f := Fetch(answer, k, dfmt, n);
            var reply := answer(k, Read(Span(n, Abs(dfmt))));
            0 <= f.result <= n &&
            Span(f.result, Abs(dfmt)) <= reply.result < Span(f.result + 1, Abs(dfmt)) &&
            SwapElems(f.data, dfmt, f.result) == reply.payload[..Span(f.result, Abs(dfmt))]
  {
    var d := Abs(dfmt);
    var reply := answer(k, Read(Span(n, d)));
    assert Conforms(Read(Span(n, d)), reply);
    var got := reply.result / d;
    SpanDiv(reply.result, d);
    SpanDivLe(reply.result, n, d);
    SwapElemsTwice(reply.payload, dfmt, got);
  }

  /** Within the read loop a chunk never reports more elements than requested. */
  lemma ReadChunkBound(answer: Oracle, k: nat, afmt: int, dfmt: int, reg: U64, count: nat)
    requires ReadsConform(answer) && ValidFmt(afmt) && ValidFmt(dfmt) && 0 < count
    ensures ReadChunk(answer, k, afmt, dfmt, reg, count).result <= ReadClamp(count, Abs(dfmt)) <= count
  {
    var d := Abs(dfmt);
    ReadClampFits(count, d);
    var n := ReadClamp(count, d);
    if answer(k, Write(RegBytes(reg, afmt))).result == Abs(afmt) && 0 <= answer(k + 1, Read(Span(n, d))).result {
      FetchWholeElements(answer, k + 1, dfmt, n);
    }
  }

  /** On a controller that never fails, a read transaction moves every element
      it asks for: all `count` of them when they fit the buffer, else as many
      as fit, and at least one. */
  lemma ReadChunkPerfect(answer: Oracle, k: nat, afmt: int, dfmt: int, reg: U64, count: nat)
    requires Perfect(answer) && ValidFmt(afmt) && ValidFmt(dfmt) && 0 < count
    ensures 0 < ReadChunk(answer, k, afmt, dfmt, reg, count).result == ReadClamp(count, Abs(dfmt))
  {
    var d := Abs(dfmt);
    ReadClampFits(count, d);
    var n := ReadClamp(count, d);
    assert |RegBytes(reg, afmt)| == Abs(afmt);
    assert answer(k, Write(RegBytes(reg, afmt))).result == Abs(afmt);
    assert answer(k + 1, Read(Span(n, d))).result == Span(n, d);
    SpanIsProduct(n, d);
    DivModUnique(Span(n, d), d, n, 0);
  }

  /** The address phase of `_do_kvread`: the register number is laid out at the
      start of the scratch buffer and sent on its own. */
  method SeekRegister(bus: Bus, d: array<Byte>, reg: U64, afmt: int) returns (bytes: int)
    requires ValidFmt(afmt) && Abs(afmt) <= d.Length
    modifies bus, d
    ensures bytes == bus.answer(|old(bus.log)|, Write(RegBytes(reg, afmt))).result
    ensures bus.log == old(bus.log) + [Write(RegBytes(reg, afmt))]
  {
    var abytes := Abs(afmt);
    var _ := FillReg(d, reg, afmt);
    assert d[..abytes] == RegBytes(reg, afmt);
    bytes := bus.SlaveWrite(d, abytes);
  }

  /** The data phase of `_do_kvread`: the reply lands in the scratch buffer `d`
      and its whole elements are laid out into `data` from index `doff`. */
  method FetchElements(bus: Bus, d: array<Byte>, data: array<Byte>, doff: nat, dfmt: int, n: nat) returns (r: int)
    requires ReadsConform(bus.answer) && ValidFmt(dfmt) && d != data
    requires Span(n, Abs(dfmt)) <= d.Length && doff + Span(n, Abs(dfmt)) <= data.Length
    modifies bus, d, data
    ensures var f := Fetch(bus.answer, |old(bus.log)|, dfmt, n);
            r == f.result && bus.log == old(bus.log) + f.ops &&
            doff + |f.data| <= data.Length && data[..] == old(data[..doff]) + f.data + old(data[..])[doff + |f.data|..]
  {
    var dbytes := Abs(dfmt);
    ghost var k := |bus.log|;
    ReadsConformFit(bus.answer);
    var bytes := bus.SlaveRead(d, Span(n, dbytes));
    if bytes < 0 {
      return bytes;
    }
    ghost var payload := bus.answer(k, Read(Span(n, dbytes))).payload;
    FetchWholeElements(bus.answer, k, dfmt, n);
    var count := bytes / dbytes;
    SpanMono(count, n, dbytes);
    SwapElemsOfPrefix(payload, d[|payload|..], dfmt, count);
    FillData(data, doff, d, 0, dfmt, count);
    return count;
  }

  /** `_do_kvread` on the caller's buffer `data` from index `doff`, which has room
      for `count` elements. */
  method DoKvRead(slave: Slave, reg: U64, data: array<Byte>, doff: nat, count: nat) returns (r: int)
    requires slave.bus != null && ReadsConform(slave.bus.answer) && ValidFmt(slave.addressFmt) && ValidFmt(slave.dataFmt)
    requires 0 < count && Span(count, Abs(slave.dataFmt)) <= IntMax
    requires doff + Span(count, Abs(slave.dataFmt)) <= data.Length
    modifies slave.bus, data
    ensures var c := ReadChunk(slave.bus.answer, |old(slave.bus.log)|, slave.addressFmt, slave.dataFmt, reg, count);
            r == c.result && slave.bus.log == old(slave.bus.log) + c.ops &&
            doff + |c.data| <= data.Length && data[..] == old(data[..doff]) + c.data + old(data[..])[doff + |c.data|..]
  {
    var bus := slave.bus;
    var afmt, dfmt := slave.addressFmt, slave.dataFmt;
    var abytes, dbytes := Abs(afmt), Abs(dfmt);
    var n := count;
    if Span(n, dbytes) > BUFFER_SIZE {
      n := BUFFER_SIZE / dbytes;
    }
    ReadClampFits(count, dbytes);
    SpanMono(n, count, dbytes);
    var d := new Byte[BUFFER_SIZE];
    var bytes := SeekRegister(bus, d, reg, afmt);
    if bytes != abytes {
      return -1;
    }
    r := FetchElements(bus, d, data, doff, dfmt, n);
  }

  /** The bytes `_do_kvwrite` sends for `n` elements of `src` at register `reg`:
      the register number, then the elements in the slave's byte order. */
  function WriteFrame(reg: U64, afmt: int, dfmt: int, src: seq<Byte>, n: nat): seq<Byte>
    requires Span(n, Abs(dfmt)) <= |src|
  {
    RegBytes(reg, afmt) + SwapElems(src, dfmt, n)
  }

  /** What `_do_kvwrite` does for `count` elements of `src` at register `reg`, on
      a bus whose next request has position `k`. */
  function WriteChunk(answer: Oracle, k: nat, afmt: int, dfmt: int, reg: U64, src: seq<Byte>, count: int): (c: Exchange)
    requires ValidFmt(afmt) && ValidFmt(dfmt) && 0 < count && Span(count, Abs(dfmt)) <= |src|
    ensures c.data == []
  {
    var a, d := Abs(afmt), Abs(dfmt);
    WriteClampFits(count, a, d);
    var n := WriteClamp(count, a, d);
    SpanMono(n, count, d);
    var send := Write(WriteFrame(reg, afmt, dfmt, src, n));
    var bytes := answer(k, send).result;
    Exchange(if bytes <= 0 then bytes else CDiv(bytes - a, d), [send], [])
  }

  /** A write is one request: the register number followed by the clamped
      elements, all within the buffer; undoing the byte order of its data part
      gives back the caller's elements. */
  lemma WriteChunkFrame(answer: Oracle, k: nat, afmt: int, dfmt: int, reg: U64, src: seq<Byte>, count: int)
    requires ValidFmt(afmt) && ValidFmt(dfmt) && 0 < count && Span(count, Abs(dfmt)) <= |src|
    ensures var c := WriteChunk(answer, k, afmt, dfmt, reg, src, count);
            var n := WriteClamp(count, Abs(afmt), Abs(dfmt));
            0 <= n <= count && |c.ops| == 1 && c.ops[0].Write? &&
            |c.ops[0].bytes| == Abs(afmt) + Span(n, Abs(dfmt)) <= BUFFER_SIZE &&
            c.ops[0].bytes[..Abs(afmt)] == RegBytes(reg, afmt) &&
            Span(n, Abs(dfmt)) <= |src| && SwapElems(c.ops[0].bytes[Abs(afmt)..], dfmt, n) == src[..Span(n, Abs(dfmt))]
  {
    var a, d := Abs(afmt), Abs(dfmt);
    WriteClampFits(count, a, d);
    var n := WriteClamp(count, a, d);
    SpanMono(n, count, d);
    SpanIsProduct(n, d);
    var frame := WriteFrame(reg, afmt, dfmt, src, n);
    assert frame[a..] == SwapElems(src, dfmt, n);
    SwapElemsTwice(src, dfmt, n);
    TakeAll(SwapElems(src, dfmt, n));
    SwapElemsLocal(SwapElems(src, dfmt, n), frame[a..], dfmt, n);
  }

  /** How the controller's answer becomes the result: a failure (at most zero) is
      passed on; otherwise the address bytes are discounted and the rest
      divided into elements, truncating toward zero, so that an answer shorter
      than the address phase gives zero or a negative count. */
  lemma WriteChunkResult(answer: Oracle, k: nat, afmt: int, dfmt: int, reg: U64, src: seq<Byte>, count: int)
    requires ValidFmt(afmt) && ValidFmt(dfmt) && 0 < count && Span(count, Abs(dfmt)) <= |src|
    ensures var c := WriteChunk(answer, k, afmt, dfmt, reg, src, count);
            var bytes := answer(k, c.ops[0]).result;
            (bytes <= 0 ==> c.result == bytes) &&
            (0 < bytes < Abs(afmt) ==> c.result == -((Abs(afmt) - bytes) / Abs(dfmt)) <= 0 &&
                                       (c.result == 0 <==> Abs(afmt) - bytes < Abs(dfmt))) &&
            (Abs(afmt) <= bytes ==> c.result == (bytes - Abs(afmt)) / Abs(dfmt))
  {
  }

  /** The result of a write in terms of the controller's answer to its request. */
  lemma WriteChunkOutcome(answer: Oracle, k: nat, afmt: int, dfmt: int, reg: U64, src: seq<Byte>, count: int)
    requires ValidFmt(afmt) && ValidFmt(dfmt) && 0 < count && Span(count, Abs(dfmt)) <= |src|
    ensures var c := WriteChunk(answer, k, afmt, dfmt, reg, src, count);
            var bytes := answer(k, c.ops[0]).result;
            c.result == if bytes <= 0 then bytes else CDiv(bytes - Abs(afmt), Abs(dfmt))
  {
  }

  /** A write is one request of the address bytes and the clamped elements. */
  lemma WriteChunkSize(answer: Oracle, k: nat, afmt: int, dfmt: int, reg: U64, src: seq<Byte>, count: int)
    requires ValidFmt(afmt) && ValidFmt(dfmt) && 0 < count && Span(count, Abs(dfmt)) <= |src|
    ensures var c := WriteChunk(answer, k, afmt, dfmt, reg, src, count);
            var n := WriteClamp(count, Abs(afmt), Abs(dfmt));
            0 <= n <= count && |c.ops| == 1 && c.ops[0].Write? && |c.ops[0].bytes| == Abs(afmt) + Span(n, Abs(dfmt))
  {
    var a, d := Abs(afmt), Abs(dfmt);
    WriteClampFits(count, a, d);
    SpanMono(WriteClamp(count, a, d), count, d);
  }

  /** A write of `n` elements after `a` address bytes that moved at most all of
      its bytes is counted as at most `n` elements. */
  lemma WriteCountBound(bytes: int, a: nat, d: nat, n: nat)
    requires 0 < d && bytes <= a + Span(n, d)
    ensures (if bytes <= 0 then bytes else CDiv(bytes - a, d)) <= n
  {
    if a <= bytes {
      SpanDivLe(bytes - a, n, d);
    }
  }

  /** One write of `a + n * d` bytes, whose answer is counted as a write
      transaction counts it, reports at most `n` elements on a controller
      whose writes fit. */
  lemma WriteExchangeBound(answer: Oracle, k: nat, a: nat, d: nat, n: nat, c: Exchange)
    requires WritesFit(answer) && 0 < d && |c.ops| == 1 && c.ops[0].Write? && |c.ops[0].bytes| == a + Span(n, d)
    requires var bytes := answer(k, c.ops[0]).result;
             c.result == if bytes <= 0 then bytes else CDiv(bytes - a, d)
    ensures c.result <= n
  {
    assert c.ops[0] == Write(c.ops[0].bytes);
    WriteCountBound(answer(k, c.ops[0]).result, a, d, n);
  }

  /** A controller that never reports more bytes than it was sent never leads
      to more elements than were sent. */
  lemma WriteChunkBound(answer: Oracle, k: nat, afmt: int, dfmt: int, reg: U64, src: seq<Byte>, count: int)
    requires WritesFit(answer) && ValidFmt(afmt) && ValidFmt(dfmt) && 0 < count && Span(count, Abs(dfmt)) <= |src|
    ensures WriteChunk(answer, k, afmt, dfmt, reg, src, count).result <= WriteClamp(count, Abs(afmt), Abs(dfmt)) <= count
  {
    WriteChunkSize(answer, k, afmt, dfmt, reg, src, count);
    WriteChunkOutcome(answer, k, afmt, dfmt, reg, src, count);
    WriteExchangeBound(answer, k, Abs(afmt), Abs(dfmt), WriteClamp(count, Abs(afmt), Abs(dfmt)),
                       WriteChunk(answer, k, afmt, dfmt, reg, src, count));
  }

  /** On a controller that never fails, a write transaction moves every element
      it sends; it sends none, and so reports zero, exactly when one element
      does not fit beside the register number. */
  lemma WriteChunkPerfect(answer: Oracle, k: nat, afmt: int, dfmt: int, reg: U64, src: seq<Byte>, count: int)
    requires Perfect(answer) && ValidFmt(afmt) && ValidFmt(dfmt) && 0 < count && Span(count, Abs(dfmt)) <= |src|
    ensures var c := WriteChunk(answer, k, afmt, dfmt, reg, src, count);
            c.result == WriteClamp(count, Abs(afmt), Abs(dfmt)) &&
            (c.result == 0 <==> Abs(afmt) + Abs(dfmt) > BUFFER_SIZE)
  {
    var a, d := Abs(afmt), Abs(dfmt);
    WriteClampFits(count, a, d);
    WriteChunkFrame(answer, k, afmt, dfmt, reg, src, count);
    var n := WriteClamp(count, a, d);
    var c := WriteChunk(answer, k, afmt, dfmt, reg, src, count);
    assert answer(k, c.ops[0]).result == a + Span(n, d);
    WriteChunkResult(answer, k, afmt, dfmt, reg, src, count);
    SpanIsProduct(n, d);
    DivModUnique(Span(n, d), d, n, 0);
  }

  /** `_do_kvwrite` from the caller's buffer `data` at index `doff`, which holds
      `count` elements. */
  method DoKvWrite(slave: Slave, reg: U64, data: array<Byte>, doff: nat, count: int) returns (r: int)
    requires slave.bus != null && ValidFmt(slave.addressFmt) && ValidFmt(slave.dataFmt)
    requires 0 < count && Span(count, Abs(slave.dataFmt)) + Abs(slave.addressFmt) <= IntMax
    requires doff + Span(count, Abs(slave.dataFmt)) <= data.Length
    modifies slave.bus
    ensures var c := WriteChunk(slave.bus.answer, |old(slave.bus.log)|, slave.addressFmt, slave.dataFmt, reg,
                                data[doff..], count);
            r == c.result && slave.bus.log == old(slave.bus.log) + c.ops
  {
    var bus := slave.bus;
    var afmt, dfmt := slave.addressFmt, slave.dataFmt;
    var abytes, dbytes := Abs(afmt), Abs(dfmt);
    var n := count;
    if Span(n, dbytes) + abytes > BUFFER_SIZE {
      n := (BUFFER_SIZE - abytes) / dbytes;
    }
    WriteClampFits(count, abytes, dbytes);
    SpanMono(n, count, dbytes);
    var d := new Byte[BUFFER_SIZE];
    var _ := FillReg(d, reg, afmt);
    FillData(d, abytes, data, doff, dfmt, n);
    assert d[..abytes + Span(n, dbytes)] == WriteFrame(reg, afmt, dfmt, data[doff..], n);
    var bytes := bus.SlaveWrite(d, abytes + Span(n, dbytes));
    if bytes <= 0 {
      return bytes;
    }
    r := CDiv(bytes - abytes, dbytes);
  }
}
