/** The block transfers `i2c_kvslave_read` and `i2c_kvslave_write`: each repeats
    single transactions, moving the register cursor and the caller's buffer
    forward after every chunk, until all `count` elements have been moved or a
    transaction moves none; the result is the number of elements moved. */
module KvSession {
  import opened Words
  import opened KvCodec
  import opened I2cTransport
  import opened KvTransaction

  /** Concatenation regroups: used for both the request log and the bytes
      delivered. */
  lemma Regroup<T>(a: seq<T>, b: seq<T>, c: seq<T>)
    ensures a + (b + c) == (a + b) + c
  {
  }

  // ---------------------------------------------------------------- reading

  /** What `i2c_kvslave_read` does for `remain` more elements from register
      `reg`, on a bus whose next request has position `k`: the elements moved,
      the requests issued and the bytes delivered to the caller's buffer. */
  function ReadRun(answer: Oracle, k: nat, afmt: int, dfmt: int, reg: U64, remain: int): (x: Exchange)
    requires ReadsConform(answer) && ValidFmt(afmt) && ValidFmt(dfmt)
    ensures 0 <= x.result && |x.data| == Span(x.result, Abs(dfmt))
    ensures remain <= 0 ==> x.result == 0 && x.ops == []
    ensures 0 < remain ==> x.result <= remain && |x.ops| > 0
    decreases remain, 2
  {
    if remain <= 0 then Exchange(0, [], []) else ReadFrom(answer, k, afmt, dfmt, reg, remain)
  }

  /** A read run with elements left: one pass of the loop. It stands apart
      from `ReadPass` so that unfolding a run twice still stops short of the
      transaction's details; `ReadRunAdvance` opens it. */
  function ReadFrom(answer: Oracle, k: nat, afmt: int, dfmt: int, reg: U64, remain: int): (x: Exchange)
    requires ReadsConform(answer) && ValidFmt(afmt) && ValidFmt(dfmt) && 0 < remain
    ensures 0 <= x.result <= remain && |x.data| == Span(x.result, Abs(dfmt)) && |x.ops| > 0
    decreases remain, 1
  {
    ReadPass(answer, k, afmt, dfmt, reg, remain)
  }

  /** One pass of the read loop: one transaction, then, if it moved any
      elements, the rest of the run with the cursor moved on by the bytes read
      (wrapping as a `uint64_t` does). */
  function ReadPass(answer: Oracle, k: nat, afmt: int, dfmt: int, reg: U64, remain: int): (x: Exchange)
    requires ReadsConform(answer) && ValidFmt(afmt) && ValidFmt(dfmt) && 0 < remain
    ensures 0 <= x.result <= remain && |x.data| == Span(x.result, Abs(dfmt)) && |x.ops| > 0
    decreases remain, 0
  {
    var c := ReadChunk(answer, k, afmt, dfmt, reg, remain);
    ReadChunkPhases(answer, k, afmt, dfmt, reg, remain);
    if c.result <= 0 then Exchange(0, c.ops, [])
    else
      var d := Abs(dfmt);
      ReadChunkBound(answer, k, afmt, dfmt, reg, remain);
      var rest := ReadRun(answer, k + |c.ops|, afmt, dfmt, Wrap64(reg + Span(c.result, d)), remain - c.result);
      SpanAdd(c.result, rest.result, d);
      Exchange(c.result + rest.result, c.ops + rest.ops, c.data + rest.data)
  }

  /** A read run is its first transaction followed by the rest of the run; a
      transaction that moves nothing ends it, delivering nothing. */
  lemma ReadRunAdvance(answer: Oracle, k: nat, afmt: int, dfmt: int, reg: U64, remain: int)
    requires ReadsConform(answer) && ValidFmt(afmt) && ValidFmt(dfmt) && 0 < remain
    ensures var c := ReadChunk(answer, k, afmt, dfmt, reg, remain);
            var w := ReadRun(answer, k, afmt, dfmt, reg, remain);
            (c.result <= 0 ==> w.result == 0 && w.ops == c.ops && w.data == [] && |c.data| == 0) &&
            (0 < c.result ==>
              c.result <= remain && |c.data| == Span(c.result, Abs(dfmt)) &&
              var rest := ReadRun(answer, k + |c.ops|, afmt, dfmt, Wrap64(reg + Span(c.result, Abs(dfmt))), remain - c.result);
              w.result == c.result + rest.result && w.ops == c.ops + rest.ops && w.data == c.data + rest.data)
  {
    var c := ReadChunk(answer, k, afmt, dfmt, reg, remain);
    assert ReadRun(answer, k, afmt, dfmt, reg, remain) == ReadFrom(answer, k, afmt, dfmt, reg, remain)
                                                     == ReadPass(answer, k, afmt, dfmt, reg, remain);
    if 0 < c.result {
      ReadChunkBound(answer, k, afmt, dfmt, reg, remain);
    }
  }

  /** On a controller that never fails, `i2c_kvslave_read` reads every element
      asked for, however many transactions that takes. */
  lemma {:induction false} ReadRunComplete(answer: Oracle, k: nat, afmt: int, dfmt: int, reg: U64, remain: int)
    requires Perfect(answer) && ValidFmt(afmt) && ValidFmt(dfmt)
    ensures ReadRun(answer, k, afmt, dfmt, reg, remain).result == (if remain <= 0 then 0 else remain)
    decreases remain
  {
    if 0 < remain {
      var c := ReadChunk(answer, k, afmt, dfmt, reg, remain);
      ReadRunAdvance(answer, k, afmt, dfmt, reg, remain);
      ReadChunkPerfect(answer, k, afmt, dfmt, reg, remain);
      ReadRunComplete(answer, k + |c.ops|, afmt, dfmt, Wrap64(reg + Span(c.result, Abs(dfmt))), remain - c.result);
    }
  }

  /** Slicing a buffer that was spliced together gives the pieces back. */
  lemma SpliceParts(p: seq<Byte>, m: seq<Byte>, t: seq<Byte>)
    ensures (p + m + t)[..|p| + |m|] == p + m && (p + m + t)[|p| + |m|..] == t
  {
  }

  /** Two sequences that agree from `i` on agree from any later index on. */
  lemma DropFurther(s: seq<Byte>, t: seq<Byte>, i: nat, n: nat)
    requires i + n <= |s| == |t| && s[i..] == t[i..]
    ensures s[i + n..] == t[i + n..]
  {
    assert s[i + n..] == s[i..][n..];
    assert t[i + n..] == t[i..][n..];
  }

  /** The read loop's account as sequence algebra, for a transaction that
      moved elements: the run `w` is the chunk `c` followed by the rest `rest`,
      the chunk's requests are appended to the bus history and its bytes are
      spliced into the buffer at `dp`, ending at `at`. */
  lemma SpliceAccount(whole: Exchange, count: int, remain: int, log0: seq<Op>, log: seq<Op>, orig: seq<Byte>,
                      before: seq<Byte>, dp: nat, w: Exchange, c: Exchange, rest: Exchange, log1: seq<Op>,
                      after: seq<Byte>, at: nat)
    requires at == dp + |c.data| <= |before| == |orig|
    requires whole.result == count - remain + w.result && log0 + whole.ops == log + w.ops
    requires whole.data == before[..dp] + w.data && before[dp..] == orig[dp..]
    requires w.result == c.result + rest.result && w.ops == c.ops + rest.ops && w.data == c.data + rest.data
    requires log1 == log + c.ops
    requires after == before[..dp] + c.data + before[at..]
    ensures whole.result == count - (remain - c.result) + rest.result && log0 + whole.ops == log1 + rest.ops
    ensures whole.data == after[..at] + rest.data && after[at..] == orig[at..]
  {
    Regroup(log, c.ops, rest.ops);
    Regroup(before[..dp], c.data, rest.data);
    SpliceParts(before[..dp], c.data, before[at..]);
    DropFurther(before, orig, dp, |c.data|);
  }

  /** The same account for a transaction that moved nothing: the run ends with
      it, and the buffer is unchanged. */
  lemma SpliceNothing(whole: Exchange, count: int, remain: int, log0: seq<Op>, log: seq<Op>, orig: seq<Byte>,
                      before: seq<Byte>, dp: nat, w: Exchange, c: Exchange, log1: seq<Op>, after: seq<Byte>)
    requires whole.result == count - remain + w.result && log0 + whole.ops == log + w.ops
    requires dp <= |before| == |orig| && whole.data == before[..dp] + w.data && before[dp..] == orig[dp..]
    requires w.result == 0 && w.ops == c.ops && w.data == [] && |c.data| == 0
    requires log1 == log + c.ops && after == before[..dp] + c.data + before[dp + |c.data|..]
    ensures whole.result == count - remain && log0 + whole.ops == log1
    ensures whole.data == after[..dp] && after[dp..] == orig[dp..]
  {
    assert before[..dp] + [] == before[..dp];
    assert after == before[..dp] + before[dp..];
  }

  /** The account the read loop keeps for a run `whole` of `count` elements
      that began on a bus with history `log0` and a buffer holding `orig`, when
      `remain` elements are still wanted, the bus has history `log`, the cursor
      is at `cursor` and the next element is due at byte `dp` of the buffer
      `buf`: the requests issued so far followed by the rest of the run are the
      whole run's requests, the bytes before `dp` followed by the rest of the
      run's bytes are the whole run's bytes, and from `dp` on the buffer is as
      it was at the start. */
  ghost predicate ReadAccount(answer: Oracle, afmt: int, dfmt: int, count: int, log0: seq<Op>, whole: Exchange,
                              orig: seq<Byte>, log: seq<Op>, cursor: U64, dp: nat, remain: int, buf: seq<Byte>)
    requires ReadsConform(answer) && ValidFmt(afmt) && ValidFmt(dfmt)
  {
    remain <= count && dp <= |buf| == |orig| &&
    (0 < remain ==> dp + Span(remain, Abs(dfmt)) == Span(count, Abs(dfmt)) <= |buf|) &&
    var rest := ReadRun(answer, |log|, afmt, dfmt, cursor, remain);
    whole.result == count - remain + rest.result && log0 + whole.ops == log + rest.ops &&
    whole.data == buf[..dp] + rest.data && buf[dp..] == orig[dp..]
  }

  /** The read loop's account carried across one transaction `c`, given how
      the run from the cursor splits at `c` (as `ReadRunAdvance` states). */
  lemma AccountAdvance(answer: Oracle, afmt: int, dfmt: int, count: int, log0: seq<Op>, whole: Exchange,
                       orig: seq<Byte>, log: seq<Op>, cursor: U64, dp: nat, remain: int, before: seq<Byte>,
                       c: Exchange, log1: seq<Op>, after: seq<Byte>)
    requires ReadsConform(answer) && ValidFmt(afmt) && ValidFmt(dfmt) && 0 < remain
    requires ReadAccount(answer, afmt, dfmt, count, log0, whole, orig, log, cursor, dp, remain, before)
    requires var w := ReadRun(answer, |log|, afmt, dfmt, cursor, remain);
             (c.result <= 0 ==> w.result == 0 && w.ops == c.ops && w.data == [] && |c.data| == 0) &&
             (0 < c.result ==>
                c.result <= remain && |c.data| == Span(c.result, Abs(dfmt)) &&
                var rest := ReadRun(answer, |log| + |c.ops|, afmt, dfmt, Wrap64(cursor + Span(c.result, Abs(dfmt))),
                                    remain - c.result);
                w.result == c.result + rest.result && w.ops == c.ops + rest.ops && w.data == c.data + rest.data)
    requires log1 == log + c.ops && dp + |c.data| <= |before| && after == before[..dp] + c.data + before[dp + |c.data|..]
    ensures c.result <= 0 ==>
              whole.result == count - remain && log0 + whole.ops == log1 &&
              whole.data == after[..dp] && after[dp..] == orig[dp..]
    ensures 0 < c.result ==>
              c.result <= remain &&
              ReadAccount(answer, afmt, dfmt, count, log0, whole, orig, log1, Wrap64(cursor + Span(c.result, Abs(dfmt))),
                          dp + Span(c.result, Abs(dfmt)), remain - c.result, after)
  {
    var w := ReadRun(answer, |log|, afmt, dfmt, cursor, remain);
    assert |log1| == |log| + |c.ops|;
    if 0 < c.result {
      var d := Abs(dfmt);
      var rest := ReadRun(answer, |log1|, afmt, dfmt, Wrap64(cursor + Span(c.result, d)), remain - c.result);
      SpliceAccount(whole, count, remain, log0, log, orig, before, dp, w, c, rest, log1, after, dp + Span(c.result, d));
      SpanAdd(c.result, remain - c.result, d);
    } else {
      SpliceNothing(whole, count, remain, log0, log, orig, before, dp, w, c, log1, after);
    }
  }

  /** The read loop's account survives one transaction: if it moved elements,
      the account holds again with the cursor and the buffer index moved on
      past them; if it moved none, the run is over and the buffer holds the
      whole run's bytes before `dp`. */
  lemma ReadRunResumes(answer: Oracle, afmt: int, dfmt: int, count: int, log0: seq<Op>, whole: Exchange,
                       orig: seq<Byte>, log: seq<Op>, cursor: U64, dp: nat, remain: int, before: seq<Byte>,
                       moved: int, log1: seq<Op>, after: seq<Byte>)
    requires ReadsConform(answer) && ValidFmt(afmt) && ValidFmt(dfmt) && 0 < remain
    requires ReadAccount(answer, afmt, dfmt, count, log0, whole, orig, log, cursor, dp, remain, before)
    requires var c := ReadChunk(answer, |log|, afmt, dfmt, cursor, remain);
             moved == c.result && log1 == log + c.ops &&
             dp + |c.data| <= |before| && after == before[..dp] + c.data + before[dp + |c.data|..]
    ensures moved <= 0 ==>
              whole.result == count - remain && log0 + whole.ops == log1 &&
              whole.data == after[..dp] && after[dp..] == orig[dp..]
    ensures 0 < moved ==>
              moved <= remain &&
              ReadAccount(answer, afmt, dfmt, count, log0, whole, orig, log1, Wrap64(cursor + Span(moved, Abs(dfmt))),
                          dp + Span(moved, Abs(dfmt)), remain - moved, after)
  {
    ReadRunAdvance(answer, |log|, afmt, dfmt, cursor, remain);
    AccountAdvance(answer, afmt, dfmt, count, log0, whole, orig, log, cursor, dp, remain, before,
                   ReadChunk(answer, |log|, afmt, dfmt, cursor, remain), log1, after);
  }

  /** One pass of the read loop: a transaction for the `remain` elements still
      wanted, delivered at index `dp` of the caller's buffer. */
  method ReadStep(slave: Slave, ghost answer: Oracle, afmt: int, dfmt: int, cursor: U64, data: array<Byte>,
                  dp: nat, remain: int, ghost count: int, ghost log0: seq<Op>, ghost whole: Exchange,
                  ghost orig: seq<Byte>)
    returns (moved: int, next: U64, at: nat)
    requires slave.bus != null && answer == slave.bus.answer && afmt == slave.addressFmt && dfmt == slave.dataFmt
    requires ReadsConform(answer) && ValidFmt(afmt) && ValidFmt(dfmt)
    requires 0 < remain <= count && Span(count, Abs(dfmt)) <= IntMax
    requires ReadAccount(answer, afmt, dfmt, count, log0, whole, orig, slave.bus.log, cursor, dp, remain, data[..])
    modifies slave.bus, data
    ensures moved <= 0 ==>
              whole.result == count - remain && log0 + whole.ops == slave.bus.log &&
              whole.data == data[..dp] && data[dp..] == orig[dp..]
    ensures 0 < moved ==>
              moved <= remain && next == Wrap64(cursor + Span(moved, Abs(dfmt))) && at == dp + Span(moved, Abs(dfmt)) &&
              ReadAccount(answer, afmt, dfmt, count, log0, whole, orig, slave.bus.log, next, at, remain - moved, data[..])
  {
    ghost var log := slave.bus.log;
    ghost var before := data[..];
    SpanMono(remain, count, Abs(dfmt));
    moved := DoKvRead(slave, cursor, data, dp, remain);
    ReadRunResumes(answer, afmt, dfmt, count, log0, whole, orig, log, cursor, dp, remain, before, moved, slave.bus.log, data[..]);
    if 0 < moved {
      next := Wrap64(cursor + Span(moved, Abs(dfmt)));
      at := dp + Span(moved, Abs(dfmt));
    } else {
      next, at := cursor, dp;
    }
  }

  /** `i2c_kvslave_read` into the caller's buffer `data`, which has room for
      `count` elements: the elements the run delivered fill the front of the
      buffer and the rest of it is left as it was. */
  method KvSlaveRead(slave: Slave, reg: U64, data: array<Byte>, count: int) returns (r: int)
    requires slave.bus != null && ReadsConform(slave.bus.answer) && ValidFmt(slave.addressFmt) && ValidFmt(slave.dataFmt)
    requires count <= 0 || (Span(count, Abs(slave.dataFmt)) <= IntMax && Span(count, Abs(slave.dataFmt)) <= data.Length)
    modifies slave.bus, data
    ensures var x := ReadRun(slave.bus.answer, |old(slave.bus.log)|, slave.addressFmt, slave.dataFmt, reg, count);
            r == x.result && slave.bus.log == old(slave.bus.log) + x.ops &&
            |x.data| <= data.Length && data[..] == x.data + old(data[..])[|x.data|..]
  {
    var afmt, dfmt := slave.addressFmt, slave.dataFmt;
    var dbytes := Abs(dfmt);
    ghost var answer := slave.bus.answer;
    ghost var orig := data[..];
    ghost var log0 := slave.bus.log;
    ghost var whole := ReadRun(answer, |log0|, afmt, dfmt, reg, count);
    var cursor: U64 := reg;
    var dp: nat := 0;
    var remain := count;
    while remain > 0
      invariant ReadAccount(answer, afmt, dfmt, count, log0, whole, orig, slave.bus.log, cursor, dp, remain, data[..])
    {
      var moved, next, at := ReadStep(slave, answer, afmt, dfmt, cursor, data, dp, remain, count, log0, whole, orig);
      if moved <= 0 {
        break;
      }
      cursor, dp, remain := next, at, remain - moved;
    }
    assert whole.result == count - remain && log0 + whole.ops == slave.bus.log &&
           whole.data == data[..dp] && data[dp..] == orig[dp..] by {
      if remain <= 0 {
        assert slave.bus.log + [] == slave.bus.log && data[..dp] + [] == data[..dp];
      }
    }
    assert data[..] == data[..dp] + data[dp..];
    r := count - remain;
  }

  // ---------------------------------------------------------------- writing

  /** What `i2c_kvslave_write` does for `remain` more elements of `src`, from
      byte `at` on, to register `reg`, on a bus whose next request has position
      `k`: the elements moved and the requests issued. */
  function WriteRun(answer: Oracle, k: nat, afmt: int, dfmt: int, reg: U64, src: seq<Byte>, at: nat, remain: int): (x: Exchange)
    requires ValidFmt(afmt) && ValidFmt(dfmt)
    requires remain <= 0 || at + Span(remain, Abs(dfmt)) <= |src|
    ensures 0 <= x.result && x.data == []
    ensures remain <= 0 ==> x.result == 0 && x.ops == []
    ensures 0 < remain ==> |x.ops| > 0
    decreases remain, 2
  {
    if remain <= 0 then Exchange(0, [], []) else WriteFrom(answer, k, afmt, dfmt, reg, src, at, remain)
  }

  /** A write run with elements left: one pass of the loop, kept apart from
      `WritePass` as `ReadFrom` is from `ReadPass`. */
  function WriteFrom(answer: Oracle, k: nat, afmt: int, dfmt: int, reg: U64, src: seq<Byte>, at: nat, remain: int): (x: Exchange)
    requires ValidFmt(afmt) && ValidFmt(dfmt)
    requires 0 < remain && at + Span(remain, Abs(dfmt)) <= |src|
    ensures 0 <= x.result && x.data == [] && |x.ops| > 0
    decreases remain, 1
  {
    WritePass(answer, k, afmt, dfmt, reg, src, at, remain)
  }

  /** One pass of the write loop: one transaction, then, if it moved any
      elements, the rest of the run with the cursor moved on by the number of
      elements written (wrapping as a `uint64_t` does). A controller that
      reports more elements than were left drives `remain` below zero, which
      ends the run. */
  function WritePass(answer: Oracle, k: nat, afmt: int, dfmt: int, reg: U64, src: seq<Byte>, at: nat, remain: int): (x: Exchange)
    requires ValidFmt(afmt) && ValidFmt(dfmt)
    requires 0 < remain && at + Span(remain, Abs(dfmt)) <= |src|
    ensures 0 <= x.result && x.data == [] && |x.ops| > 0
    decreases remain, 0
  {
    var c := WriteChunk(answer, k, afmt, dfmt, reg, src[at..], remain);
    WriteChunkFrame(answer, k, afmt, dfmt, reg, src[at..], remain);
    if c.result <= 0 then Exchange(0, c.ops, [])
    else
      var d := Abs(dfmt);
      WriteRestFits(c.result, remain, d, at, |src|);
      var rest := WriteRun(answer, k + |c.ops|, afmt, dfmt, Wrap64(reg + c.result), src, at + Span(c.result, d), remain - c.result);
      Exchange(c.result + rest.result, c.ops + rest.ops, [])
  }

  /** After a write of `moved` elements the rest of the source still holds the
      elements left, if any are. */
  lemma WriteRestFits(moved: nat, remain: int, d: nat, at: nat, size: nat)
    requires 0 < remain && at + Span(remain, d) <= size
    ensures moved < remain ==> at + Span(moved, d) + Span(remain - moved, d) == at + Span(remain, d) <= size
  {
    if moved < remain {
      SpanAdd(moved, remain - moved, d);
    }
  }

  /** A write run is its first transaction followed by the rest of the run; a
      transaction that moves nothing ends it. */
  lemma WriteRunAdvance(answer: Oracle, k: nat, afmt: int, dfmt: int, reg: U64, src: seq<Byte>, at: nat, remain: int)
    requires ValidFmt(afmt) && ValidFmt(dfmt) && 0 < remain && at + Span(remain, Abs(dfmt)) <= |src|
    ensures var c := WriteChunk(answer, k, afmt, dfmt, reg, src[at..], remain);
            var w := WriteRun(answer, k, afmt, dfmt, reg, src, at, remain);
            (c.result <= 0 ==> w.result == 0 && w.ops == c.ops) &&
            (0 < c.result ==>
              (c.result < remain ==> at + Span(c.result, Abs(dfmt)) + Span(remain - c.result, Abs(dfmt)) <= |src|) &&
              var rest := WriteRun(answer, k + |c.ops|, afmt, dfmt, Wrap64(reg + c.result), src,
                                   at + Span(c.result, Abs(dfmt)), remain - c.result);
              w.result == c.result + rest.result && w.ops == c.ops + rest.ops)
  {
    var c := WriteChunk(answer, k, afmt, dfmt, reg, src[at..], remain);
    WriteChunkFrame(answer, k, afmt, dfmt, reg, src[at..], remain);
    assert WriteRun(answer, k, afmt, dfmt, reg, src, at, remain) == WriteFrom(answer, k, afmt, dfmt, reg, src, at, remain)
                                                              == WritePass(answer, k, afmt, dfmt, reg, src, at, remain);
    if 0 < c.result {
      WriteRestFits(c.result, remain, Abs(dfmt), at, |src|);
    }
  }

  /** On a controller that never reports more bytes than were sent, a write
      run moves at most the elements asked for. Without that, `i2c_kvslave_write`
      returns `count - remain` with `remain` driven below zero, more than
      `count`. */
  lemma {:induction false} WriteRunBound(answer: Oracle, k: nat, afmt: int, dfmt: int, reg: U64, src: seq<Byte>,
                                        at: nat, remain: int)
    requires WritesFit(answer) && ValidFmt(afmt) && ValidFmt(dfmt)
    requires remain <= 0 || at + Span(remain, Abs(dfmt)) <= |src|
    ensures 0 < remain ==> WriteRun(answer, k, afmt, dfmt, reg, src, at, remain).result <= remain
    decreases remain
  {
    if 0 < remain {
      var c := WriteChunk(answer, k, afmt, dfmt, reg, src[at..], remain);
      WriteRunAdvance(answer, k, afmt, dfmt, reg, src, at, remain);
      if 0 < c.result {
        WriteChunkBound(answer, k, afmt, dfmt, reg, src[at..], remain);
        WriteRunBound(answer, k + |c.ops|, afmt, dfmt, Wrap64(reg + c.result), src,
                      at + Span(c.result, Abs(dfmt)), remain - c.result);
      }
    }
  }

  /** On a controller that never fails, `i2c_kvslave_write` writes every
      element when one element fits beside the register number in the
      128-byte buffer, and none at all otherwise. */
  lemma {:induction false} WriteRunComplete(answer: Oracle, k: nat, afmt: int, dfmt: int, reg: U64, src: seq<Byte>,
                                           at: nat, remain: int)
    requires Perfect(answer) && ValidFmt(afmt) && ValidFmt(dfmt)
    requires remain <= 0 || at + Span(remain, Abs(dfmt)) <= |src|
    ensures var r := WriteRun(answer, k, afmt, dfmt, reg, src, at, remain).result;
            0 < remain ==> (r == remain <==> Abs(afmt) + Abs(dfmt) <= BUFFER_SIZE) &&
                           (Abs(afmt) + Abs(dfmt) > BUFFER_SIZE ==> r == 0)
    decreases remain
  {
    if 0 < remain {
      var c := WriteChunk(answer, k, afmt, dfmt, reg, src[at..], remain);
      WriteRunAdvance(answer, k, afmt, dfmt, reg, src, at, remain);
      WriteChunkPerfect(answer, k, afmt, dfmt, reg, src[at..], remain);
      WriteClampFits(remain, Abs(afmt), Abs(dfmt));
      if 0 < c.result {
        WriteRunComplete(answer, k + |c.ops|, afmt, dfmt, Wrap64(reg + c.result), src,
                         at + Span(c.result, Abs(dfmt)), remain - c.result);
      }
    }
  }

  /** The bookkeeping of the write loop survives one transaction: the
      elements written so far followed by the rest of the run are still the
      whole run. */
  lemma WriteRunResumes(answer: Oracle, afmt: int, dfmt: int, cursor: U64, src: seq<Byte>, dp: nat, remain: int,
                        count: int, log0: seq<Op>, whole: Exchange, log: seq<Op>, moved: int, log1: seq<Op>)
    requires ValidFmt(afmt) && ValidFmt(dfmt)
    requires 0 < remain <= count && dp + Span(remain, Abs(dfmt)) == Span(count, Abs(dfmt)) <= |src|
    requires whole.result == count - remain + WriteRun(answer, |log|, afmt, dfmt, cursor, src, dp, remain).result
    requires log0 + whole.ops == log + WriteRun(answer, |log|, afmt, dfmt, cursor, src, dp, remain).ops
    requires var c := WriteChunk(answer, |log|, afmt, dfmt, cursor, src[dp..], remain);
             moved == c.result && log1 == log + c.ops
    ensures moved <= 0 ==> whole.result == count - remain && log0 + whole.ops == log1
    ensures 0 < moved ==>
              (0 < remain - moved ==> dp + Span(moved, Abs(dfmt)) + Span(remain - moved, Abs(dfmt)) == Span(count, Abs(dfmt))) &&
              var rest := WriteRun(answer, |log1|, afmt, dfmt, Wrap64(cursor + moved), src,
                                   dp + Span(moved, Abs(dfmt)), remain - moved);
              whole.result == count - (remain - moved) + rest.result && log0 + whole.ops == log1 + rest.ops
  {
    var c := WriteChunk(answer, |log|, afmt, dfmt, cursor, src[dp..], remain);
    WriteRunAdvance(answer, |log|, afmt, dfmt, cursor, src, dp, remain);
    if 0 < moved {
      WriteRestFits(moved, remain, Abs(dfmt), dp, |src|);
      var rest := WriteRun(answer, |log| + |c.ops|, afmt, dfmt, Wrap64(cursor + moved), src,
                           dp + Span(moved, Abs(dfmt)), remain - moved);
      Regroup(log, c.ops, rest.ops);
    }
  }

  /** One pass of the write loop: a transaction for the `remain` elements at
      index `dp` of the caller's buffer, as the start of the rest of the run
      `whole`. */
  method WriteStep(slave: Slave, ghost answer: Oracle, afmt: int, dfmt: int, cursor: U64, data: array<Byte>,
                   ghost src: seq<Byte>, dp: nat, remain: int, ghost count: int, ghost log0: seq<Op>, ghost whole: Exchange)
    returns (moved: int)
    requires slave.bus != null && answer == slave.bus.answer && afmt == slave.addressFmt && dfmt == slave.dataFmt && data[..] == src
    requires ValidFmt(afmt) && ValidFmt(dfmt)
    requires 0 < remain <= count && Span(count, Abs(dfmt)) + Abs(afmt) <= IntMax && Span(count, Abs(dfmt)) <= data.Length
    requires dp + Span(remain, Abs(dfmt)) == Span(count, Abs(dfmt))
    requires whole.result == count - remain + WriteRun(answer, |slave.bus.log|, afmt, dfmt, cursor, src, dp, remain).result
    requires log0 + whole.ops == slave.bus.log + WriteRun(answer, |slave.bus.log|, afmt, dfmt, cursor, src, dp, remain).ops
    modifies slave.bus
    ensures moved <= 0 ==> whole.result == count - remain && log0 + whole.ops == slave.bus.log
    ensures 0 < moved ==>
              (0 < remain - moved ==> dp + Span(moved, Abs(dfmt)) + Span(remain - moved, Abs(dfmt)) == Span(count, Abs(dfmt))) &&
              var rest := WriteRun(answer, |slave.bus.log|, afmt, dfmt, Wrap64(cursor + moved), src,
                                   dp + Span(moved, Abs(dfmt)), remain - moved);
              whole.result == count - (remain - moved) + rest.result && log0 + whole.ops == slave.bus.log + rest.ops
  {
    ghost var log := slave.bus.log;
    SpanMono(remain, count, Abs(dfmt));
    moved := DoKvWrite(slave, cursor, data, dp, remain);
    WriteRunResumes(answer, afmt, dfmt, cursor, src, dp, remain, count, log0, whole, log, moved, slave.bus.log);
  }

  /** `i2c_kvslave_write` of the `count` elements at the start of `data`. */
  method KvSlaveWrite(slave: Slave, reg: U64, data: array<Byte>, count: int) returns (r: int)
    requires slave.bus != null && ValidFmt(slave.addressFmt) && ValidFmt(slave.dataFmt)
    requires count <= 0 || (Span(count, Abs(slave.dataFmt)) + Abs(slave.addressFmt) <= IntMax &&
                            Span(count, Abs(slave.dataFmt)) <= data.Length)
    modifies slave.bus
    ensures var x := WriteRun(slave.bus.answer, |old(slave.bus.log)|, slave.addressFmt, slave.dataFmt, reg, data[..], 0, count);
            r == x.result && slave.bus.log == old(slave.bus.log) + x.ops
  {
    var afmt, dfmt := slave.addressFmt, slave.dataFmt;
    var dbytes := Abs(dfmt);
    ghost var answer := slave.bus.answer;
    ghost var src := data[..];
    ghost var log0 := slave.bus.log;
    ghost var whole := WriteRun(answer, |log0|, afmt, dfmt, reg, src, 0, count);
    var cursor: U64 := reg;
    var dp: nat := 0;
    var remain := count;
    while remain > 0
      invariant remain <= count
      invariant 0 < remain ==> dp + Span(remain, dbytes) == Span(count, dbytes)
      invariant whole.result == count - remain + WriteRun(answer, |slave.bus.log|, afmt, dfmt, cursor, src, dp, remain).result
      invariant log0 + whole.ops == slave.bus.log + WriteRun(answer, |slave.bus.log|, afmt, dfmt, cursor, src, dp, remain).ops
    {
      var moved := WriteStep(slave, answer, afmt, dfmt, cursor, data, src, dp, remain, count, log0, whole);
      if moved <= 0 {
        break;
      }
      dp := dp + Span(moved, dbytes);
      remain := remain - moved;
      cursor := Wrap64(cursor + moved);
    }
    assert slave.bus.log + [] == slave.bus.log;
    r := count - remain;
  }
}
