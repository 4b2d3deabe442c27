/** `i2c_scan`: probe the even bus addresses from `start` upwards, registering
    each as a 7-bit standard-speed slave and reading ten bytes from it; an
    address whose read returns all ten bytes is recorded. The scan stops after
    the last address below 0x100, once `naddr` addresses are recorded, or as
    soon as a registration fails. */
module BusScan {
  import opened Words
  import opened I2cTransport
  import opened SlaveRegistration

  /** The length of the dummy read each probe makes. */
  const PROBE_LEN: int := 10

  /** The first address probed: `start & ~0x1`, the even number at or below
      `start` (two's complement masking agrees with Euclidean `%`). */
  function FirstAddress(start: int): (i: int)
    ensures i % 2 == 0 && i <= start < i + 2
  {
    start - start % 2
  }

  /** The requests one probe of address `i` issues when it is registered. */
  function ProbeOps(i: int): seq<Op>
  {
    [Init(i, Addr7Bit, Standard, 0, ZeroRecord), Read(PROBE_LEN)]
  }

  /** What a scan does: the addresses it records, the requests it issues, and
      how many addresses it probed (registered and read) before it stopped. */
  datatype ScanRun = ScanRun(found: seq<int>, ops: seq<Op>, probed: nat)

  /** A sequence of addresses in increasing order, all even, from `lo` on and
      below 0x100. */
  predicate EvenAscending(s: seq<int>, lo: int)
  {
    (forall j :: 0 <= j < |s| ==> lo <= s[j] < 0x100 && s[j] % 2 == 0) &&
    (forall a, b :: 0 <= a < b < |s| ==> s[a] < s[b])
  }

  /** The scan loop from address `i` with room for `room` more addresses, on a
      bus whose next request has position `k`. */
  function ScanFrom(answer: Oracle, k: nat, i: int, room: int, rules: AddressRules): (s: ScanRun)
    requires i % 2 == 0
    ensures |s.found| <= (if room <= 0 then 0 else room)
    decreases 0x100 - i, 2
  {
    if !(i < 0x100 && 0 < room) then ScanRun([], [], 0) else ScanNext(answer, k, i, room, rules)
  }

  /** A scan with an address left and room to record it: one pass of the loop.
      It stands apart from `ScanPass` as `ReadFrom` does from `ReadPass`. */
  function ScanNext(answer: Oracle, k: nat, i: int, room: int, rules: AddressRules): (s: ScanRun)
    requires i % 2 == 0 && i < 0x100 && 0 < room
    ensures |s.found| <= room
    decreases 0x100 - i, 1
  {
    ScanPass(answer, k, i, room, rules)
  }

  /** One pass of the scan loop: register address `i`, ending the scan if that
      fails; otherwise read ten bytes, record `i` if all ten came back, and go
      on from the next even address. */
  function ScanPass(answer: Oracle, k: nat, i: int, room: int, rules: AddressRules): (s: ScanRun)
    requires i % 2 == 0 && i < 0x100 && 0 < room
    ensures |s.found| <= room
    decreases 0x100 - i, 0
  {
    var init := InitCall(answer, k, i, Addr7Bit, Standard, 0, ZeroRecord, rules);
    if init.result != 0 then ScanRun([], init.ops, 0)
    else
      var hit := answer(k + 1, Read(PROBE_LEN)).result == PROBE_LEN;
      var rest := ScanFrom(answer, k + 2, i + 2, if hit then room - 1 else room, rules);
      ScanRun((if hit then [i] else []) + rest.found, ProbeOps(i) + rest.ops, rest.probed + 1)
  }

  /** One pass of the scan loop: a registration that fails ends the scan with
      its request; otherwise the probe's two requests and, on a full read, the
      address come first, then the scan from the next address. */
  lemma ScanAdvance(answer: Oracle, k: nat, i: int, room: int, rules: AddressRules)
    requires i % 2 == 0 && i < 0x100 && 0 < room
    ensures var init := InitCall(answer, k, i, Addr7Bit, Standard, 0, ZeroRecord, rules);
            var s := ScanFrom(answer, k, i, room, rules);
            (init.result != 0 ==> s.found == [] && s.ops == init.ops && s.probed == 0) &&
            (init.result == 0 ==>
               init.ops == [Init(i, Addr7Bit, Standard, 0, ZeroRecord)] &&
               var hit := answer(k + 1, Read(PROBE_LEN)).result == PROBE_LEN;
               var rest := ScanFrom(answer, k + 2, i + 2, if hit then room - 1 else room, rules);
               s.found == (if hit then [i] else []) + rest.found && s.ops == ProbeOps(i) + rest.ops &&
               s.probed == rest.probed + 1)
  {
    assert ScanFrom(answer, k, i, room, rules) == ScanNext(answer, k, i, room, rules) == ScanPass(answer, k, i, room, rules);
  }

  /** The addresses a scan records are even, in increasing order, and lie
      between its first address and 0x100. */
  lemma {:induction false} ScanFoundOrdered(answer: Oracle, k: nat, i: int, room: int, rules: AddressRules)
    requires i % 2 == 0
    ensures EvenAscending(ScanFrom(answer, k, i, room, rules).found, i)
    decreases 0x100 - i
  {
    if i < 0x100 && 0 < room {
      ScanAdvance(answer, k, i, room, rules);
      if InitCall(answer, k, i, Addr7Bit, Standard, 0, ZeroRecord, rules).result == 0 {
        var hit := answer(k + 1, Read(PROBE_LEN)).result == PROBE_LEN;
        ScanFoundOrdered(answer, k + 2, i + 2, if hit then room - 1 else room, rules);
      }
    }
  }

  /** Reference definitions: the requests of `n` successful probes from
      address `i`, and the addresses among them whose read returned all ten
      bytes, on a bus whose next request has position `k`. */
  function ProbesFrom(i: int, n: nat): seq<Op>
    decreases n
  {
    if n == 0 then [] else ProbeOps(i) + ProbesFrom(i + 2, n - 1)
  }

  function Responders(answer: Oracle, k: nat, i: int, n: nat): seq<int>
    decreases n
  {
    if n == 0 then []
    else (if answer(k + 1, Read(PROBE_LEN)).result == PROBE_LEN then [i] else []) + Responders(answer, k + 2, i + 2, n - 1)
  }

  /** A scan is a run of successful probes, possibly followed by one failed
      registration request; it records exactly the addresses that answered
      the full ten bytes. No address it probes or tries to register lies above
      0xff. */
  lemma {:induction false} ScanRecordsResponders(answer: Oracle, k: nat, i: int, room: int, rules: AddressRules)
    requires i % 2 == 0
    ensures var s := ScanFrom(answer, k, i, room, rules);
            s.found == Responders(answer, k, i, s.probed) &&
            (s.probed == 0 || i + 2 * (s.probed - 1) < 0x100) &&
            (s.ops == ProbesFrom(i, s.probed) ||
             (i + 2 * s.probed < 0x100 &&
              s.ops == ProbesFrom(i, s.probed) + [Init(i + 2 * s.probed, Addr7Bit, Standard, 0, ZeroRecord)]))
    decreases 0x100 - i
  {
    var s := ScanFrom(answer, k, i, room, rules);
    if i < 0x100 && 0 < room {
      var init := InitCall(answer, k, i, Addr7Bit, Standard, 0, ZeroRecord, rules);
      ScanAdvance(answer, k, i, room, rules);
      if init.result == 0 {
        var hit := answer(k + 1, Read(PROBE_LEN)).result == PROBE_LEN;
        var r := if hit then room - 1 else room;
        var rest := ScanFrom(answer, k + 2, i + 2, r, rules);
        ScanRecordsResponders(answer, k + 2, i + 2, r, rules);
        assert i + 2 + 2 * rest.probed == i + 2 * s.probed;
        if rest.ops != ProbesFrom(i + 2, rest.probed) {
          assert ProbeOps(i) + (ProbesFrom(i + 2, rest.probed) + [Init(i + 2 * s.probed, Addr7Bit, Standard, 0, ZeroRecord)])
              == ProbesFrom(i, s.probed) + [Init(i + 2 * s.probed, Addr7Bit, Standard, 0, ZeroRecord)];
        }
      } else {
        assert init.ops == [] || init.ops == [Init(i, Addr7Bit, Standard, 0, ZeroRecord)];
      }
    }
  }

  /** A scan stops for one of three reasons only: no address below 0x100 is
      left, `room` addresses are recorded, or registering the next address
      failed. */
  lemma {:induction false} ScanStopReason(answer: Oracle, k: nat, i: int, room: int, rules: AddressRules)
    requires i % 2 == 0
    ensures var s := ScanFrom(answer, k, i, room, rules);
            var next := i + 2 * s.probed;
            0x100 <= next || room <= |s.found| ||
            InitCall(answer, k + 2 * s.probed, next, Addr7Bit, Standard, 0, ZeroRecord, rules).result != 0
    decreases 0x100 - i
  {
    var s := ScanFrom(answer, k, i, room, rules);
    if i < 0x100 && 0 < room {
      var init := InitCall(answer, k, i, Addr7Bit, Standard, 0, ZeroRecord, rules);
      ScanAdvance(answer, k, i, room, rules);
      if init.result == 0 {
        var hit := answer(k + 1, Read(PROBE_LEN)).result == PROBE_LEN;
        var r := if hit then room - 1 else room;
        var rest := ScanFrom(answer, k + 2, i + 2, r, rules);
        ScanStopReason(answer, k + 2, i + 2, r, rules);
        assert s.probed == rest.probed + 1 && |s.found| == |rest.found| + (if hit then 1 else 0);
        assert k + 2 * s.probed == k + 2 + 2 * rest.probed && i + 2 * s.probed == i + 2 + 2 * rest.probed;
      } else {
        assert s.probed == 0 && k + 2 * s.probed == k && i + 2 * s.probed == i;
      }
    }
  }

  /** The scan loop's account as sequence algebra: after a probe the address
      (on a hit) moves from the rest of the scan into the caller's array, and
      the probe's two requests from the rest of the scan into the history. */
  lemma ScanAccount(found: seq<int>, ops: seq<Op>, log0: seq<Op>, log: seq<Op>, before: seq<int>, orig: seq<int>,
                    count: nat, i: int, hit: bool, restFound: seq<int>, restOps: seq<Op>,
                    log1: seq<Op>, after: seq<int>, count1: nat)
    requires count <= |before| == |orig| && before[count..] == orig[count..]
    requires found == before[..count] + ((if hit then [i] else []) + restFound)
    requires log0 + ops == log + (ProbeOps(i) + restOps) && log1 == log + ProbeOps(i)
    requires hit ==> count < |before| && after == before[count := i] && count1 == count + 1
    requires !hit ==> after == before && count1 == count
    ensures count1 <= |after| == |orig|
    ensures found == after[..count1] + restFound && log0 + ops == log1 + restOps && after[count1..] == orig[count1..]
  {
    if hit {
      assert after[..count1] == before[..count] + [i];
      assert after[count1..] == before[count1..];
    }
  }

  /** One probe of the scan loop: register address `i` through a slave record
      cleared to zero and, when that succeeds, read ten bytes into `dummy`.
      `ok` tells whether the registration succeeded and `hit` whether all ten
      bytes came back. */
  method Probe(bus: Bus, i: int, dummy: array<Byte>, rules: AddressRules) returns (ok: bool, hit: bool)
    requires ReadsFit(bus.answer) && dummy.Length == PROBE_LEN
    modifies bus, dummy
    ensures var init := InitCall(bus.answer, |old(bus.log)|, i, Addr7Bit, Standard, 0, ZeroRecord, rules);
            ok == (init.result == 0) &&
            (!ok ==> bus.log == old(bus.log) + init.ops) &&
            (ok ==> init.ops == [Init(i, Addr7Bit, Standard, 0, ZeroRecord)] && bus.log == old(bus.log) + ProbeOps(i) &&
                    hit == (bus.answer(|old(bus.log)| + 1, Read(PROBE_LEN)).result == PROBE_LEN))
  {
    var sl := new Slave();
    var ret := SlaveInit(bus, i, Addr7Bit, Standard, 0, sl, rules);
    ok := ret == 0;
    hit := false;
    if ok {
      ret := bus.SlaveRead(dummy, PROBE_LEN);
      hit := ret == PROBE_LEN;
    }
  }

  /** `i2c_scan`: the addresses found are stored at the start of `addr`, which
      has room for `naddr` of them, and their number is returned. */
  method I2cScan(bus: Bus, start: int, addr: array<int>, naddr: int, rules: AddressRules) returns (count: int)
    requires ReadsFit(bus.answer) && naddr <= addr.Length
    modifies bus, addr
    ensures var s := ScanFrom(bus.answer, |old(bus.log)|, FirstAddress(start), naddr, rules);
            count == |s.found| && bus.log == old(bus.log) + s.ops &&
            count <= addr.Length && addr[..count] == s.found && addr[count..] == old(addr[count..])
  {
    ghost var answer := bus.answer;
    ghost var log0 := bus.log;
    ghost var whole := ScanFrom(answer, |log0|, FirstAddress(start), naddr, rules);
    var dummy := new Byte[PROBE_LEN];
    count := 0;
    var i := FirstAddress(start);
    while i < 0x100 && count < naddr
      invariant i % 2 == 0 && 0 <= count && (count <= naddr || count == 0) && count <= addr.Length
      invariant bus.answer == answer
      invariant var rest := ScanFrom(answer, |bus.log|, i, naddr - count, rules);
                whole.found == addr[..count] + rest.found && log0 + whole.ops == bus.log + rest.ops
      invariant addr[count..] == old(addr[count..])
      decreases 0x100 - i
    {
      ghost var log := bus.log;
      ghost var before := addr[..];
      ScanAdvance(answer, |log|, i, naddr - count, rules);
      var ok, hit := Probe(bus, i, dummy, rules);
      if !ok {
        break;
      }
      ghost var rest := ScanFrom(answer, |log| + 2, i + 2, if hit then naddr - count - 1 else naddr - count, rules);
      ghost var count0 := count;
      if hit {
        addr[count] := i;
        count := count + 1;
      }
      ScanAccount(whole.found, whole.ops, log0, log, before, old(addr[..]), count0, i, hit, rest.found, rest.ops,
                  bus.log, addr[..], count);
      i := i + 2;
    }
    assert addr[..count] + [] == addr[..count];
  }
}
