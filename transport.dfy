/** The I2C transport as the register layer sees it: `i2c_slave_write`,
    `i2c_slave_read` and the controller's `slave_init` hook. Their code sits
    behind function pointers and is not part of this model; instead the bus
    answers each request from an oracle indexed by the request's position in the
    bus's history. Every fixed run of a real controller is reproduced by some
    oracle, so a property proved for all oracles holds for every controller. */
module I2cTransport {
  import opened Words

  /** `enum i2c_slave_speed`: the four supported classes, or any other value. */
  datatype Speed = Standard | Fast | FastPlus | HighSpeed | UnknownSpeed(code: int)

  /** `enum i2c_slave_address_size`: 7-bit, 10-bit, or any other value. */
  datatype AddressSize = Addr7Bit | Addr10Bit | UnknownSize(code: int)

  /** The fields of an `i2c_slave_t` the register layer knows of, as the
      controller's `slave_init` is handed them: whether its `bus` field points
      at the controller being asked, its address and its two formats. */
  datatype SlaveRecord = SlaveRecord(onBus: bool, address: int, addressFmt: int, dataFmt: int)

  /** A slave record cleared with `memset(.., 0, ..)`: its `bus` is NULL. */
  const ZeroRecord: SlaveRecord := SlaveRecord(false, 0, 0, 0)

  /** One request to the controller. */
  datatype Op =
    | Write(bytes: seq<Byte>)   // i2c_slave_write of these bytes
    | Read(len: int)            // i2c_slave_read of `len` bytes
    | Init(address: int, size: AddressSize, speed: Speed, opts: U32, slave: SlaveRecord)   // bus->slave_init

  /** The controller's answer: the `int` it returns and, for a read, the bytes it
      stored at the start of the caller's buffer. */
  datatype Reply = Reply(result: int, payload: seq<Byte>)

  type Oracle = (nat, Op) -> Reply

  /** What running a piece of the register layer did on the bus: the value it
      returned, the requests it issued in order, and the bytes it delivered to
      the caller's buffer (reads only; empty otherwise). */
  datatype Exchange = Exchange(result: int, ops: seq<Op>, data: seq<Byte>)

  /** A well-behaved answer: never more bytes than were asked for, and a read
      stores exactly as many bytes as it reports. */
  predicate Conforms(op: Op, reply: Reply)
  {
    match op
    case Write(bytes) => reply.result <= |bytes|
    case Read(len) => reply.result <= len && |reply.payload| == (if reply.result < 0 then 0 else reply.result)
    case Init(_, _, _, _, _) => true
  }

  /** The transport assumption the read path rests on: every answer the
      controller could give to a read conforms. Its answers to writes are not
      constrained: `_do_kvread` treats any address-phase result other than the
      full register number as a failure. */
  ghost predicate ReadsConform(answer: Oracle)
  {
    forall k: nat, len: int :: Conforms(Read(len), answer(k, Read(len)))
  }

  /** The least a read needs of the controller: it never stores more bytes than
      were asked for, whatever count it reports. */
  ghost predicate ReadsFit(answer: Oracle)
  {
    forall k: nat, len: int :: |answer(k, Read(len)).payload| <= (if len < 0 then 0 else len)
  }

  /** A controller that never reports more bytes than were sent. Nothing in
      `i2c_kvslave_write` relies on it; it is what keeps the element count a
      write reports within the count asked for. */
  ghost predicate WritesFit(answer: Oracle)
  {
    forall k: nat, bytes: seq<Byte> :: answer(k, Write(bytes)).result <= |bytes|
  }

  /** A controller whose reads conform stores no more than it was asked for. */
  lemma ReadsConformFit(answer: Oracle)
    requires ReadsConform(answer)
    ensures ReadsFit(answer)
  {
    forall k: nat, len: int
      ensures |answer(k, Read(len)).payload| <= (if len < 0 then 0 else len)
    {
      assert Conforms(Read(len), answer(k, Read(len)));
    }
  }

  /** A controller that never fails: every write and every read moves all the
      bytes asked for, and a read stores what it reports. */
  ghost predicate Perfect(answer: Oracle)
  {
    ReadsConform(answer) &&
    (forall k: nat, bytes: seq<Byte> :: answer(k, Write(bytes)).result == |bytes|) &&
    (forall k: nat, len: int :: answer(k, Read(len)).result == len)
  }

  /** `i2c_bus_t`: a controller and the requests issued to it so far. */
  class Bus {
    const answer: Oracle
    var log: seq<Op>

    constructor (answer: Oracle)
      ensures this.answer == answer && log == []
    {
      this.answer := answer;
      log := [];
    }

    /** Issues one request and records it. */
    method Request(op: Op) returns (reply: Reply)
      modifies this
      ensures reply == answer(|old(log)|, op)
      ensures log == old(log) + [op]
    {
      reply := answer(|log|, op);
      log := log + [op];
    }

    /** `i2c_slave_write(slave, buf, len, ...)`: sends the first `len` bytes of `buf`. */
    method SlaveWrite(buf: array<Byte>, len: nat) returns (bytes: int)
      requires len <= buf.Length
      modifies this
      ensures bytes == answer(|old(log)|, Write(buf[..len])).result
      ensures log == old(log) + [Write(buf[..len])]
    {
      var reply := Request(Write(buf[..len]));
      bytes := reply.result;
    }

    /** `i2c_slave_read(slave, buf, len, ...)`: the controller stores its payload
        at the start of `buf` and leaves the rest alone. */
    method SlaveRead(buf: array<Byte>, len: int) returns (bytes: int)
      requires ReadsFit(answer) && len <= buf.Length
      modifies this, buf
      ensures bytes == answer(|old(log)|, Read(len)).result
      ensures log == old(log) + [Read(len)]
      ensures |answer(|old(log)|, Read(len)).payload| <= buf.Length
      ensures buf[..] == answer(|old(log)|, Read(len)).payload + old(buf[..])[|answer(|old(log)|, Read(len)).payload|..]
    {
      var reply := Request(Read(len));
      assert |reply.payload| <= buf.Length;
      var p := reply.payload;
      var i := 0;
      while i < |p|
        invariant 0 <= i <= |p|
        invariant log == old(log) + [Read(len)]
        invariant forall q :: 0 <= q < i ==> buf[q] == p[q]
        invariant forall q :: i <= q < buf.Length ==> buf[q] == old(buf[q])
      {
        buf[i] := p[i];
        i := i + 1;
      }
      assert buf[..] == p + old(buf[..])[|p|..];
      bytes := reply.result;
    }

    /** `bus->slave_init(bus, address, size, speed, opts, slave)`: the request
        carries the slave record as it stands at the call. The controller may
        fill the record in; what it writes there is not modelled, so nothing is
        promised about the record afterwards. */
    method SlaveInit(address: int, size: AddressSize, speed: Speed, opts: U32, slave: Slave) returns (r: int)
      modifies this, slave
      ensures r == answer(|old(log)|, Init(address, size, speed, opts, old(slave.RecordOn(this)))).result
      ensures log == old(log) + [Init(address, size, speed, opts, old(slave.RecordOn(this)))]
    {
      var reply := Request(Init(address, size, speed, opts, slave.RecordOn(this)));
      r := reply.result;
    }
  }

  /** `i2c_slave_t` as the register layer uses it: its controller, its bus
      address, and the formats of register numbers and data elements. */
  class Slave {
    var bus: Bus?
    var address: int
    var addressFmt: int
    var dataFmt: int

    /** A slave record cleared to zero, as `memset` leaves it. */
    constructor ()
      ensures bus == null && RecordOn(bus) == ZeroRecord
    {
      bus := null;
      address := 0;
      addressFmt := 0;
      dataFmt := 0;
    }

    /** The record's fields as a value, as handed to the controller `to`. */
    function RecordOn(to: Bus?): SlaveRecord
      reads this
    {
      SlaveRecord(to != null && bus == to, address, addressFmt, dataFmt)
    }
  }
}
