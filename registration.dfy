/** Slave registration: `i2c_slave_init` and `i2c_kvslave_init` check the
    requested speed class, then the address size, then the address, and hand the
    request to the controller only when every check passes. */
module SlaveRegistration {
  import opened Words
  import opened I2cTransport

  /** Linux errno values returned negated. */
  const EINVAL: int := 22
  const ENODEV: int := 19

  /** `i2c_extract_address` and `i2c_is_valid_address`: declared in a header that
      is not part of this model, so they are taken as parameters. */
  datatype AddressRules = AddressRules(extract: int -> int, isValid: int -> bool)

  /** The four speed classes the `switch` accepts. */
  predicate SupportedSpeed(speed: Speed)
  {
    speed.Standard? || speed.Fast? || speed.FastPlus? || speed.HighSpeed?
  }

  /** The two address sizes the `if` accepts. */
  predicate SupportedSize(size: AddressSize)
  {
    size == Addr7Bit || size == Addr10Bit
  }

  /** The checks of `i2c_slave_init`, in their order: 0 when the controller is to
      be asked, else the error code of the first failing check. */
  function Validate(address: int, size: AddressSize, speed: Speed, rules: AddressRules): (r: int)
    ensures r == 0 <==> SupportedSpeed(speed) && SupportedSize(size) && rules.isValid(rules.extract(address))
    ensures r == -EINVAL <==> !SupportedSpeed(speed) || !SupportedSize(size)
    ensures r == -ENODEV <==> SupportedSpeed(speed) && SupportedSize(size) && !rules.isValid(rules.extract(address))
  {
    match speed
    case UnknownSpeed(_) => -EINVAL
    case _ =>
      if size != Addr7Bit && size != Addr10Bit then -EINVAL
      else if !rules.isValid(rules.extract(address)) then -ENODEV
      else 0
  }

  /** What `i2c_slave_init` does, handed the slave record `slave`, on a bus
      whose next request has position `k`. */
  function InitCall(answer: Oracle, k: nat, address: int, size: AddressSize, speed: Speed, opts: U32,
                    slave: SlaveRecord, rules: AddressRules): (x: Exchange)
    ensures |x.ops| <= 1 && x.data == []
    ensures x.ops != [] <==> Validate(address, size, speed, rules) == 0
    ensures x.ops != [] ==> x.ops[0] == Init(address, size, speed, opts, slave) && x.result == answer(k, x.ops[0]).result
    ensures x.ops == [] ==> x.result == -EINVAL || x.result == -ENODEV
  {
    var v := Validate(address, size, speed, rules);
    if v != 0 then Exchange(v, [], [])
    else
      var op := Init(address, size, speed, opts, slave);
      Exchange(answer(k, op).result, [op], [])
  }

  /** `i2c_slave_init`: the slave record is only passed on to the controller,
      so it is untouched when a check fails. */
  method SlaveInit(bus: Bus, address: int, size: AddressSize, speed: Speed, opts: U32, slave: Slave,
                   rules: AddressRules) returns (r: int)
    modifies bus, slave
    ensures var x := InitCall(bus.answer, |old(bus.log)|, address, size, speed, opts, old(slave.RecordOn(bus)), rules);
            r == x.result && bus.log == old(bus.log) + x.ops && (x.ops == [] ==> unchanged(slave))
  {
    match speed {
      case UnknownSpeed(_) => return -EINVAL;
      case _ =>
    }
    if size != Addr7Bit && size != Addr10Bit {
      return -EINVAL;
    }
    if !rules.isValid(rules.extract(address)) {
      return -ENODEV;
    }
    r := bus.SlaveInit(address, size, speed, opts, slave);
  }

  /** `(address >> 1) & 0x7F`: the 7-bit address the fatal check of
      `i2c_kvslave_init` validates, whatever the address size. */
  function SevenBitAddress(address: int): (r: int)
    ensures 0 <= r < 128
  {
    (address / 2) % 128
  }

  /** The fatal check ignores the read/write bit and every bit above the seventh
      address bit. */
  lemma SevenBitAddressWindow(address: int)
    ensures SevenBitAddress(address) == SevenBitAddress(address + 1 - 2 * (address % 2))
    ensures SevenBitAddress(address) == SevenBitAddress(address + 256)
  {
    var h := address / 2;
    assert (address + 1 - 2 * (address % 2)) / 2 == h;
    assert (address + 256) / 2 == h + 128;
  }

  /** `i2c_kvslave_init`: the speed and size checks come before any field of the
      slave is written; after them the slave is filled in with the bus, the
      address and both formats, and that record is registered with no options.
      When `i2c_slave_init` hands it to the controller, the request carries the
      filled record; when a check there fails, the slave keeps it. The address
      check of the C code is fatal, so it is a precondition here. */
  method KvSlaveInit(bus: Bus, address: int, size: AddressSize, speed: Speed, afmt: int, dfmt: int,
                     slave: Slave, rules: AddressRules) returns (r: int)
    requires SupportedSpeed(speed) && SupportedSize(size) ==> rules.isValid(SevenBitAddress(address))
    modifies slave, bus
    ensures !SupportedSpeed(speed) || !SupportedSize(size) ==>
              r == -EINVAL && unchanged(slave) && bus.log == old(bus.log)
    ensures SupportedSpeed(speed) && SupportedSize(size) ==>
              var filled := SlaveRecord(true, address, afmt, dfmt);
              var x := InitCall(bus.answer, |old(bus.log)|, address, size, speed, 0, filled, rules);
              r == x.result && bus.log == old(bus.log) + x.ops &&
              (x.ops == [] ==> slave.bus == bus && slave.RecordOn(bus) == filled)
  {
    match speed {
      case UnknownSpeed(_) => return -EINVAL;
      case _ =>
    }
    if size != Addr7Bit && size != Addr10Bit {
      return -EINVAL;
    }
    slave.bus := bus;
    slave.address := address;
    slave.dataFmt := dfmt;
    slave.addressFmt := afmt;
    r := SlaveInit(bus, address, size, speed, 0, slave, rules);
  }
}
