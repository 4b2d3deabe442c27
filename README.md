# Register I2C slaves and ELF-64 section queries

This project models two pieces of the platform support libraries and proves
properties of the model.

**Register-style I2C devices** (`libplatsupport/src/arch/arm/i2c.c`). A device
is reached through a bus controller and addressed as a bank of registers. The
register number is `|afmt|` bytes long, each element is `|dfmt|` bytes long,
and the sign of a format chooses the byte order. The model covers:

- **Codec** (module `KvCodec`). `_fill_reg` and `_fill_data` lay out register
  numbers and elements in a scratch buffer. They are methods over arrays, each
  proved equal to a function on sequences.
- **Single transactions** (module `KvTransaction`). `_do_kvread` and
  `_do_kvwrite` clamp the element count to the 128-byte scratch buffer, run the
  address and data phases, and turn the byte count the controller reports into
  whole elements.
- **Block transfers** (module `KvSession`). `i2c_kvslave_read` and
  `i2c_kvslave_write` loop over transactions until everything has moved or a
  transaction moves nothing.
- **Registration** (module `SlaveRegistration`). `i2c_slave_init` and
  `i2c_kvslave_init` validate the speed, the address size and the address, then
  hand over to the controller.
- **Bus scan** (module `BusScan`). `i2c_scan` probes the even addresses.

The controller is not modelled. Its three entry points, `i2c_slave_write`,
`i2c_slave_read` and `bus->slave_init`, are the methods of the class
`I2cTransport.Bus`. A bus holds an oracle, `answer(k, op)`, that gives the reply
to the `k`-th request, and a log of every request issued. Any fixed run of a
real controller is one such oracle, so properties proved for every oracle hold
for every controller. The members that need more of the controller say so in
their `requires`, with one of these predicates:

- `ReadsConform`: a read never reports more bytes than it was asked for, and
  it stores exactly the bytes it reports. The read path requires it: `_do_kvread`
  decodes `bytes / dbytes` elements from the scratch buffer. Answers to writes
  are left free, since any address-phase result other than `abytes` gives -1.
- `ReadsFit`: a read never stores more bytes than it was asked for. This is
  all the scan needs. `ReadsConform` implies it.
- `WritesFit`: a write never reports more bytes than it was sent. The write
  path does not require it. Only the bounds `WriteChunkBound` and
  `WriteRunBound` assume it. Without it `i2c_kvslave_write` can return more
  than `count`, and `WriteRun` models that return.
- `Perfect`: a controller whose reads conform and that moves every byte of
  every request.

`i2c_extract_address` and `i2c_is_valid_address` are not part of this model.
They enter as the two functions of an `AddressRules` parameter.

**ELF-64 files** (`libelf/src/elf64.c`, module `Elf64`). This part covers the
header check and the section-table queries. An image is its header, its table of
section headers and its bytes. A `char *` into the image is an offset from the
image's start. The identification constants are those of the ELF header
(`e_ident`) in chapter 4 of the System V gABI.

Numbers are unbounded in the model. Where the C code's integer width matters,
the model writes it out:

- The 64-bit register cursor wraps, through `Words.Wrap64`.
- `/` truncates toward zero, through `KvTransaction.CDiv`.
- `count * dbytes` is written as `Span(count, dbytes)`, a recursive product. Its
  overflow is excluded by a precondition.

## Model

| member | source | states |
|---|---|---|
| KvCodec.FillReg | libplatsupport/src/arch/arm/i2c.c:47-57 | `_fill_reg` writes exactly `abs(fmt)` bytes and returns `abs(fmt)`. Those bytes are the register number's low bytes in the order `fmt` asks for, and the rest of the buffer is unchanged. |
| KvCodec.RegBytesAt | libplatsupport/src/arch/arm/i2c.c:52-54 | Byte `i` of the register number, `(reg >> 8i) & 0xff`, lands at index `i` when `fmt > 0` and at `abs(fmt)-1-i` when `fmt < 0`. That index is always inside the field. |
| KvCodec.RegBytesDropsHighBytes | libplatsupport/src/arch/arm/i2c.c:52-54 | Only `reg mod 256^abs(fmt)` reaches the bus: higher bytes are dropped. Reading the field back in the same order gives `reg mod 256^abs(fmt)`. |
| KvCodec.LeBytesValue | libplatsupport/src/arch/arm/i2c.c:52-54 | The `n` bytes shifted out of a value encode that value modulo `256^n`. |
| KvCodec.LeValueBytes | libplatsupport/src/arch/arm/i2c.c:52-54 | Any `n` bytes are the encoding of the value they spell, so the encoding is onto. |
| KvCodec.FillData | libplatsupport/src/arch/arm/i2c.c:31-44 | `_fill_data` writes the `count` laid-out elements at the buffer offset. The buffer bytes before and after them are unchanged. |
| KvCodec.FillElement | libplatsupport/src/arch/arm/i2c.c:37-40 | The inner loop copies one element, kept in order or reversed. Nothing else in the buffer changes. |
| KvCodec.SwapElemsAt | libplatsupport/src/arch/arm/i2c.c:36-43 | Output element `j` is input element `j`, kept in order for `fmt > 0` and reversed for `fmt < 0`. |
| KvCodec.SwapElemsPrefix | libplatsupport/src/arch/arm/i2c.c:36-43 | Laying out `count` elements starts with the layout of the first `m` elements. |
| KvCodec.SwapElemsLocal | libplatsupport/src/arch/arm/i2c.c:36-43 | The layout reads only the first `count * abs(fmt)` input bytes. |
| KvCodec.SwapElemsOfPrefix | libplatsupport/src/arch/arm/i2c.c:36-43 | Bytes after the `count` elements do not affect the layout. |
| KvCodec.ElemTwice | libplatsupport/src/arch/arm/i2c.c:37-39 | Laying out one element twice with the same `fmt` gives the element back. |
| KvCodec.SwapElemsTwice | libplatsupport/src/arch/arm/i2c.c:31-44 | Applying `_fill_data` twice with the same `fmt` is the identity on the `count` elements. So the read side's decode inverts the write side's encode. |
| KvCodec.SpanIsProduct | libplatsupport/src/arch/arm/i2c.c:70-70 | `Span(count, w)` is the product `count * w` that the source computes. |
| KvTransaction.CDiv | libplatsupport/src/arch/arm/i2c.c:122-122 | C's truncating `/`: floor division for a non-negative numerator, at most 0 for a negative one, and 0 exactly when the numerator is smaller than the divisor in magnitude. |
| KvTransaction.CDivTruncates | libplatsupport/src/arch/arm/i2c.c:122-122 | The remainder `x - CDiv(x, d) * d` has the dividend's sign and is smaller than `d` in magnitude, as C requires of `/` and `%`. No other quotient has this property, so a negative dividend is divided toward zero. |
| KvTransaction.ReadClampFits | libplatsupport/src/arch/arm/i2c.c:69-72 | The read clamp is `min(count, 128 / dbytes)`. It is positive, and its elements fit the 128-byte buffer. |
| KvTransaction.WriteClampFits | libplatsupport/src/arch/arm/i2c.c:107-110 | The write clamp is `min(count, (128 - abytes) / dbytes)`, and its elements fit beside the address bytes. It is 0 exactly when `abytes + dbytes > 128`. |
| KvTransaction.Fetch | libplatsupport/src/arch/arm/i2c.c:83-93 | The data phase delivers exactly `result` whole elements, or nothing when the read fails. |
| KvTransaction.ReadChunk | libplatsupport/src/arch/arm/i2c.c:60-95 | A read transaction delivers `result * dbytes` bytes, or nothing on failure. |
| KvTransaction.ReadChunkPhases | libplatsupport/src/arch/arm/i2c.c:73-87 | The address phase comes first. If it moves other than `abytes` bytes, the result is -1 and no read follows. Otherwise one read of `clamp * dbytes` bytes follows, and a negative read result is returned unchanged. |
| KvTransaction.FetchWholeElements | libplatsupport/src/arch/arm/i2c.c:88-93 | After a non-negative read the result is `bytes / dbytes`: a trailing partial element is dropped. The elements delivered are the bytes read, in the order `dfmt` asks for. |
| KvTransaction.ReadChunkBound | libplatsupport/src/arch/arm/i2c.c:69-92 | On a controller whose reads conform a read never reports more elements than the clamp, which is at most `count`. |
| KvTransaction.ReadChunkPerfect | libplatsupport/src/arch/arm/i2c.c:69-94 | On a perfect controller a read moves exactly the clamped number of elements, which is positive. |
| KvTransaction.SeekRegister | libplatsupport/src/arch/arm/i2c.c:73-76 | The address phase issues exactly one write of the register bytes and returns the controller's answer. |
| KvTransaction.FetchElements | libplatsupport/src/arch/arm/i2c.c:81-93 | The data phase issues the read and returns its result. The decoded elements go to the caller's buffer at its offset, and nothing else there changes. |
| KvTransaction.DoKvRead | libplatsupport/src/arch/arm/i2c.c:60-95 | `_do_kvread` returns the read transaction's result and issues its requests. It writes exactly the delivered elements into the caller's buffer. |
| KvTransaction.WriteChunk | libplatsupport/src/arch/arm/i2c.c:98-124 | A write transaction as a value. It delivers no data; its outcome is stated by the four lemmas below. |
| KvTransaction.WriteChunkFrame | libplatsupport/src/arch/arm/i2c.c:111-117 | A write is one request of the register bytes followed by the clamped elements, at most 128 bytes. Decoding its data part gives back the caller's elements. |
| KvTransaction.WriteChunkSize | libplatsupport/src/arch/arm/i2c.c:108-117 | A write sends `abytes + clamp * dbytes` bytes in one request. |
| KvTransaction.WriteChunkResult | libplatsupport/src/arch/arm/i2c.c:117-123 | A transport result of at most 0 is returned unchanged. An answer shorter than the address gives `-((abytes - bytes) / dbytes)`, the shortfall divided toward zero: 0 or less, and 0 exactly when the shortfall is under one element. Otherwise the result is `(bytes - abytes) / dbytes`. |
| KvTransaction.WriteChunkBound | libplatsupport/src/arch/arm/i2c.c:108-123 | On a controller that never reports more bytes than it was sent (`WritesFit`), a write never reports more elements than the clamp, which is at most `count`. |
| KvTransaction.WriteChunkPerfect | libplatsupport/src/arch/arm/i2c.c:108-123 | On a perfect controller a write moves exactly the clamped number of elements. That number is 0 exactly when `abytes + dbytes > 128`. |
| KvTransaction.DoKvWrite | libplatsupport/src/arch/arm/i2c.c:98-124 | `_do_kvwrite` returns the write transaction's result and issues its one request. |
| SlaveRegistration.Validate | libplatsupport/src/arch/arm/i2c.c:136-153 | The checks run in order. An unsupported speed or address size gives -EINVAL. Otherwise an invalid extracted address gives -ENODEV. Otherwise the result is 0, and each of these holds in both directions. |
| SlaveRegistration.InitCall | libplatsupport/src/arch/arm/i2c.c:126-157 | The controller's `slave_init` is called, once, exactly when every check passes, and its answer is the result. Otherwise no request is made and the result is -EINVAL or -ENODEV. |
| SlaveRegistration.SlaveInit | libplatsupport/src/arch/arm/i2c.c:126-157 | `i2c_slave_init` returns what `InitCall` says and issues its requests. The request carries the slave record as it stood at the call. When a check fails, the record is untouched. |
| SlaveRegistration.SevenBitAddress | libplatsupport/src/arch/arm/i2c.c:185-185 | `(address >> 1) & 0x7F` is in `[0, 128)`. |
| SlaveRegistration.SevenBitAddressWindow | libplatsupport/src/arch/arm/i2c.c:185-185 | The 7-bit address ignores the read/write bit and every bit above the eighth. |
| SlaveRegistration.KvSlaveInit | libplatsupport/src/arch/arm/i2c.c:159-193 | An unsupported speed or size gives -EINVAL before any field is written or request made. Otherwise the slave is filled with the bus, the address and both formats before the hand-over. The result is that of `i2c_slave_init` with options 0 on that filled record. Its request to the controller carries the filled record. When no request is made, the slave still holds those fields afterwards. |
| KvSession.ReadRun | libplatsupport/src/arch/arm/i2c.c:197-215 | A block read returns between 0 and `count` elements and delivers that many elements' bytes. With `count <= 0` it returns 0 and issues nothing. |
| KvSession.ReadPass | libplatsupport/src/arch/arm/i2c.c:205-213 | One pass of the read loop and the rest of the run: between 0 and `remain` elements, and at least one request. |
| KvSession.ReadRunAdvance | libplatsupport/src/arch/arm/i2c.c:205-213 | A transaction result of at most 0 ends the loop with nothing more requested. Otherwise the run continues with `remain` reduced by the result and the register advanced by `dbytes * result`, wrapping at 2^64. The totals add up. |
| KvSession.ReadRunComplete | libplatsupport/src/arch/arm/i2c.c:197-215 | On a perfect controller a block read returns `count`, or 0 when `count <= 0`. |
| KvSession.ReadRunResumes | libplatsupport/src/arch/arm/i2c.c:205-213 | After one pass the loop's account still holds: elements so far plus the rest of the run, requests so far plus the rest, and delivered bytes at the front of the buffer. |
| KvSession.ReadStep | libplatsupport/src/arch/arm/i2c.c:206-212 | One pass advances the register, the buffer offset and `remain` as the run says, or ends the loop. |
| KvSession.KvSlaveRead | libplatsupport/src/arch/arm/i2c.c:197-215 | `i2c_kvslave_read` returns `ReadRun`'s result and issues exactly its requests. It fills the buffer front with its data and leaves the rest unchanged. |
| KvSession.WriteRun | libplatsupport/src/arch/arm/i2c.c:219-237 | A block write, on any controller, returns at least 0 and delivers no data. With `count <= 0` it returns 0 and issues nothing; otherwise it issues at least one request. |
| KvSession.WritePass | libplatsupport/src/arch/arm/i2c.c:227-235 | One pass of the write loop and the rest of the run: at least 0 elements and at least one request. A result above `remain` drives `remain` negative and ends the run. |
| KvSession.WriteRunAdvance | libplatsupport/src/arch/arm/i2c.c:227-235 | A transaction result of at most 0 ends the loop. Otherwise the run continues with the data offset advanced by `dbytes * result` and the register advanced by `result` alone. |
| KvSession.WriteRunBound | libplatsupport/src/arch/arm/i2c.c:219-237 | On a controller that never reports more bytes than it was sent (`WritesFit`), a block write of `count > 0` elements returns at most `count`. |
| KvSession.WriteRunComplete | libplatsupport/src/arch/arm/i2c.c:219-237 | On a perfect controller a block write of `count > 0` elements returns `count` exactly when `abytes + dbytes <= 128`. Otherwise it returns 0. |
| KvSession.WriteRunResumes | libplatsupport/src/arch/arm/i2c.c:227-235 | After one pass the loop's account still holds: elements so far plus the rest of the run, and requests so far plus the rest. |
| KvSession.WriteStep | libplatsupport/src/arch/arm/i2c.c:228-234 | One pass advances the register, the data offset and `remain` as the run says, or ends the loop. |
| KvSession.KvSlaveWrite | libplatsupport/src/arch/arm/i2c.c:219-237 | `i2c_kvslave_write` returns `WriteRun`'s result and issues exactly its requests. |
| Words.Wrap64IsMod | libplatsupport/src/arch/arm/i2c.c:211-211 | The register cursor's `+=` on a `uint64_t` is addition modulo 2^64. |
| BusScan.FirstAddress | libplatsupport/src/arch/arm/i2c.c:259-259 | `start & ~0x1` is the even number at or just below `start`. |
| BusScan.ScanFrom | libplatsupport/src/arch/arm/i2c.c:259-282 | A scan records at most `naddr` addresses, and none when `naddr <= 0`. |
| BusScan.ScanPass | libplatsupport/src/arch/arm/i2c.c:263-281 | One pass of the scan loop never records more than there is room for. |
| BusScan.ScanAdvance | libplatsupport/src/arch/arm/i2c.c:263-281 | A failed registration ends the scan after its request. Otherwise the pass issues the registration and a 10-byte read, records the address only when the read returns 10, and goes on from the next even address. |
| BusScan.ScanFoundOrdered | libplatsupport/src/arch/arm/i2c.c:259-281 | The recorded addresses are even, strictly ascending, at least `start & ~1`, and below 0x100. |
| BusScan.ScanRecordsResponders | libplatsupport/src/arch/arm/i2c.c:259-276 | A scan is a run of complete probes, perhaps followed by one failed registration. It records exactly the probed addresses whose read returned all 10 bytes; other results are skipped. No probed address, and not the address of a failed registration, lies above 0xff. |
| BusScan.ScanStopReason | libplatsupport/src/arch/arm/i2c.c:259-271 | A scan stops only after address 0xfe, once `naddr` addresses are recorded, or at the first failed registration. |
| BusScan.Probe | libplatsupport/src/arch/arm/i2c.c:263-276 | One probe registers the address through a slave record cleared by `memset`. If that succeeds it reads 10 bytes, and `hit` holds exactly when the read returns 10. A failed registration issues only its own requests. |
| BusScan.I2cScan | libplatsupport/src/arch/arm/i2c.c:239-283 | `i2c_scan` returns the number of addresses `ScanFrom` records and issues its requests. It writes those addresses to the front of `addr` and leaves the rest of `addr` unchanged. |
| I2cTransport.Bus.SlaveWrite | libplatsupport/src/arch/arm/i2c.c:117-117 | A controller write issues one request of the first `len` buffer bytes and returns the controller's answer. |
| I2cTransport.Bus.SlaveRead | libplatsupport/src/arch/arm/i2c.c:83-83 | A controller read issues one request and returns the controller's answer. The delivered bytes land at the front of the buffer. It assumes only that the controller stores no more than asked (`ReadsFit`). |
| I2cTransport.Bus.SlaveInit | libplatsupport/src/arch/arm/i2c.c:155-156 | `bus->slave_init` issues one request and returns the controller's answer. The request carries the slave record as it stands at the call. The controller may rewrite the record, and nothing is promised about it afterwards. |
| Elf64.CheckFile | libelf/src/elf64.c:85-115 | The result is -1 exactly when the magic `0x7f 'E' 'L' 'F'` is wrong, and -2 exactly when the magic is right but the class is not ELFCLASS64. Otherwise it is 0. |
| Elf64.CheckFileReadsFiveBytes | libelf/src/elf64.c:96-114 | Only the first five identification bytes matter. Encoding, version, machine, type, program headers and flags are not checked, because those checks sit in `#if 0`. |
| Elf64.GetSegmentStringTable | libelf/src/elf64.c:146-155 | The result is NULL exactly when `e_shstrndx == 0`. Otherwise it is the image base plus the offset of section `e_shstrndx`. |
| Elf64.GetSectionName | libelf/src/elf64.c:182-192 | The result is `"<corrupted>"` exactly when there is no section-name table. Otherwise it is the table's offset plus `sh_name`. |
| Elf64.CStringAtReads | libelf/src/elf64.c:172-172 | The name `strcmp` reads is the bytes from the name's offset up to, and not including, the first NUL. It holds no NUL. |
| Elf64.FindFrom | libelf/src/elf64.c:171-177 | A match found from `i` is at an index in `[i, e_shnum)` whose name is `str`. |
| Elf64.FindFromFirst | libelf/src/elf64.c:171-177 | No index between `i` and the match found has the name `str`. |
| Elf64.FindFromLowest | libelf/src/elf64.c:171-179 | The match found from `i` is the lowest matching index. There is none exactly when no index from `i` up matches. |
| Elf64.FindSectionLowest | libelf/src/elf64.c:166-180 | The section found is the lowest-indexed section below `e_shnum` named `str`. None is found exactly when no such section exists. |
| Elf64.FindWithoutNameTable | libelf/src/elf64.c:186-188 | Without a section-name table every name compares as `"<corrupted>"`. The search finds section 0 for that string when there is a section, and nothing for any other string. |
| Elf64.GetSectionNamed | libelf/src/elf64.c:166-180 | `elf64_getSectionNamed` returns the section the search finds for the C string `str`, or NULL. The string is read as `strcmp` reads it, up to its first NUL. It writes the index to `*id` only on success and only when `id` is not NULL; otherwise `*id` is unchanged. |

## Left out

- The controller's implementation (`i2c_slave_write`, `i2c_slave_read`, `bus->slave_init`) is not part of this model. It is the oracle behind `I2cTransport.Bus`. The members that need a bound on what it reports require `ReadsConform`, `ReadsFit`, `WritesFit` or `Perfect`. Nothing beyond that is assumed of it.
- `i2c_extract_address` and `i2c_is_valid_address` are not part of this model; they are the parameter `AddressRules`. The numeric values of the speed, address-size and `kvfmt` enums are not part of it either. The two enums are datatypes with a constructor for any other value.
- Logging (`ZF_LOGD`, `ZF_LOGW`, `ZF_LOGE`) has no effect on results and is left out.
- The fatal checks `ZF_LOGF_IF` and `assert` are preconditions:
  - a bus and a slave are given;
  - `abs(fmt) < 128` for both formats (the `assert` in `_do_kvread` and `_do_kvwrite`);
  - the 7-bit address of `i2c_kvslave_init` is valid.
- `ValidFmt` also requires `fmt != 0`. The source does not check this and leaves it to its callers; with a zero format `_do_kvread` and `_do_kvwrite` divide by zero.
- Overflow of `count * dbytes` (and `+ abytes`) in `int` is undefined behaviour. Callers of the transactions and block transfers must keep it within `INT_MAX`.
- KvSession.WriteRun: its result is `count - remain` as an unbounded integer. When the controller over-reports, C's `int` subtraction can overflow; that is not modelled.
- The scan's probe reads through the bus the scan was given, not through the `sl` record the controller filled in.
- SlaveRegistration.KvSlaveInit: what the controller's `slave_init` writes into the slave record is not modelled. `Bus.SlaveInit` may change the record and promises nothing about it. So the slave's fields are stated as handed to the controller, not after the call.
- Elf64.GetEntryPoint, Elf64.GetNumProgramHeaders, Elf64.GetNumSections, Elf64.GetStringTable, Elf64.GetSection, Elf64.GetSectionAddr, Elf64.GetSectionSize: plain field reads, whose definitions are their whole contracts.
- The ELF struct layouts, the pointer casts and `elf64_getSectionTable` are not part of this model. The image is a header record, a sequence of section records and its bytes.
- The checks inside `#if 0` in `elf64_checkFile` are not compiled and are not modelled.
- Section queries require the indices they read to lie inside the section table (`Indexable`). C would read out of bounds there.
- A section name is read up to its NUL or the end of the image, where C would read past the image. The string searched for is read up to its first NUL, or to its end when it holds none, where C would read past it.
- `CStringRest`, `ReadFrom`, `WriteFrom` and `ScanNext` are one-line steps in their recursions. They exist so that each unfolding exposes one pass, and they model nothing by themselves.
