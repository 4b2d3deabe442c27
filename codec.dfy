/** Byte-order codec of the register-based I2C layer: how a register number and
    fixed-width data elements are laid out in the scratch buffer. A format
    `fmt` (the C `enum kvfmt`) gives the element width as its magnitude and the
    byte order as its sign: positive keeps the natural order (least significant
    byte first for a register number), negative mirrors it. */
module KvCodec {
  import opened Words

  /** BUFFER_SIZE: capacity of the scratch buffer of one transaction. */
  const BUFFER_SIZE: int := 128

  /** The C macro ABS. */
  function Abs(x: int): nat
  {
    if x < 0 then -x else x
  }

  /** A format the transaction layer accepts: a non-zero width that fits the buffer. */
  predicate ValidFmt(fmt: int)
  {
    fmt != 0 && Abs(fmt) < BUFFER_SIZE
  }

  /** Index that byte `i` of a `w`-byte element occupies once laid out with `fmt`
      (`idx` in both fill loops). */
  function Place(i: int, w: int, fmt: int): int
  {
    if fmt > 0 then i else (w - 1) - i
  }

  /** The element of width |fmt| that starts at byte `at` of `s`, laid out with
      `fmt`: byte `i` of the element is stored at index `Place(i)`. */
  function Elem(s: seq<Byte>, at: nat, fmt: int): (r: seq<Byte>)
    requires at + Abs(fmt) <= |s|
    ensures |r| == Abs(fmt)
  {
    seq(Abs(fmt), k requires 0 <= k < Abs(fmt) => s[at + Place(k, Abs(fmt), fmt)])
  }

  /** Laying an element out twice with the same format gives it back. */
  lemma ElemTwice(s: seq<Byte>, at: nat, fmt: int)
    requires at + Abs(fmt) <= |s|
    ensures Elem(Elem(s, at, fmt), 0, fmt) == s[at .. at + Abs(fmt)]
  {
    var w := Abs(fmt);
    var e := Elem(s, at, fmt);
    forall k | 0 <= k < w
      ensures Elem(e, 0, fmt)[k] == s[at + k]
    {
      assert Elem(e, 0, fmt)[k] == e[Place(k, w, fmt)];
    }
  }

  /** `v >> 8*i`: a value shifted right by one byte `i` times, as the register
      loop shifts its `uint64_t reg`. */
  function ShiftBytes(v: nat, i: nat): nat
  {
    if i == 0 then v else ShiftBytes(v / 256, i - 1)
  }

  /** The `n` low-order bytes of `v`, least significant first. */
  function LeBytes(v: nat, n: nat): (r: seq<Byte>)
    ensures |r| == n
  {
    if n == 0 then [] else [v % 256] + LeBytes(v / 256, n - 1)
  }

  /** The number whose little-endian bytes are `s`. */
  function LeValue(s: seq<Byte>): nat
  {
    if s == [] then 0 else s[0] + 256 * LeValue(s[1..])
  }

  function Pow256(n: nat): (r: nat)
    ensures r > 0
  {
    if n == 0 then 1 else 256 * Pow256(n - 1)
  }

  /** The bytes `_fill_reg` writes for register number `reg`. */
  function RegBytes(reg: nat, fmt: int): seq<Byte>
  {
    Elem(LeBytes(reg, Abs(fmt)), 0, fmt)
  }

  /** Bytes taken by `count` elements of width `w`, that is `count * w`
      (SpanIsProduct), spelt out by recursion so that layout proofs stay linear. */
  function Span(count: nat, w: nat): nat
  {
    if count == 0 then 0 else Span(count - 1, w) + w
  }

  /** The first `count` elements of width |fmt| of `s`, each laid out with `fmt`. */
  function SwapElems(s: seq<Byte>, fmt: int, count: nat): (r: seq<Byte>)
    requires Span(count, Abs(fmt)) <= |s|
    ensures |r| == Span(count, Abs(fmt))
  {
    if count == 0 then [] else SwapElems(s, fmt, count - 1) + Elem(s, Span(count - 1, Abs(fmt)), fmt)
  }

  // ---------------------------------------------------------------------------
  // Register numbers

  lemma {:induction false} LeBytesAt(v: nat, n: nat, i: nat)
    requires i < n
    ensures LeBytes(v, n)[i] == ShiftBytes(v, i) % 256
  {
    if i > 0 {
      LeBytesAt(v / 256, n - 1, i - 1);
    }
  }

  /** Byte `i` of the register number, `(reg >> 8*i) & 0xff`, lands at index `i`
      for a positive format and at index `|fmt|-1-i` for a negative one. */
  lemma RegBytesAt(reg: nat, fmt: int, i: nat)
    requires i < Abs(fmt)
    ensures |RegBytes(reg, fmt)| == Abs(fmt)
    ensures 0 <= Place(i, Abs(fmt), fmt) < Abs(fmt)
    ensures RegBytes(reg, fmt)[Place(i, Abs(fmt), fmt)] == ShiftBytes(reg, i) % 256
  {
    var w := Abs(fmt);
    LeBytesAt(reg, w, i);
    assert Place(Place(i, w, fmt), w, fmt) == i;
  }

  /** Decoding the little-endian bytes gives back the value modulo 256^n:
      the bytes of `v` above the n-th are dropped. */
  lemma {:induction false} LeBytesValue(v: nat, n: nat)
    ensures LeValue(LeBytes(v, n)) == v % Pow256(n)
  {
    if n == 0 {
    } else {
      var rest := LeBytes(v / 256, n - 1);
      assert LeBytes(v, n)[1..] == rest;
      LeBytesValue(v / 256, n - 1);
      var p := Pow256(n - 1);
      var hi := (v / 256) / p;
      assert v / 256 == hi * p + (v / 256) % p;
      assert v == (hi * p + (v / 256) % p) * 256 + v % 256;
      assert v == hi * (256 * p) + (v % 256 + 256 * ((v / 256) % p));
      DivModUnique(v, 256 * p, hi, v % 256 + 256 * ((v / 256) % p));
    }
  }

  /** Encoding the value of a byte string gives the byte string back. */
  lemma {:induction false} LeValueBytes(s: seq<Byte>)
    ensures LeBytes(LeValue(s), |s|) == s
  {
    if s != [] {
      var v := LeValue(s);
      DivModUnique(v, 256, LeValue(s[1..]), s[0]);
      LeValueBytes(s[1..]);
    }
  }

  /** `_fill_reg` keeps only the low |fmt| bytes of the register number: reading
      the written bytes back in the same order yields `reg mod 256^|fmt|`, and any
      two numbers that agree there are written identically. */
  lemma RegBytesDropsHighBytes(reg: nat, fmt: int)
    ensures LeValue(Elem(RegBytes(reg, fmt), 0, fmt)) == reg % Pow256(Abs(fmt))
    ensures RegBytes(reg % Pow256(Abs(fmt)), fmt) == RegBytes(reg, fmt)
  {
    var w := Abs(fmt);
    var le := LeBytes(reg, w);
    ElemTwice(le, 0, fmt);
    assert le[0 .. w] == le;
    LeBytesValue(reg, w);
    LeValueBytes(le);
  }

  // ---------------------------------------------------------------------------
  // Data elements

  lemma {:induction false} SpanIsProduct(count: nat, w: nat)
    ensures Span(count, w) == count * w
  {
    if count > 0 {
      SpanIsProduct(count - 1, w);
      assert (count - 1) * w + w == count * w;
    }
  }

  /** `x / w` counts the whole elements of width `w` in `x` bytes. */
  lemma SpanDiv(x: nat, w: nat)
    requires 0 < w
    ensures Span(x / w, w) <= x < Span(x / w + 1, w)
  {
    SpanIsProduct(x / w, w);
    SpanIsProduct(x / w + 1, w);
    DivFloor(x, w, x / w);
    DivFloor(x, w, x / w + 1);
  }

  /** No more than `n` whole elements fit in at most `n` elements' bytes. */
  lemma SpanDivLe(x: int, n: nat, w: nat)
    requires 0 < w && x <= Span(n, w)
    ensures x / w <= n
  {
    SpanIsProduct(n + 1, w);
    DivFloor(x, w, n + 1);
  }

  /** Spans of consecutive runs of elements add up. */
  lemma {:induction false} SpanAdd(a: nat, b: nat, w: nat)
    ensures Span(a + b, w) == Span(a, w) + Span(b, w)
  {
    if b > 0 {
      SpanAdd(a, b - 1, w);
    }
  }

  lemma {:induction false} SpanMono(a: nat, b: nat, w: nat)
    requires a <= b
    ensures Span(a, w) <= Span(b, w)
    decreases b
  {
    if a < b {
      SpanMono(a, b - 1, w);
    }
  }

  lemma TakeAppend(a: seq<Byte>, b: seq<Byte>, n: int)
    requires 0 <= n <= |a|
    ensures (a + b)[..n] == a[..n]
  {
  }

  lemma TakeAll(a: seq<Byte>)
    ensures a[..|a|] == a
  {
  }

  lemma {:induction false} SwapElemsPrefix(s: seq<Byte>, fmt: int, count: nat, m: nat)
    requires Span(count, Abs(fmt)) <= |s| && m <= count
    ensures Span(m, Abs(fmt)) <= Span(count, Abs(fmt))
    ensures SwapElems(s, fmt, count)[..Span(m, Abs(fmt))] == SwapElems(s, fmt, m)
    decreases count
  {
    var w := Abs(fmt);
    SpanMono(m, count, w);
    if m < count {
      SpanMono(m, count - 1, w);
      SwapElemsPrefix(s, fmt, count - 1, m);
      TakeAppend(SwapElems(s, fmt, count - 1), Elem(s, Span(count - 1, w), fmt), Span(m, w));
    } else {
      TakeAll(SwapElems(s, fmt, count));
    }
  }

  /** Element `j` of the output, its bytes `j*|fmt| .. (j+1)*|fmt|`, is element
      `j` of the input laid out with `fmt`: unchanged for a positive format, its
      bytes reversed for a negative one. */
  lemma SwapElemsAt(s: seq<Byte>, fmt: int, count: nat, j: nat)
    requires Span(count, Abs(fmt)) <= |s| && j < count
    ensures Span(j + 1, Abs(fmt)) <= Span(count, Abs(fmt))
    ensures SwapElems(s, fmt, count)[Span(j, Abs(fmt)) .. Span(j + 1, Abs(fmt))] == Elem(s, Span(j, Abs(fmt)), fmt)
  {
    var w := Abs(fmt);
    SwapElemsPrefix(s, fmt, count, j + 1);
    var r := SwapElems(s, fmt, count);
    assert r[Span(j, w) .. Span(j + 1, w)] == r[..Span(j + 1, w)][Span(j, w) ..];
  }

  /** SwapElems depends only on the first `count` elements of its input. */
  lemma {:induction false} SwapElemsLocal(s: seq<Byte>, t: seq<Byte>, fmt: int, count: nat)
    requires Span(count, Abs(fmt)) <= |s| && Span(count, Abs(fmt)) <= |t|
    requires s[..Span(count, Abs(fmt))] == t[..Span(count, Abs(fmt))]
    ensures SwapElems(s, fmt, count) == SwapElems(t, fmt, count)
  {
    var w := Abs(fmt);
    if count > 0 {
      var lo, hi := Span(count - 1, w), Span(count, w);
      assert s[..lo] == s[..hi][..lo];
      assert t[..lo] == t[..hi][..lo];
      SwapElemsLocal(s, t, fmt, count - 1);
      forall k | 0 <= k < w
        ensures s[lo + Place(k, w, fmt)] == t[lo + Place(k, w, fmt)]
      {
        assert s[lo + Place(k, w, fmt)] == s[..hi][lo + Place(k, w, fmt)];
        assert t[lo + Place(k, w, fmt)] == t[..hi][lo + Place(k, w, fmt)];
      }
      assert Elem(s, lo, fmt) == Elem(t, lo, fmt);
    }
  }

  /** Bytes past the first `count` elements do not matter. */
  lemma SwapElemsOfPrefix(p: seq<Byte>, rest: seq<Byte>, fmt: int, count: nat)
    requires Span(count, Abs(fmt)) <= |p|
    ensures SwapElems(p + rest, fmt, count) == SwapElems(p, fmt, count)
  {
    var w := Span(count, Abs(fmt));
    assert (p + rest)[..w] == p[..w];
    SwapElemsLocal(p + rest, p, fmt, count);
  }

  /** Laying out twice with the same format is the identity, so the decode of the
      read path inverts the encode of the write path. */
  lemma {:induction false} SwapElemsTwice(s: seq<Byte>, fmt: int, count: nat)
    requires Span(count, Abs(fmt)) <= |s|
    ensures SwapElems(SwapElems(s, fmt, count), fmt, count) == s[..Span(count, Abs(fmt))]
  {
    if count > 0 {
      var w := Abs(fmt);
      var lo, hi := Span(count - 1, w), Span(count, w);
      var t := SwapElems(s, fmt, count);
      var a := SwapElems(s, fmt, count - 1);
      var e := Elem(s, lo, fmt);
      assert t == a + e;
      TakeAppend(a, e, lo);
      TakeAll(a);
      SwapElemsLocal(t, a, fmt, count - 1);
      SwapElemsTwice(s, fmt, count - 1);
      assert Elem(t, lo, fmt) == Elem(e, 0, fmt) by {
        forall k | 0 <= k < w
          ensures t[lo + Place(k, w, fmt)] == e[Place(k, w, fmt)]
        {
        }
      }
      ElemTwice(s, lo, fmt);
      assert s[..hi] == s[..lo] + s[lo .. hi];
    }
  }

  // ---------------------------------------------------------------------------
  // The two fill routines

  /** `_fill_reg`: writes the |fmt| bytes of `reg` at the start of `buf` and
      returns how many it wrote. */
  method FillReg(buf: array<Byte>, reg: U64, fmt: int) returns (n: int)
    requires ValidFmt(fmt) && Abs(fmt) <= buf.Length
    modifies buf
    ensures n == Abs(fmt)
    ensures buf[..] == RegBytes(reg, fmt) + old(buf[n..])
  {
    var bytes := Abs(fmt);
    ghost var le := LeBytes(reg, bytes);
    var v: nat := reg;
    var i := 0;
    while i < bytes
      invariant 0 <= i <= bytes
      invariant le[i..] == LeBytes(v, bytes - i)
      invariant forall q :: 0 <= q < bytes && Place(q, bytes, fmt) < i ==> buf[q] == le[Place(q, bytes, fmt)]
      invariant forall q :: 0 <= q < buf.Length && !(q < bytes && Place(q, bytes, fmt) < i) ==> buf[q] == old(buf[q])
    {
      var idx := if fmt > 0 then i else (bytes - 1) - i;
      assert Place(idx, bytes, fmt) == i;
      assert le[i] == v % 256 && le[i + 1..] == LeBytes(v / 256, bytes - i - 1) by {
        assert le[i + 1..] == le[i..][1..];
      }
      buf[idx] := v % 256;
      i, v := i + 1, v / 256;
    }
    n := i;
    assert buf[..bytes] == RegBytes(reg, fmt);
    assert buf[..] == buf[..bytes] + buf[bytes..];
  }

  /** `_fill_data`: copies `count` elements of width |fmt| from `data` (from
      index `doff`) into `buf` (from index `boff`), laying each out with `fmt`;
      nothing else in `buf` changes. */
  method FillData(buf: array<Byte>, boff: nat, data: array<Byte>, doff: nat, fmt: int, count: nat)
    requires buf != data && ValidFmt(fmt)
    requires boff + Span(count, Abs(fmt)) <= buf.Length && doff + Span(count, Abs(fmt)) <= data.Length
    modifies buf
    ensures buf[..] == old(buf[..boff]) + SwapElems(data[doff..], fmt, count) + old(buf[boff + Span(count, Abs(fmt))..])
  {
    var bytes := Abs(fmt);
    ghost var orig := buf[..];
    var j := 0;
    var dp, bp := doff, boff;
    while j < count
      invariant 0 <= j <= count
      invariant bp - boff == dp - doff == Span(j, bytes) <= Span(count, bytes)
      invariant buf[..] == orig[..boff] + SwapElems(data[doff..], fmt, j) + orig[bp..]
    {
      SpanMono(j + 1, count, bytes);
      ghost var before := buf[..];
      FillElement(buf, bp, data, dp, fmt);
      FillStep(before, buf[..], orig, data[..], boff, bp, doff, dp, fmt, j);
      j, dp, bp := j + 1, dp + bytes, bp + bytes;
    }
    assert old(buf[..boff]) == orig[..boff] && old(buf[boff + Span(count, bytes)..]) == orig[bp..];
  }

  /** One pass of the outer loop of `_fill_data` extends the laid-out prefix by one element. */
  lemma FillStep(before: seq<Byte>, after: seq<Byte>, orig: seq<Byte>, data: seq<Byte>,
                 boff: nat, bp: nat, doff: nat, dp: nat, fmt: int, j: nat)
    requires bp - boff == dp - doff == Span(j, Abs(fmt))
    requires bp + Abs(fmt) <= |orig| && dp + Abs(fmt) <= |data|
    requires before == orig[..boff] + SwapElems(data[doff..], fmt, j) + orig[bp..]
    requires after == before[..bp] + Elem(data, dp, fmt) + before[bp + Abs(fmt)..]
    ensures after == orig[..boff] + SwapElems(data[doff..], fmt, j + 1) + orig[bp + Abs(fmt)..]
  {
    var w, src := Abs(fmt), data[doff..];
    var done := SwapElems(src, fmt, j);
    var elem := Elem(data, dp, fmt);
    assert Elem(src, Span(j, w), fmt) == elem;
    assert SwapElems(src, fmt, j + 1) == done + elem;
    Splice(before, after, orig, boff, bp, w, done, elem);
  }

  /** Sequence bookkeeping of one outer pass: writing `elem` right after the
      laid-out prefix `done` extends that prefix. */
  lemma Splice(before: seq<Byte>, after: seq<Byte>, orig: seq<Byte>, boff: nat, bp: nat, w: nat,
               done: seq<Byte>, elem: seq<Byte>)
    requires boff <= bp && bp + w <= |orig| && |done| == bp - boff && |elem| == w
    requires before == orig[..boff] + done + orig[bp..]
    requires after == before[..bp] + elem + before[bp + w..]
    ensures after == orig[..boff] + (done + elem) + orig[bp + w..]
  {
    assert before[..bp] == orig[..boff] + done;
    assert before[bp + w..] == orig[bp + w..];
  }

  /** The inner loop of `_fill_data`: one element of width |fmt| from
      `data[dp..]` into `buf[bp..]`, its bytes placed according to `fmt`. */
  method FillElement(buf: array<Byte>, bp: nat, data: array<Byte>, dp: nat, fmt: int)
    requires buf != data
    requires bp + Abs(fmt) <= buf.Length && dp + Abs(fmt) <= data.Length
    modifies buf
    ensures buf[..] == old(buf[..bp]) + Elem(data[..], dp, fmt) + old(buf[bp + Abs(fmt)..])
  {
    var bytes := Abs(fmt);
    var i := 0;
    while i < bytes
      invariant 0 <= i <= bytes
      invariant forall q :: bp <= q < bp + bytes && Place(q - bp, bytes, fmt) < i ==> buf[q] == data[dp + Place(q - bp, bytes, fmt)]
      invariant forall q :: 0 <= q < buf.Length && !(bp <= q < bp + bytes && Place(q - bp, bytes, fmt) < i) ==> buf[q] == old(buf[q])
    {
      var idx := if fmt > 0 then i else (bytes - 1) - i;
      assert Place(idx, bytes, fmt) == i;
      buf[bp + idx] := data[dp + i];
      i := i + 1;
    }
    LaidOut(buf[..], old(buf[..]), bp, data[..], dp, fmt);
  }

  /** A buffer that holds, at each index `bp + q` of the element's window, byte
      `Place(q)` of the element at `dp` of `data`, and is otherwise unchanged,
      holds that element laid out with `fmt`. */
  lemma LaidOut(after: seq<Byte>, before: seq<Byte>, bp: nat, data: seq<Byte>, dp: nat, fmt: int)
    requires |after| == |before| && bp + Abs(fmt) <= |before| && dp + Abs(fmt) <= |data|
    requires forall q :: bp <= q < bp + Abs(fmt) && Place(q - bp, Abs(fmt), fmt) < Abs(fmt) ==>
               after[q] == data[dp + Place(q - bp, Abs(fmt), fmt)]
    requires forall q :: 0 <= q < |before| && !(bp <= q < bp + Abs(fmt) && Place(q - bp, Abs(fmt), fmt) < Abs(fmt)) ==>
               after[q] == before[q]
    ensures after == before[..bp] + Elem(data, dp, fmt) + before[bp + Abs(fmt)..]
  {
    var w := Abs(fmt);
    forall q | 0 <= q < w
      ensures after[bp + q] == Elem(data, dp, fmt)[q]
    {
      assert bp <= bp + q < bp + w && Place(q, w, fmt) < w;
    }
    assert after[..bp] == before[..bp];
    assert after[bp .. bp + w] == Elem(data, dp, fmt);
    assert after[bp + w..] == before[bp + w..];
    Split3(after, bp, bp + w);
  }

  lemma Split3(s: seq<Byte>, i: int, j: int)
    requires 0 <= i <= j <= |s|
    ensures s == s[..i] + s[i..j] + s[j..]
  {
  }
}
