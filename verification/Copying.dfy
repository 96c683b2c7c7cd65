/** Copying bytes between memory and wire, in either direction, and the round trip. */
module Copying {
  import opened BigEndian
  import opened Layout

  datatype Direction = Out | In

  function To(c: Copy, d: Direction): nat {
    if d.Out? then c.wire else c.mem
  }

  function From(c: Copy, d: Direction): nat {
    if d.Out? then c.mem else c.wire
  }

  predicate InBounds(cs: seq<Copy>, to: nat, from: nat, d: Direction) {
    forall i :: 0 <= i < |cs| ==> To(cs[i], d) < to && From(cs[i], d) < from
  }

  /** `dst` after the copies have been done from `src`, in order. Copies out of bounds count for nothing here;
      `CopiesInBounds` says that there are none. */
  function Transfer(dst: seq<Byte>, src: seq<Byte>, cs: seq<Copy>, d: Direction): (r: seq<Byte>)
    ensures |r| == |dst|
  {
    if cs == [] then dst
    else
      var c, r := cs[|cs| - 1], Transfer(dst, src, cs[..|cs| - 1], d);
      if To(c, d) < |dst| && From(c, d) < |src| then r[To(c, d) := src[From(c, d)]] else r
  }

  lemma {:induction false} TransferConcat(dst: seq<Byte>, src: seq<Byte>, a: seq<Copy>, b: seq<Copy>, d: Direction)
    ensures Transfer(dst, src, a + b, d) == Transfer(Transfer(dst, src, a, d), src, b, d)
  {
    if b == [] {
      assert a + b == a;
    } else {
      var n := |b| - 1;
      TransferConcat(dst, src, a, b[..n], d);
      assert (a + b)[..|a| + n] == a + b[..n];
    }
  }

  /** A place that no copy writes keeps its byte. */
  lemma {:induction false} TransferKeeps(dst: seq<Byte>, src: seq<Byte>, cs: seq<Copy>, d: Direction, p: nat)
    requires p < |dst| && forall i :: 0 <= i < |cs| ==> To(cs[i], d) != p
    ensures Transfer(dst, src, cs, d)[p] == dst[p]
  {
    if cs != [] {
      TransferKeeps(dst, src, cs[..|cs| - 1], d, p);
    }
  }

  /** A place that copies write holds what one of them brought. */
  lemma {:induction false} TransferBrings(dst: seq<Byte>, src: seq<Byte>, cs: seq<Copy>, d: Direction, p: nat)
      returns (i: nat)
    requires InBounds(cs, |dst|, |src|, d) && p < |dst|
    requires exists j :: 0 <= j < |cs| && To(cs[j], d) == p
    ensures i < |cs| && To(cs[i], d) == p && Transfer(dst, src, cs, d)[p] == src[From(cs[i], d)]
  {
    var n := |cs| - 1;
    if To(cs[n], d) == p {
      i := n;
    } else {
      i := TransferBrings(dst, src, cs[..n], d, p);
    }
  }

  // ----- where the copies of a type lie -----

  /** The members of every aggregate lie within it. */
  predicate Fits(s: Schema) {
    match s
    case Scalar(_) => true
    case Array(_, e) => Fits(e)
    case Aggregate(size, ms) => FitMembers(ms, size)
  }

  predicate FitMembers(ms: Members, size: nat) {
    match ms
    case End => true
    case Member(offset, _, s, rest) => Fits(s) && offset + MemSize(s) <= size && FitMembers(rest, size)
  }

  /** The copies stay within the given memory and wire stretches, and move strictly forward on the wire. */
  ghost predicate Confined(cs: seq<Copy>, mem: nat, memEnd: nat, wire: nat, wireEnd: nat) {
    && (forall i :: 0 <= i < |cs| ==> mem <= cs[i].mem < memEnd && wire <= cs[i].wire < wireEnd)
    && (forall i, j :: 0 <= i < j < |cs| ==> cs[i].wire < cs[j].wire)
  }

  /** Two confined stretches, the second behind the first on the wire, make up a confined whole. */
  lemma ConfinedConcat(whole: seq<Copy>, a: seq<Copy>, b: seq<Copy>, loA: nat, hiA: nat, loB: nat, hiB: nat,
                       mem: nat, memEnd: nat, w0: nat, w1: nat, w2: nat)
    requires whole == a + b && Confined(a, loA, hiA, w0, w1) && Confined(b, loB, hiB, w1, w2) && w0 <= w1 <= w2
    requires mem <= loA && mem <= loB && hiA <= memEnd && hiB <= memEnd
    ensures Confined(whole, mem, memEnd, w0, w2)
  {
    forall i | 0 <= i < |whole|
      ensures mem <= whole[i].mem < memEnd && w0 <= whole[i].wire < w2
    {
      if i < |a| {
        assert whole[i] == a[i];
      } else {
        assert whole[i] == b[i - |a|];
      }
    }
  }

  lemma {:induction false} CopiesConfined(s: Schema, mem: nat, wire: nat, swap: bool)
    requires Fits(s)
    ensures Confined(FieldCopies(s, mem, wire, swap), mem, mem + MemSize(s), wire, wire + RawSize(s))
    decreases s, 0
  {
    match s
    case Scalar(_) =>
    case Array(n, e) => ArrayCopiesConfined(n, e, mem, wire, swap);
    case Aggregate(size, ms) => MemberCopiesConfined(ms, size, mem, wire, swap);
  }

  lemma {:induction false} ArrayCopiesConfined(n: nat, e: Schema, mem: nat, wire: nat, swap: bool)
    requires Fits(e)
    ensures Confined(ArrayCopies(n, e, mem, wire, swap),
                     mem, mem + Times(n, MemSize(e)), wire, wire + Times(n, RawSize(e)))
    decreases e, n + 1
  {
    if n > 0 {
      var m, w := mem + Times(n - 1, MemSize(e)), wire + Times(n - 1, RawSize(e));
      var first, last := ArrayCopies(n - 1, e, mem, wire, swap), FieldCopies(e, m, w, swap);
      ArrayCopiesConfined(n - 1, e, mem, wire, swap);
      CopiesConfined(e, m, w, swap);
      ConfinedConcat(ArrayCopies(n, e, mem, wire, swap), first, last, mem, m, m, m + MemSize(e),
                     mem, m + MemSize(e), wire, w, w + RawSize(e));
    }
  }

  lemma {:induction false} MemberCopiesConfined(ms: Members, size: nat, mem: nat, wire: nat, swap: bool)
    requires FitMembers(ms, size)
    ensures Confined(MemberCopies(ms, mem, wire, swap), mem, mem + size, wire, wire + RawSizeOfMembers(ms))
    decreases ms, 0
  {
    if ms.Member? {
      if ms.mark.Skipped? {
        MemberCopiesConfined(ms.rest, size, mem, wire, swap);
      } else {
        var m, w := mem + ms.offset, wire + RawSize(ms.schema);
        CopiesConfined(ms.schema, m, wire, swap);
        MemberCopiesConfined(ms.rest, size, mem, w, swap);
        var own := if ms.mark.Plain? then FieldCopies(ms.schema, m, wire, swap) else [];
        ConfinedConcat(MemberCopies(ms, mem, wire, swap), own, MemberCopies(ms.rest, mem, w, swap),
                       m, m + MemSize(ms.schema), mem, mem + size,
                       mem, mem + size, wire, w, wire + RawSizeOfMembers(ms));
      }
    }
  }

  // ----- round trip -----

  /** Whether byte `p` of a value belongs to a scalar in no ignored or skipped member. */
  predicate Live(s: Schema, p: nat)
    decreases s, 0
  {
    match s
    case Scalar(w) => p < w
    case Array(n, e) => LiveInArray(n, e, p)
    case Aggregate(_, ms) => LiveInMembers(ms, p)
  }

  predicate LiveInArray(n: nat, e: Schema, p: nat)
    decreases e, n + 1
  {
    n > 0 && (LiveInArray(n - 1, e, p) || (p >= Times(n - 1, MemSize(e)) && Live(e, p - Times(n - 1, MemSize(e)))))
  }

  predicate LiveInMembers(ms: Members, p: nat)
    decreases ms, 0
  {
    ms.Member? &&
    ((ms.mark.Plain? && p >= ms.offset && Live(ms.schema, p - ms.offset)) || LiveInMembers(ms.rest, p))
  }

  /** Whether some copy goes to place `p`. */
  ghost predicate Copied(cs: seq<Copy>, d: Direction, p: nat) {
    exists i :: 0 <= i < |cs| && To(cs[i], d) == p
  }

  lemma CopiedConcat(whole: seq<Copy>, a: seq<Copy>, b: seq<Copy>, d: Direction, p: nat)
    requires whole == a + b
    ensures Copied(whole, d, p) <==> Copied(a, d, p) || Copied(b, d, p)
  {
    if Copied(a, d, p) {
      var i :| 0 <= i < |a| && To(a[i], d) == p;
      assert To(whole[i], d) == p;
    }
    if Copied(b, d, p) {
      var i :| 0 <= i < |b| && To(b[i], d) == p;
      assert To(whole[|a| + i], d) == p;
    }
  }

  /** The recursion copies exactly the live bytes, whatever the byte order. */
  lemma {:induction false} CopiesAreLive(s: Schema, mem: nat, wire: nat, swap: bool, p: nat)
    ensures Copied(FieldCopies(s, mem, wire, swap), In, p) <==> p >= mem && Live(s, p - mem)
    decreases s, 0
  {
    match s
    case Scalar(w) =>
      if mem <= p < mem + w {
        var k := if swap then w - 1 - (p - mem) else p - mem;
        assert To(FieldCopies(s, mem, wire, swap)[k], In) == p;
      }
    case Array(n, e) => ArrayCopiesAreLive(n, e, mem, wire, swap, p);
    case Aggregate(_, ms) => MemberCopiesAreLive(ms, mem, wire, swap, p);
  }

  lemma {:induction false} ArrayCopiesAreLive(n: nat, e: Schema, mem: nat, wire: nat, swap: bool, p: nat)
    ensures Copied(ArrayCopies(n, e, mem, wire, swap), In, p) <==> p >= mem && LiveInArray(n, e, p - mem)
    decreases e, n + 1
  {
    if n > 0 {
      var m, w := mem + Times(n - 1, MemSize(e)), wire + Times(n - 1, RawSize(e));
      ArrayCopiesAreLive(n - 1, e, mem, wire, swap, p);
      CopiesAreLive(e, m, w, swap, p);
      CopiedConcat(ArrayCopies(n, e, mem, wire, swap),
                   ArrayCopies(n - 1, e, mem, wire, swap), FieldCopies(e, m, w, swap), In, p);
    }
  }

  lemma {:induction false} MemberCopiesAreLive(ms: Members, mem: nat, wire: nat, swap: bool, p: nat)
    ensures Copied(MemberCopies(ms, mem, wire, swap), In, p) <==> p >= mem && LiveInMembers(ms, p - mem)
    decreases ms, 0
  {
    if ms.Member? {
      if ms.mark.Skipped? {
        MemberCopiesAreLive(ms.rest, mem, wire, swap, p);
      } else {
        var raw := RawSize(ms.schema);
        CopiesAreLive(ms.schema, mem + ms.offset, wire, swap, p);
        MemberCopiesAreLive(ms.rest, mem, wire + raw, swap, p);
        var own := if ms.mark.Plain? then FieldCopies(ms.schema, mem + ms.offset, wire, swap) else [];
        CopiedConcat(MemberCopies(ms, mem, wire, swap), own, MemberCopies(ms.rest, mem, wire + raw, swap), In, p);
      }
    }
  }

  /** Whether wire place `q` of a value carries a transferred byte; the stretches of ignored members do not. */
  predicate WireLive(s: Schema, q: nat)
    decreases s, 0
  {
    match s
    case Scalar(w) => q < w
    case Array(n, e) => WireLiveInArray(n, e, q)
    case Aggregate(_, ms) => WireLiveInMembers(ms, q)
  }

  predicate WireLiveInArray(n: nat, e: Schema, q: nat)
    decreases e, n + 1
  {
    n > 0 &&
    (WireLiveInArray(n - 1, e, q) || (q >= Times(n - 1, RawSize(e)) && WireLive(e, q - Times(n - 1, RawSize(e)))))
  }

  predicate WireLiveInMembers(ms: Members, q: nat)
    decreases ms, 0
  {
    ms.Member? &&
    if ms.mark.Skipped? then WireLiveInMembers(ms.rest, q)
    else
      (ms.mark.Plain? && WireLive(ms.schema, q))
      || (q >= RawSize(ms.schema) && WireLiveInMembers(ms.rest, q - RawSize(ms.schema)))
  }

  /** The recursion fills exactly the live wire places, whatever the byte order. */
  lemma {:induction false} WrittenAreLive(s: Schema, mem: nat, wire: nat, swap: bool, q: nat)
    ensures Copied(FieldCopies(s, mem, wire, swap), Out, q) <==> q >= wire && WireLive(s, q - wire)
    decreases s, 0
  {
    match s
    case Scalar(w) =>
      if wire <= q < wire + w {
        assert To(FieldCopies(s, mem, wire, swap)[q - wire], Out) == q;
      }
    case Array(n, e) => ArrayWrittenAreLive(n, e, mem, wire, swap, q);
    case Aggregate(_, ms) => MemberWrittenAreLive(ms, mem, wire, swap, q);
  }

  lemma {:induction false} ArrayWrittenAreLive(n: nat, e: Schema, mem: nat, wire: nat, swap: bool, q: nat)
    ensures Copied(ArrayCopies(n, e, mem, wire, swap), Out, q) <==> q >= wire && WireLiveInArray(n, e, q - wire)
    decreases e, n + 1
  {
    if n > 0 {
      var m, w := mem + Times(n - 1, MemSize(e)), wire + Times(n - 1, RawSize(e));
      ArrayWrittenAreLive(n - 1, e, mem, wire, swap, q);
      WrittenAreLive(e, m, w, swap, q);
      CopiedConcat(ArrayCopies(n, e, mem, wire, swap),
                   ArrayCopies(n - 1, e, mem, wire, swap), FieldCopies(e, m, w, swap), Out, q);
    }
  }

  lemma {:induction false} MemberWrittenAreLive(ms: Members, mem: nat, wire: nat, swap: bool, q: nat)
    ensures Copied(MemberCopies(ms, mem, wire, swap), Out, q) <==> q >= wire && WireLiveInMembers(ms, q - wire)
    decreases ms, 0
  {
    if ms.Member? {
      if ms.mark.Skipped? {
        MemberWrittenAreLive(ms.rest, mem, wire, swap, q);
      } else {
        var raw := RawSize(ms.schema);
        WrittenAreLive(ms.schema, mem + ms.offset, wire, swap, q);
        MemberWrittenAreLive(ms.rest, mem, wire + raw, swap, q);
        var own := if ms.mark.Plain? then FieldCopies(ms.schema, mem + ms.offset, wire, swap) else [];
        CopiedConcat(MemberCopies(ms, mem, wire, swap), own, MemberCopies(ms.rest, mem, wire + raw, swap), Out, q);
      }
    }
  }

  ghost predicate WiresDistinct(cs: seq<Copy>) {
    forall i, j :: 0 <= i < j < |cs| ==> cs[i].wire < cs[j].wire
  }

  lemma WrittenAt(x: seq<Byte>, wire: seq<Byte>, cs: seq<Copy>, i: nat)
    requires InBounds(cs, |wire|, |x|, Out) && WiresDistinct(cs) && i < |cs|
    ensures Transfer(wire, x, cs, Out)[cs[i].wire] == x[cs[i].mem]
  {
    assert To(cs[i], Out) == cs[i].wire;
    var j := TransferBrings(wire, x, cs, Out, cs[i].wire);
    assert i == j;
  }

  lemma ReadBack(x: seq<Byte>, mem: seq<Byte>, wire: seq<Byte>, cs: seq<Copy>, p: nat)
    requires |x| == |mem| && InBounds(cs, |wire|, |x|, Out) && InBounds(cs, |mem|, |wire|, In) && p < |mem|
    requires WiresDistinct(cs)
    ensures Transfer(mem, Transfer(wire, x, cs, Out), cs, In)[p] == if Copied(cs, In, p) then x[p] else mem[p]
  {
    var written := Transfer(wire, x, cs, Out);
    if Copied(cs, In, p) {
      var i := TransferBrings(mem, written, cs, In, p);
      WrittenAt(x, wire, cs, i);
    } else {
      TransferKeeps(mem, written, cs, In, p);
    }
  }

  lemma CopiesInBounds(s: Schema, mem: nat, wire: nat, start: nat, swap: bool)
    requires Fits(s) && MemSize(s) <= mem && start + RawSize(s) <= wire
    ensures var cs := FieldCopies(s, 0, start, swap);
            InBounds(cs, wire, mem, Out) && InBounds(cs, mem, wire, In) && WiresDistinct(cs)
    ensures forall i :: 0 <= i < |FieldCopies(s, 0, start, swap)| ==>
              start <= FieldCopies(s, 0, start, swap)[i].wire < start + RawSize(s)
  {
    CopiesConfined(s, 0, start, swap);
  }

  /** Writing leaves every wire byte alone that carries none of the value's: those before and behind the value's
      stretch, and inside it those of ignored members. */
  lemma WriteKeepsRest(s: Schema, x: seq<Byte>, wire: seq<Byte>, start: nat, swap: bool, q: nat)
    requires Fits(s) && MemSize(s) <= |x| && start + RawSize(s) <= |wire| && q < |wire|
    requires !(start <= q && WireLive(s, q - start))
    ensures InBounds(FieldCopies(s, 0, start, swap), |wire|, |x|, Out)
    ensures Transfer(wire, x, FieldCopies(s, 0, start, swap), Out)[q] == wire[q]
  {
    CopiesInBounds(s, |x|, |wire|, start, swap);
    WrittenAreLive(s, 0, start, swap, q);
    TransferKeeps(wire, x, FieldCopies(s, 0, start, swap), Out, q);
  }

  /** The live wire places of a value lie in its stretch. */
  lemma WireLiveInside(s: Schema, q: nat)
    requires Fits(s) && WireLive(s, q)
    ensures q < RawSize(s)
  {
    WrittenAreLive(s, 0, 0, false, q);
    CopiesConfined(s, 0, 0, false);
  }

  /** Reading, from any wire bytes at all, leaves every ignored or skipped byte and all padding alone. */
  lemma ReadKeepsRest(s: Schema, mem: seq<Byte>, wire: seq<Byte>, start: nat, swap: bool, p: nat)
    requires Fits(s) && MemSize(s) <= |mem| && start + RawSize(s) <= |wire| && p < |mem| && !Live(s, p)
    ensures InBounds(FieldCopies(s, 0, start, swap), |mem|, |wire|, In)
    ensures Transfer(mem, wire, FieldCopies(s, 0, start, swap), In)[p] == mem[p]
  {
    CopiesInBounds(s, |mem|, |wire|, start, swap);
    CopiesAreLive(s, 0, start, swap, p);
    TransferKeeps(mem, wire, FieldCopies(s, 0, start, swap), In, p);
  }

  /** Writing then reading back, in either byte order, restores every live byte of a value and leaves every other
      byte of the destination alone. */
  lemma RoundTrip(s: Schema, x: seq<Byte>, mem: seq<Byte>, wire: seq<Byte>, start: nat, swap: bool, p: nat)
    requires Fits(s) && |x| == |mem| >= MemSize(s) && start + RawSize(s) <= |wire| && p < |mem|
    ensures var cs := FieldCopies(s, 0, start, swap);
            && InBounds(cs, |wire|, |x|, Out) && InBounds(cs, |mem|, |wire|, In)
            && Transfer(mem, Transfer(wire, x, cs, Out), cs, In)[p] == if Live(s, p) then x[p] else mem[p]
  {
    CopiesInBounds(s, |x|, |wire|, start, swap);
    ReadBack(x, mem, wire, FieldCopies(s, 0, start, swap), p);
    CopiesAreLive(s, 0, start, swap, p);
  }

  lemma ScalarCopies(w: nat, off: nat, at: nat, swap: bool, to: nat, from: nat)
    requires off + w <= from && at + w <= to
    ensures var cs := FieldCopies(Scalar(w), off, at, swap);
            && |cs| == w && InBounds(cs, to, from, Out) && WiresDistinct(cs)
            && forall k :: 0 <= k < w ==> cs[k] == Copy(off + (if swap then w - 1 - k else k), at + k)
  {
  }

  /** Byte `k` of a `w`-byte scalar is where it should be on the wire. */
  predicate ByteOnWire(written: seq<Byte>, x: seq<Byte>, off: nat, at: nat, w: nat, swap: bool, k: nat)
    requires off + w <= |x| && at + w <= |written| && k < w
  {
    written[at + k] == x[off + if swap then w - 1 - k else k]
  }

  lemma ScalarByteOnWire(x: seq<Byte>, wire: seq<Byte>, off: nat, at: nat, w: nat, swap: bool, k: nat)
    requires off + w <= |x| && at + w <= |wire| && k < w
    ensures ByteOnWire(Transfer(wire, x, FieldCopies(Scalar(w), off, at, swap), Out), x, off, at, w, swap, k)
  {
    ScalarCopies(w, off, at, swap, |wire|, |x|);
    WrittenAt(x, wire, FieldCopies(Scalar(w), off, at, swap), k);
  }

  lemma OrderedBytes(written: seq<Byte>, x: seq<Byte>, off: nat, at: nat, w: nat, swap: bool)
    requires off + w <= |x| && at + w <= |written|
    requires forall k: nat :: k < w ==> ByteOnWire(written, x, off, at, w, swap, k)
    ensures written[at..at + w] == if swap then Reversed(x[off..off + w]) else x[off..off + w]
  {
    var bytes, out := x[off..off + w], written[at..at + w];
    var expected := if swap then Reversed(bytes) else bytes;
    forall k: nat | k < w
      ensures out[k] == expected[k]
    {
      assert ByteOnWire(written, x, off, at, w, swap, k);
      OrderedByte(bytes, swap, k);
    }
  }

  /** A scalar goes out as its bytes, in reverse order under `swap`. */
  lemma ScalarOnWire(x: seq<Byte>, wire: seq<Byte>, off: nat, at: nat, w: nat, swap: bool)
    requires off + w <= |x| && at + w <= |wire|
    ensures Transfer(wire, x, FieldCopies(Scalar(w), off, at, swap), Out)[at..at + w] ==
            if swap then Reversed(x[off..off + w]) else x[off..off + w]
  {
    var written := Transfer(wire, x, FieldCopies(Scalar(w), off, at, swap), Out);
    forall k: nat | k < w
      ensures ByteOnWire(written, x, off, at, w, swap, k)
    {
      ScalarByteOnWire(x, wire, off, at, w, swap, k);
    }
    OrderedBytes(written, x, off, at, w, swap);
  }

  lemma OrderedByte(bytes: seq<Byte>, swap: bool, k: nat)
    requires k < |bytes|
    ensures (if swap then Reversed(bytes) else bytes)[k] == bytes[if swap then |bytes| - 1 - k else k]
  {
    ReversedAt(bytes, k);
  }

  /** Serialised as big-endian, a scalar's wire bytes have the value the scalar has on this machine. */
  lemma BigEndianScalarValue(native: Endian, x: seq<Byte>, wire: seq<Byte>, off: nat, at: nat, w: nat)
    requires off + w <= |x| && at + w <= |wire|
    ensures Value(Transfer(wire, x, FieldCopies(Scalar(w), off, at, native != Big), Out)[at..at + w]) ==
            NativeLoad(native, x[off..off + w])
  {
    ScalarOnWire(x, wire, off, at, w, native != Big);
    LittleValueOfReversed(Reversed(x[off..off + w]));
    ReversedTwice(x[off..off + w]);
  }

  // ----- reading one member -----

  predicate Disjoint(s: Schema) {
    match s
    case Scalar(_) => true
    case Array(_, e) => Disjoint(e)
    case Aggregate(_, ms) => DisjointMembers(ms)
  }

  /** No two transferred members overlap in memory. */
  predicate DisjointMembers(ms: Members) {
    match ms
    case End => true
    case Member(offset, mark, s, rest) =>
      (mark.Plain? ==> Disjoint(s) && Apart(offset, MemSize(s), rest)) && DisjointMembers(rest)
  }

  predicate Apart(o: nat, size: nat, ms: Members) {
    match ms
    case End => true
    case Member(offset, mark, s, rest) =>
      (mark.Plain? ==> o + size <= offset || offset + MemSize(s) <= o) && Apart(o, size, rest)
  }

  ghost predicate MemsDistinct(cs: seq<Copy>) {
    forall i, j :: 0 <= i < j < |cs| ==> cs[i].mem != cs[j].mem
  }

  ghost predicate Avoids(cs: seq<Copy>, lo: nat, hi: nat) {
    forall i :: 0 <= i < |cs| ==> !(lo <= cs[i].mem < hi)
  }

  lemma DistinctConcat(a: seq<Copy>, b: seq<Copy>, lo: nat, hi: nat, w0: nat, w1: nat)
    requires MemsDistinct(a) && MemsDistinct(b) && Confined(a, lo, hi, w0, w1) && Avoids(b, lo, hi)
    ensures MemsDistinct(a + b)
  {
  }

  lemma {:induction false} ApartAvoids(o: nat, size: nat, ms: Members, limit: nat, mem: nat, wire: nat, swap: bool)
    requires Apart(o, size, ms) && FitMembers(ms, limit)
    ensures Avoids(MemberCopies(ms, mem, wire, swap), mem + o, mem + o + size)
    decreases ms
  {
    if ms.Member? {
      if ms.mark.Skipped? {
        ApartAvoids(o, size, ms.rest, limit, mem, wire, swap);
      } else {
        CopiesConfined(ms.schema, mem + ms.offset, wire, swap);
        ApartAvoids(o, size, ms.rest, limit, mem, wire + RawSize(ms.schema), swap);
      }
    }
  }

  lemma {:induction false} CopiesDistinct(s: Schema, mem: nat, wire: nat, swap: bool)
    requires Fits(s) && Disjoint(s)
    ensures MemsDistinct(FieldCopies(s, mem, wire, swap))
    decreases s, 0
  {
    match s
    case Scalar(_) =>
    case Array(n, e) => ArrayCopiesDistinct(n, e, mem, wire, swap);
    case Aggregate(size, ms) => MemberCopiesDistinct(ms, size, mem, wire, swap);
  }

  lemma {:induction false} ArrayCopiesDistinct(n: nat, e: Schema, mem: nat, wire: nat, swap: bool)
    requires Fits(e) && Disjoint(e)
    ensures MemsDistinct(ArrayCopies(n, e, mem, wire, swap))
    decreases e, n + 1
  {
    if n > 0 {
      var m, w := mem + Times(n - 1, MemSize(e)), wire + Times(n - 1, RawSize(e));
      var first, last := ArrayCopies(n - 1, e, mem, wire, swap), FieldCopies(e, m, w, swap);
      ArrayCopiesDistinct(n - 1, e, mem, wire, swap);
      ArrayCopiesConfined(n - 1, e, mem, wire, swap);
      CopiesDistinct(e, m, w, swap);
      CopiesConfined(e, m, w, swap);
      DistinctConcat(first, last, mem, m, wire, w);
    }
  }

  lemma {:induction false} MemberCopiesDistinct(ms: Members, limit: nat, mem: nat, wire: nat, swap: bool)
    requires FitMembers(ms, limit) && DisjointMembers(ms)
    ensures MemsDistinct(MemberCopies(ms, mem, wire, swap))
    decreases ms, 0
  {
    if ms.Member? {
      if ms.mark.Skipped? {
        MemberCopiesDistinct(ms.rest, limit, mem, wire, swap);
      } else {
        var raw := RawSize(ms.schema);
        MemberCopiesDistinct(ms.rest, limit, mem, wire + raw, swap);
        if ms.mark.Plain? {
          CopiesDistinct(ms.schema, mem + ms.offset, wire, swap);
          FirstMemberDistinct(ms, limit, mem, wire, swap);
        }
      }
    }
  }

  lemma FirstMemberDistinct(ms: Members, limit: nat, mem: nat, wire: nat, swap: bool)
    requires ms.Member? && ms.mark.Plain? && FitMembers(ms, limit) && Apart(ms.offset, MemSize(ms.schema), ms.rest)
    requires MemsDistinct(FieldCopies(ms.schema, mem + ms.offset, wire, swap))
    requires MemsDistinct(MemberCopies(ms.rest, mem, wire + RawSize(ms.schema), swap))
    ensures MemsDistinct(MemberCopies(ms, mem, wire, swap))
  {
    var m, w := mem + ms.offset, wire + RawSize(ms.schema);
    CopiesConfined(ms.schema, m, wire, swap);
    ApartAvoids(ms.offset, MemSize(ms.schema), ms.rest, limit, mem, w, swap);
    DistinctConcat(FieldCopies(ms.schema, m, wire, swap), MemberCopies(ms.rest, mem, w, swap),
                   m, m + MemSize(ms.schema), wire, w);
  }

  lemma ReadAt(mem: seq<Byte>, wire: seq<Byte>, cs: seq<Copy>, i: nat)
    requires InBounds(cs, |mem|, |wire|, In) && MemsDistinct(cs) && i < |cs|
    ensures Transfer(mem, wire, cs, In)[cs[i].mem] == wire[cs[i].wire]
  {
    assert To(cs[i], In) == cs[i].mem;
    var j := TransferBrings(mem, wire, cs, In, cs[i].mem);
    assert i == j;
  }

  /** A type whose bytes lie in memory in the order of the wire. */
  ghost predicate Contiguous(s: Schema) {
    forall mem: nat, wire: nat :: FieldCopies(s, mem, wire, false) == Bytes(ByteRange(mem, wire, RawSize(s)))
  }

  function Nth(ms: Members, j: nat): Members {
    if j == 0 || ms.End? then ms else Nth(ms.rest, j - 1)
  }

  /** Where the `j`-th member begins on the wire. */
  function WireOffset(ms: Members, j: nat): nat {
    if j == 0 || ms.End? then 0
    else (if ms.mark.Skipped? then 0 else RawSize(ms.schema)) + WireOffset(ms.rest, j - 1)
  }

  /** The copy of byte `k` of the `j`-th member is among the copies of the aggregate. */
  lemma {:induction false} MemberByteCopied(ms: Members, wire: nat, j: nat, k: nat) returns (i: nat)
    requires Nth(ms, j).Member? && Nth(ms, j).mark.Plain? && Contiguous(Nth(ms, j).schema)
    requires k < RawSize(Nth(ms, j).schema)
    ensures i < |MemberCopies(ms, 0, wire, false)|
    ensures MemberCopies(ms, 0, wire, false)[i] == Copy(Nth(ms, j).offset + k, wire + WireOffset(ms, j) + k)
    decreases ms
  {
    if j == 0 {
      i := k;
      assert FieldCopies(ms.schema, 0 + ms.offset, wire, false)[k] == Copy(ms.offset + k, wire + k);
    } else if ms.mark.Skipped? {
      i := MemberByteCopied(ms.rest, wire, j - 1, k);
    } else {
      i := MemberByteCopied(ms.rest, wire + RawSize(ms.schema), j - 1, k);
      if ms.mark.Plain? {
        i := i + |FieldCopies(ms.schema, 0 + ms.offset, wire, false)|;
      }
    }
  }

  /** Reading an aggregate of disjoint members puts into each contiguous member the wire bytes at that member's
      place, wherever in memory the compiler has laid the member out. */
  lemma MemberRead(ms: Members, size: nat, mem: seq<Byte>, wire: seq<Byte>, cs: seq<Copy>, j: nat, k: nat)
    requires DisjointMembers(ms) && FitMembers(ms, size) && size <= |mem| && RawSizeOfMembers(ms) <= |wire|
    requires cs == FieldCopies(Aggregate(size, ms), 0, 0, false)
    requires Nth(ms, j).Member? && Nth(ms, j).mark.Plain? && Contiguous(Nth(ms, j).schema)
    requires k < RawSize(Nth(ms, j).schema)
    ensures Nth(ms, j).offset + k < |mem| && WireOffset(ms, j) + k < |wire|
    ensures Transfer(mem, wire, cs, In)[Nth(ms, j).offset + k] == wire[WireOffset(ms, j) + k]
  {
    var i := MemberByteCopied(ms, 0, j, k);
    ReadableAggregate(Aggregate(size, ms), |mem|, |wire|);
    ReadFrom(mem, wire, cs, i, Nth(ms, j).offset + k, WireOffset(ms, j) + k);
  }

  lemma ReadableAggregate(s: Schema, mem: nat, wire: nat)
    requires Fits(s) && Disjoint(s) && MemSize(s) <= mem && RawSize(s) <= wire
    ensures InBounds(FieldCopies(s, 0, 0, false), mem, wire, In) && MemsDistinct(FieldCopies(s, 0, 0, false))
  {
    CopiesInBounds(s, mem, wire, 0, false);
    CopiesDistinct(s, 0, 0, false);
  }

  lemma ReadFrom(mem: seq<Byte>, wire: seq<Byte>, cs: seq<Copy>, i: nat, off: nat, at: nat)
    requires InBounds(cs, |mem|, |wire|, In) && MemsDistinct(cs) && i < |cs| && cs[i] == Copy(off, at)
    ensures off < |mem| && at < |wire| && Transfer(mem, wire, cs, In)[off] == wire[at]
  {
    assert To(cs[i], In) == off && From(cs[i], In) == at;
    ReadAt(mem, wire, cs, i);
  }

  // ----- one step of a walk -----

  lemma {:induction false} TimesMonotone(i: nat, n: nat, x: nat)
    requires i <= n
    ensures Times(i, x) <= Times(n, x)
  {
    if i < n {
      TimesMonotone(i, n - 1, x);
    }
  }

  /** One more array element. */
  lemma ArrayTransferStep(dst: seq<Byte>, src: seq<Byte>, i: nat, e: Schema, mem: nat, wire: nat,
                          item: nat, next: nat, swap: bool, d: Direction)
    requires item == mem + Times(i, MemSize(e)) && next == wire + Times(i, RawSize(e))
    ensures Transfer(dst, src, ArrayCopies(i + 1, e, mem, wire, swap), d) ==
            Transfer(Transfer(dst, src, ArrayCopies(i, e, mem, wire, swap), d),
                     src, FieldCopies(e, item, next, swap), d)
  {
    var before, own := ArrayCopies(i, e, mem, wire, swap), FieldCopies(e, item, next, swap);
    assert ArrayCopies(i + 1, e, mem, wire, swap) == before + own;
    TransferConcat(dst, src, before, own, d);
  }

  /** One member less to go, with nothing to transfer. */
  lemma MemberPassed(ms: Members, mem: nat, wire: nat, next: nat, swap: bool)
    requires ms.Member? && !ms.mark.Plain? && next == wire + if ms.mark.Skipped? then 0 else RawSize(ms.schema)
    ensures MemberCopies(ms, mem, wire, swap) == MemberCopies(ms.rest, mem, next, swap)
  {
    var rest := MemberCopies(ms.rest, mem, next, swap);
    assert ms.mark.Ignored? ==> MemberCopies(ms, mem, wire, swap) == [] + rest;
  }

  /** One member less to go, after its own copies. */
  lemma MemberTransferred(dst: seq<Byte>, src: seq<Byte>, ms: Members, mem: nat, wire: nat, swap: bool, d: Direction,
                          after: seq<Byte>)
    requires ms.Member? && ms.mark.Plain?
    requires after == Transfer(dst, src, FieldCopies(ms.schema, mem + ms.offset, wire, swap), d)
    ensures Transfer(dst, src, MemberCopies(ms, mem, wire, swap), d) ==
            Transfer(after, src, MemberCopies(ms.rest, mem, wire + RawSize(ms.schema), swap), d)
  {
    var own := FieldCopies(ms.schema, mem + ms.offset, wire, swap);
    var others := MemberCopies(ms.rest, mem, wire + RawSize(ms.schema), swap);
    assert MemberCopies(ms, mem, wire, swap) == own + others;
    TransferConcat(dst, src, own, others, d);
  }

  // ----- the flat copies -----

  /** The copies of a span that begins at wire place `start`. */
  function Shifted(cs: seq<Copy>, start: nat): seq<Copy> {
    seq(|cs|, i requires 0 <= i < |cs| => Copy(cs[i].mem, cs[i].wire + start))
  }

  lemma ShiftedFields(s: Schema, start: nat, swap: bool)
    ensures Shifted(FieldCopies(s, 0, 0, swap), start) == FieldCopies(s, 0, start, swap)
  {
    CopyCount(s, 0, 0, 0, swap);
    CopyCount(s, 0, 0, start, swap);
    forall i | 0 <= i < LiveBytes(s)
      ensures Shifted(FieldCopies(s, 0, 0, swap), start)[i] == FieldCopies(s, 0, start, swap)[i]
    {
      WireMoves(s, 0, 0, start, i, swap);
    }
  }

  /** `memcpy`. */
  method Memcpy(dest: array<Byte>, to: nat, source: seq<Byte>, from: nat, count: nat)
    requires count > 0 ==> to + count <= dest.Length && from + count <= |source|
    modifies dest
    ensures forall p :: 0 <= p < dest.Length ==>
              dest[p] == if to <= p < to + count then source[from + (p - to)] else old(dest[p])
  {
    for i := 0 to count
      invariant forall p :: 0 <= p < dest.Length ==>
                  dest[p] == if to <= p < to + i then source[from + (p - to)] else old(dest[p])
    {
      dest[to + i] := source[from + i];
    }
  }

  /** A `memcpy` performs the single-byte copies of its range. */
  lemma {:induction false} MemcpyIsTransfer(dst: seq<Byte>, src: seq<Byte>, r: ByteRange, d: Direction, p: nat)
    requires p < |dst|
    requires r.count > 0 ==> From(Copy(r.mem, r.wire), d) + r.count <= |src|
    ensures var to, from := To(Copy(r.mem, r.wire), d), From(Copy(r.mem, r.wire), d);
            Transfer(dst, src, Bytes(r), d)[p] == if to <= p < to + r.count then src[from + (p - to)] else dst[p]
    decreases r.count
  {
    if r.count > 0 {
      var shorter := r.(count := r.count - 1);
      MemcpyIsTransfer(dst, src, shorter, d, p);
      assert Bytes(r)[..r.count - 1] == Bytes(shorter);
    }
  }

  lemma RangeTransferStep(dst: seq<Byte>, src: seq<Byte>, ranges: seq<ByteRange>, i: nat, start: nat, d: Direction)
    requires i < |ranges|
    ensures var r := ranges[i];
            Transfer(dst, src, Shifted(Expand(ranges[..i + 1]), start), d) ==
            Transfer(Transfer(dst, src, Shifted(Expand(ranges[..i]), start), d), src,
                     Bytes(r.(wire := r.wire + start)), d)
  {
    var r := ranges[i];
    var before, own := Shifted(Expand(ranges[..i]), start), Bytes(r.(wire := r.wire + start));
    assert ranges[..i + 1][..i] == ranges[..i];
    assert Expand(ranges[..i + 1]) == Expand(ranges[..i]) + Bytes(r);
    assert Shifted(Expand(ranges[..i + 1]), start) == before + own;
    TransferConcat(dst, src, before, own, d);
  }

  /** One `memcpy` more. */
  lemma FlatStep(start: seq<Byte>, src: seq<Byte>, ranges: seq<ByteRange>, i: nat, at: nat, d: Direction,
                 mid: seq<Byte>, after: seq<Byte>)
    requires i < |ranges| && mid == Transfer(start, src, Shifted(Expand(ranges[..i]), at), d) && |after| == |mid|
    requires var r := ranges[i];
             var to, from := To(Copy(r.mem, r.wire + at), d), From(Copy(r.mem, r.wire + at), d);
             && (r.count > 0 ==> from + r.count <= |src|)
             && forall p :: 0 <= p < |mid| ==>
                  after[p] == if to <= p < to + r.count then src[from + (p - to)] else mid[p]
    ensures after == Transfer(start, src, Shifted(Expand(ranges[..i + 1]), at), d)
  {
    var r := ranges[i].(wire := ranges[i].wire + at);
    RangeTransferStep(start, src, ranges, i, at, d);
    forall p | 0 <= p < |mid| ensures after[p] == Transfer(mid, src, Bytes(r), d)[p] {
      MemcpyIsTransfer(mid, src, r, d, p);
    }
  }
}
