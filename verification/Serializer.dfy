/** The writers of the serialiser: the field-by-field recursion and the flat copies. */
module Serializer {
  import opened BigEndian
  import opened Layout
  import opened Copying
  import opened FlatReach

  /** `serialize_scalar`: the value's bytes, reversed if the requested byte order is not the native one. */
  method SerializeScalar(dest: array<Byte>, at: nat, source: seq<Byte>, off: nat, w: nat, swap: bool)
      returns (next: nat)
    requires at + w <= dest.Length && off + w <= |source|
    modifies dest
    ensures dest[..] == Transfer(old(dest[..]), source, FieldCopies(Scalar(w), off, at, swap), Out)
    ensures next == at + w
  {
    ghost var cs := FieldCopies(Scalar(w), off, at, swap);
    for i := 0 to w
      invariant dest[..] == Transfer(old(dest[..]), source, cs[..i], Out)
    {
      dest[at + i] := source[off + if swap then w - 1 - i else i];
      assert cs[..i + 1][..i] == cs[..i];
    }
    assert cs[..w] == cs;
    next := at + w;
  }

  /** The field-by-field writer. */
  method SerializeFields(dest: array<Byte>, at: nat, source: seq<Byte>, off: nat, s: Schema, swap: bool)
      returns (next: nat)
    requires Fits(s) && at + RawSize(s) <= dest.Length && off + MemSize(s) <= |source|
    modifies dest
    ensures dest[..] == Transfer(old(dest[..]), source, FieldCopies(s, off, at, swap), Out)
    ensures next == at + RawSize(s)
    decreases s, 0
  {
    match s
    case Scalar(w) => next := SerializeScalar(dest, at, source, off, w, swap);
    case Array(n, e) => next := SerializeStaticContainer(dest, at, source, off, n, e, swap);
    case Aggregate(size, ms) => next := SerializeAggregate(dest, at, source, off, ms, size, swap);
  }

  method SerializeStaticContainer(
      dest: array<Byte>, at: nat, source: seq<Byte>, off: nat, n: nat, e: Schema, swap: bool)
      returns (next: nat)
    requires Fits(e) && at + Times(n, RawSize(e)) <= dest.Length && off + Times(n, MemSize(e)) <= |source|
    modifies dest
    ensures dest[..] == Transfer(old(dest[..]), source, ArrayCopies(n, e, off, at, swap), Out)
    ensures next == at + Times(n, RawSize(e))
    decreases e, 1
  {
    next := at;
    var item := off;
    ghost var before := dest[..];
    for i := 0 to n
      invariant next == at + Times(i, RawSize(e)) && item == off + Times(i, MemSize(e))
      invariant dest[..] == Transfer(before, source, ArrayCopies(i, e, off, at, swap), Out)
    {
      TimesMonotone(i + 1, n, RawSize(e));
      TimesMonotone(i + 1, n, MemSize(e));
      ArrayTransferStep(before, source, i, e, off, at, item, next, swap, Out);
      next := SerializeFields(dest, next, source, item, e, swap);
      item := item + MemSize(e);
    }
  }

  method SerializeAggregate(
      dest: array<Byte>, at: nat, source: seq<Byte>, off: nat, ms: Members, size: nat, swap: bool)
      returns (next: nat)
    requires FitMembers(ms, size) && at + RawSizeOfMembers(ms) <= dest.Length && off + size <= |source|
    modifies dest
    ensures dest[..] == Transfer(old(dest[..]), source, MemberCopies(ms, off, at, swap), Out)
    ensures next == at + RawSizeOfMembers(ms)
    decreases ms, 0
  {
    next := at;
    var cur := ms;
    ghost var goal := Transfer(dest[..], source, MemberCopies(ms, off, at, swap), Out);
    while cur.Member?
      invariant cur == ms || cur < ms
      invariant FitMembers(cur, size) && next + RawSizeOfMembers(cur) == at + RawSizeOfMembers(ms)
      invariant goal == Transfer(dest[..], source, MemberCopies(cur, off, next, swap), Out)
      decreases cur
    {
      ghost var now, at0 := dest[..], next;
      if cur.mark.Plain? {
        next := SerializeFields(dest, next, source, off + cur.offset, cur.schema, swap);
        MemberTransferred(now, source, cur, off, at0, swap, Out, dest[..]);
      } else {
        if cur.mark.Ignored? {
          var raw := SizeOf(cur.schema);
          next := next + raw;
        }
        MemberPassed(cur, off, at0, next, swap);
      }
      cur := cur.rest;
    }
  }

  /** `serialize_flat`: one `memcpy` per range. `ok` is false if one of them leaves the destination; nothing is
      said about the bytes then. */
  method SerializeFlat(dest: array<Byte>, at: nat, source: seq<Byte>, ranges: seq<ByteRange>, size: nat)
      returns (ok: bool, next: nat)
    requires MemBelow(Expand(ranges), |source|)
    modifies dest
    ensures ok <==> WireBelow(Shifted(Expand(ranges), at), dest.Length)
    ensures ok ==> dest[..] == Transfer(old(dest[..]), source, Shifted(Expand(ranges), at), Out)
    ensures next == at + size
  {
    next := at + size;
    ghost var before := dest[..];
    for i := 0 to |ranges|
      invariant WireBelow(Shifted(Expand(ranges[..i]), at), dest.Length)
      invariant dest[..] == Transfer(before, source, Shifted(Expand(ranges[..i]), at), Out)
    {
      var r := ranges[i];
      RangeBelow(ranges, i, at, dest.Length);
      RangeInMemory(ranges, i, |source|);
      if r.count > 0 && r.wire + at + r.count > dest.Length {
        return false, next;
      }
      ghost var mid := dest[..];
      Memcpy(dest, r.wire + at, source, r.mem, r.count);
      FlatStep(before, source, ranges, i, at, Out, mid, dest[..]);
    }
    assert ranges[..|ranges|] == ranges;
    ok := true;
  }

  /** `serialize`: the native byte order takes the flat copies, the other one the recursion. The flat copies leave
      the destination exactly if the type reaches beyond it; for a type that they suit both write what the
      recursion specifies. */
  method Serialize(dest: array<Byte>, at: nat, source: seq<Byte>, s: Schema, native: Endian, requested: Endian)
      returns (ok: bool, next: nat)
    requires Fits(s) && at + RawSize(s) <= dest.Length && MemSize(s) <= |source|
    modifies dest
    ensures ok <==> requested != native || at + Reach(s) <= dest.Length
    ensures ok ==>
              dest[..] == Transfer(old(dest[..]), source,
                                   if requested == native then FlatCopies(s, at) else FieldCopies(s, 0, at, true), Out)
    ensures FlatOk(s) ==>
              ok && dest[..] == Transfer(old(dest[..]), source, FieldCopies(s, 0, at, requested != native), Out)
    ensures next == at + RawSize(s)
  {
    if requested == native {
      var ranges := BuildSequence(s);
      var size := SizeOf(s);
      FlatMemoryBelow(s);
      FlatCopiesBelow(s, at, dest.Length);
      if FlatOk(s) {
        FlatCopiesAreFields(s, at);
      }
      ok, next := SerializeFlat(dest, at, source, ranges, size);
    } else {
      next := SerializeFields(dest, at, source, 0, s, true);
      ok := true;
    }
  }
}
