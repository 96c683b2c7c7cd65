/** The readers of the serialiser: the field-by-field recursion and the flat copies. */
module Deserializer {
  import opened BigEndian
  import opened Layout
  import opened Copying
  import opened FlatReach

  /** `deserialize_scalar`: the wire bytes, reversed if the requested byte order is not the native one. */
  method DeserializeScalar(dest: array<Byte>, off: nat, source: seq<Byte>, at: nat, w: nat, swap: bool)
      returns (next: nat)
    requires at + w <= |source| && off + w <= dest.Length
    modifies dest
    ensures dest[..] == Transfer(old(dest[..]), source, FieldCopies(Scalar(w), off, at, swap), In)
    ensures next == at + w
  {
    ghost var cs := FieldCopies(Scalar(w), off, at, swap);
    for i := 0 to w
      invariant dest[..] == Transfer(old(dest[..]), source, cs[..i], In)
    {
      dest[off + if swap then w - 1 - i else i] := source[at + i];
      assert cs[..i + 1][..i] == cs[..i];
    }
    assert cs[..w] == cs;
    next := at + w;
  }

  /** The field-by-field reader. */
  method DeserializeFields(dest: array<Byte>, off: nat, source: seq<Byte>, at: nat, s: Schema, swap: bool)
      returns (next: nat)
    requires Fits(s) && at + RawSize(s) <= |source| && off + MemSize(s) <= dest.Length
    modifies dest
    ensures dest[..] == Transfer(old(dest[..]), source, FieldCopies(s, off, at, swap), In)
    ensures next == at + RawSize(s)
    decreases s, 0
  {
    match s
    case Scalar(w) => next := DeserializeScalar(dest, off, source, at, w, swap);
    case Array(n, e) => next := DeserializeStaticContainer(dest, off, source, at, n, e, swap);
    case Aggregate(size, ms) => next := DeserializeAggregate(dest, off, source, at, ms, size, swap);
  }

  method DeserializeStaticContainer(
      dest: array<Byte>, off: nat, source: seq<Byte>, at: nat, n: nat, e: Schema, swap: bool)
      returns (next: nat)
    requires Fits(e) && at + Times(n, RawSize(e)) <= |source| && off + Times(n, MemSize(e)) <= dest.Length
    modifies dest
    ensures dest[..] == Transfer(old(dest[..]), source, ArrayCopies(n, e, off, at, swap), In)
    ensures next == at + Times(n, RawSize(e))
    decreases e, 1
  {
    next := at;
    var item := off;
    ghost var before := dest[..];
    for i := 0 to n
      invariant next == at + Times(i, RawSize(e)) && item == off + Times(i, MemSize(e))
      invariant dest[..] == Transfer(before, source, ArrayCopies(i, e, off, at, swap), In)
    {
      TimesMonotone(i + 1, n, RawSize(e));
      TimesMonotone(i + 1, n, MemSize(e));
      ArrayTransferStep(before, source, i, e, off, at, item, next, swap, In);
      next := DeserializeFields(dest, item, source, next, e, swap);
      item := item + MemSize(e);
    }
  }

  method DeserializeAggregate(
      dest: array<Byte>, off: nat, source: seq<Byte>, at: nat, ms: Members, size: nat, swap: bool)
      returns (next: nat)
    requires FitMembers(ms, size) && at + RawSizeOfMembers(ms) <= |source| && off + size <= dest.Length
    modifies dest
    ensures dest[..] == Transfer(old(dest[..]), source, MemberCopies(ms, off, at, swap), In)
    ensures next == at + RawSizeOfMembers(ms)
    decreases ms, 0
  {
    next := at;
    var cur := ms;
    ghost var goal := Transfer(dest[..], source, MemberCopies(ms, off, at, swap), In);
    while cur.Member?
      invariant cur == ms || cur < ms
      invariant FitMembers(cur, size) && next + RawSizeOfMembers(cur) == at + RawSizeOfMembers(ms)
      invariant goal == Transfer(dest[..], source, MemberCopies(cur, off, next, swap), In)
      decreases cur
    {
      ghost var now, at0 := dest[..], next;
      if cur.mark.Plain? {
        next := DeserializeFields(dest, off + cur.offset, source, next, cur.schema, swap);
        MemberTransferred(now, source, cur, off, at0, swap, In, dest[..]);
      } else {
        if cur.mark.Ignored? {
          var raw := SizeOf(cur.schema);
          next := next + raw;
        }
        MemberPassed(cur, off, at0, next, swap);
      }
      cur := cur.rest;
    }
  }

  /** `deserialize_flat`: one `memcpy` per range. `ok` is false if one of them leaves the source; nothing is said
      about the bytes then. */
  method DeserializeFlat(dest: array<Byte>, source: seq<Byte>, at: nat, ranges: seq<ByteRange>, size: nat)
      returns (ok: bool, next: nat)
    requires MemBelow(Expand(ranges), dest.Length)
    modifies dest
    ensures ok <==> WireBelow(Shifted(Expand(ranges), at), |source|)
    ensures ok ==> dest[..] == Transfer(old(dest[..]), source, Shifted(Expand(ranges), at), In)
    ensures next == at + size
  {
    next := at + size;
    ghost var before := dest[..];
    for i := 0 to |ranges|
      invariant WireBelow(Shifted(Expand(ranges[..i]), at), |source|)
      invariant dest[..] == Transfer(before, source, Shifted(Expand(ranges[..i]), at), In)
    {
      var r := ranges[i];
      RangeBelow(ranges, i, at, |source|);
      RangeInMemory(ranges, i, dest.Length);
      if r.count > 0 && r.wire + at + r.count > |source| {
        return false, next;
      }
      ghost var mid := dest[..];
      Memcpy(dest, r.mem, source, r.wire + at, r.count);
      FlatStep(before, source, ranges, i, at, In, mid, dest[..]);
    }
    assert ranges[..|ranges|] == ranges;
    ok := true;
  }

  /** `deserialize`: the native byte order takes the flat copies, the other one the recursion. The flat copies leave
      the source exactly if the type reaches beyond it; for a type that they suit both read what the recursion
      specifies. Either way the raw size is consumed. */
  method Deserialize(dest: array<Byte>, source: seq<Byte>, at: nat, s: Schema, native: Endian, requested: Endian)
      returns (ok: bool, next: nat)
    requires Fits(s) && at + RawSize(s) <= |source| && MemSize(s) <= dest.Length
    modifies dest
    ensures ok <==> requested != native || at + Reach(s) <= |source|
    ensures ok ==>
              dest[..] == Transfer(old(dest[..]), source,
                                   if requested == native then FlatCopies(s, at) else FieldCopies(s, 0, at, true), In)
    ensures FlatOk(s) ==>
              ok && dest[..] == Transfer(old(dest[..]), source, FieldCopies(s, 0, at, requested != native), In)
    ensures next == at + RawSize(s)
  {
    if requested == native {
      var ranges := BuildSequence(s);
      var size := SizeOf(s);
      FlatMemoryBelow(s);
      FlatCopiesBelow(s, at, |source|);
      if FlatOk(s) {
        FlatCopiesAreFields(s, at);
      }
      ok, next := DeserializeFlat(dest, source, at, ranges, size);
    } else {
      next := DeserializeFields(dest, 0, source, at, s, true);
      ok := true;
    }
  }
}
