/** The ITCH message structs as the serialiser sees them, and the proof that reading a body into one of them and
    converting its fields gives the message the specification describes. Offsets are those of the usual 64-bit
    layout; any other layout with disjoint members would do. */
module MessageLayouts {
  import opened BigEndian
  import opened OrderBooks
  import opened Itch
  import opened Layout
  import opened Copying

  /** `BigEndian<T>` for a `w`-byte `T`. */
  function Wrapped(w: nat): Schema {
    Aggregate(w, Member(0, Plain, Scalar(w), End))
  }

  function Chars(n: nat): Schema {
    Array(n, Scalar(1))
  }

  function HeaderMembers(): Members {
    Member(0, Plain, Scalar(1), Member(2, Plain, Wrapped(2),
    Member(4, Ignored, Wrapped(2), Member(6, Ignored, Aggregate(6, Member(0, Plain, Chars(6), End)), End))))
  }

  function MessageMembers(t: Byte): Members
    requires IsOrderType(t)
  {
    if t == ADD then
      Member(0, Plain, Wrapped(8), Member(8, Plain, Scalar(1), Member(12, Plain, Wrapped(4),
      Member(16, Plain, Chars(8), Member(24, Plain, Wrapped(4), End)))))
    else if t == ADD_MPID then
      Member(0, Plain, Wrapped(8), Member(8, Plain, Scalar(1), Member(12, Plain, Wrapped(4),
      Member(16, Plain, Chars(8), Member(24, Plain, Wrapped(4), Member(28, Ignored, Chars(4), End))))))
    else if t == EXECUTED then
      Member(0, Plain, Wrapped(8), Member(8, Plain, Wrapped(4), Member(16, Ignored, Wrapped(8), End)))
    else if t == EXECUTED_WITH_PRICE then
      Member(0, Plain, Wrapped(8), Member(8, Plain, Wrapped(4), Member(16, Ignored, Wrapped(8),
      Member(24, Ignored, Scalar(1), Member(28, Ignored, Wrapped(4), End)))))
    else if t == CANCEL then
      Member(0, Plain, Wrapped(8), Member(8, Plain, Wrapped(4), End))
    else if t == DELETE then
      Member(0, Plain, Wrapped(8), End)
    else
      Member(0, Plain, Wrapped(8), Member(8, Plain, Wrapped(8), Member(16, Plain, Wrapped(4),
      Member(20, Plain, Wrapped(4), End))))
  }

  function ObjectSize(t: Byte): nat
    requires IsOrderType(t)
  {
    if t == ADD || t == ADD_MPID || t == EXECUTED_WITH_PRICE then 32
    else if t == EXECUTED || t == REPLACE then 24
    else if t == CANCEL then 16
    else 8
  }

  function MessageSchema(t: Byte): Schema
    requires IsOrderType(t)
  {
    Aggregate(ObjectSize(t), MessageMembers(t))
  }

  // ----- contiguous field types -----

  lemma ScalarContiguous(w: nat)
    ensures Contiguous(Scalar(w))
  {
  }

  lemma WrappedCopies(w: nat, mem: nat, wire: nat)
    ensures FieldCopies(Wrapped(w), mem, wire, false) == Bytes(ByteRange(mem, wire, w))
  {
    var one := Member(0, Plain, Scalar(w), End);
    assert MemberCopies(one, mem, wire, false) == FieldCopies(Scalar(w), mem, wire, false) + [];
    assert FieldCopies(Scalar(w), mem, wire, false) == Bytes(ByteRange(mem, wire, w));
  }

  lemma WrappedContiguous(w: nat)
    ensures Contiguous(Wrapped(w)) && RawSize(Wrapped(w)) == w
  {
    assert RawSizeOfMembers(Member(0, Plain, Scalar(w), End)) == w;
    forall mem: nat, wire: nat
      ensures FieldCopies(Wrapped(w), mem, wire, false) == Bytes(ByteRange(mem, wire, RawSize(Wrapped(w))))
    {
      WrappedCopies(w, mem, wire);
    }
  }

  lemma {:induction false} CharsCopies(n: nat, mem: nat, wire: nat)
    ensures ArrayCopies(n, Scalar(1), mem, wire, false) == Bytes(ByteRange(mem, wire, n))
  {
    if n > 0 {
      CharsCopies(n - 1, mem, wire);
      TimesIsProduct(n - 1, 1);
    }
  }

  lemma CharsContiguous(n: nat)
    ensures Contiguous(Chars(n))
  {
    TimesIsProduct(n, 1);
    forall mem: nat, wire: nat
      ensures FieldCopies(Chars(n), mem, wire, false) == Bytes(ByteRange(mem, wire, RawSize(Chars(n))))
    {
      CharsCopies(n, mem, wire);
    }
  }

  lemma CharsSize(n: nat)
    ensures RawSize(Chars(n)) == MemSize(Chars(n)) == n
  {
    TimesIsProduct(n, 1);
  }

  // ----- the message types -----

  ghost predicate WellShaped(s: Schema, raw: nat) {
    RawSize(s) == raw && Fits(s) && Disjoint(s) && FlatOk(s)
  }

  lemma AddShape()
    ensures WellShaped(MessageSchema(ADD), BodySize(ADD))
  {
    CharsSize(8);
  }

  lemma AddMpidShape()
    ensures WellShaped(MessageSchema(ADD_MPID), BodySize(ADD_MPID))
  {
    CharsSize(8);
    CharsSize(4);
  }

  lemma ReduceShape()
    ensures WellShaped(MessageSchema(EXECUTED), BodySize(EXECUTED))
    ensures WellShaped(MessageSchema(EXECUTED_WITH_PRICE), BodySize(EXECUTED_WITH_PRICE))
    ensures WellShaped(MessageSchema(CANCEL), BodySize(CANCEL))
  {
  }

  /** Every message struct takes as many wire bytes as its body has, and is fit for the flat copies. */
  lemma MessageShape(t: Byte)
    requires IsOrderType(t)
    ensures WellShaped(MessageSchema(t), BodySize(t))
  {
    if t == ADD {
      AddShape();
    } else if t == ADD_MPID {
      AddMpidShape();
    } else if t != DELETE && t != REPLACE {
      ReduceShape();
    }
  }

  lemma HeaderShape()
    ensures WellShaped(Aggregate(12, HeaderMembers()), HEADER_BYTES)
  {
    CharsSize(6);
  }

  /** The bytes of the `j`-th member, after reading. */
  lemma FieldRead(ms: Members, size: nat, mem: seq<Byte>, wire: seq<Byte>, cs: seq<Copy>, j: nat,
                  off: nat, at: nat, w: nat)
    requires DisjointMembers(ms) && FitMembers(ms, size) && size <= |mem| && RawSizeOfMembers(ms) <= |wire|
    requires cs == FieldCopies(Aggregate(size, ms), 0, 0, false)
    requires Nth(ms, j).Member? && Nth(ms, j).mark.Plain? && Contiguous(Nth(ms, j).schema)
    requires off == Nth(ms, j).offset && at == WireOffset(ms, j) && 0 < w == RawSize(Nth(ms, j).schema)
    ensures off + w <= |mem| && at + w <= |wire|
    ensures Transfer(mem, wire, cs, In)[off..off + w] == wire[at..at + w]
  {
    MemberRead(ms, size, mem, wire, cs, j, w - 1);
    var got, expected := Transfer(mem, wire, cs, In)[off..off + w], wire[at..at + w];
    forall k | 0 <= k < w
      ensures got[k] == expected[k]
    {
      MemberRead(ms, size, mem, wire, cs, j, k);
    }
  }

  /** A big-endian field of an object, converted. */
  function Field(native: Endian, obj: seq<Byte>, off: nat, w: nat): nat
    requires off + w <= |obj|
  {
    FromBigEndian(native, NativeLoad(native, obj[off..off + w]), w)
  }

  /** What the handler takes from a message struct. */
  function FromObject(native: Endian, t: Byte, obj: seq<Byte>): Message
    requires IsOrderType(t) && |obj| == ObjectSize(t)
  {
    var ref := Field(native, obj, 0, 8);
    if t == ADD || t == ADD_MPID then
      Add(ref, if obj[8] == BUY then Buy else Sell, Field(native, obj, 12, 4), obj[16..24], Field(native, obj, 24, 4))
    else if t == EXECUTED || t == EXECUTED_WITH_PRICE || t == CANCEL then
      Reduce(ref, Field(native, obj, 8, 4))
    else if t == DELETE then
      Delete(ref)
    else
      Replace(ref, Field(native, obj, 8, 8), Field(native, obj, 16, 4), Field(native, obj, 20, 4))
  }

  /** Member `j` is a transferred one of type `s` at the given places in memory and on the wire. */
  predicate Placed(ms: Members, j: nat, s: Schema, off: nat, at: nat) {
    Nth(ms, j).Member? && Nth(ms, j).mark.Plain? && Nth(ms, j).schema == s && Nth(ms, j).offset == off &&
    WireOffset(ms, j) == at
  }

  /** The `j`-th field, read and converted, is the base-256 value of its wire bytes. */
  lemma WrappedFieldRead(native: Endian, ms: Members, size: nat, mem: seq<Byte>, wire: seq<Byte>, cs: seq<Copy>,
                         j: nat, off: nat, at: nat, w: nat)
    requires DisjointMembers(ms) && FitMembers(ms, size) && size <= |mem| && RawSizeOfMembers(ms) <= |wire|
    requires cs == FieldCopies(Aggregate(size, ms), 0, 0, false)
    requires Placed(ms, j, Wrapped(w), off, at) && w > 0
    ensures off + w <= |mem| && at + w <= |wire|
    ensures Field(native, Transfer(mem, wire, cs, In), off, w) == Value(wire[at..at + w])
  {
    WrappedContiguous(w);
    FieldRead(ms, size, mem, wire, cs, j, off, at, w);
    BigEndianReadsWireValue(native, wire[at..at + w]);
  }

  /** The members of a message struct, ready to be read. */
  ghost predicate Readable(t: Byte, ms: Members, size: nat)
    requires IsOrderType(t)
  {
    && DisjointMembers(ms) && FitMembers(ms, size) && RawSizeOfMembers(ms) == BodySize(t) && size == ObjectSize(t)
    && Placed(ms, 0, Wrapped(8), 0, 0)
  }

  lemma MessageReadable(t: Byte)
    requires IsOrderType(t)
    ensures Readable(t, MessageMembers(t), ObjectSize(t))
  {
    MessageShape(t);
  }

  lemma ReferenceRead(native: Endian, t: Byte, ms: Members, size: nat, mem: seq<Byte>, body: seq<Byte>, cs: seq<Copy>)
    requires IsOrderType(t) && Readable(t, ms, size) && |mem| == size && |body| == BodySize(t)
    requires cs == FieldCopies(Aggregate(size, ms), 0, 0, false)
    ensures size >= 8 && BodySize(t) >= 8
    ensures Field(native, Transfer(mem, body, cs, In), 0, 8) == Value(body[0..8])
  {
    WrappedFieldRead(native, ms, size, mem, body, cs, 0, 0, 0, 8);
  }

  /** The places of the two add messages. */
  predicate AddPlaced(ms: Members) {
    Placed(ms, 1, Scalar(1), 8, 8) && Placed(ms, 2, Wrapped(4), 12, 9) &&
    Placed(ms, 3, Chars(8), 16, 13) && Placed(ms, 4, Wrapped(4), 24, 21)
  }

  lemma AddMembersPlaced(t: Byte)
    requires t == ADD || t == ADD_MPID
    ensures AddPlaced(MessageMembers(t))
  {
    CharsSize(8);
    var ms := MessageMembers(t);
    assert Nth(ms, 1) == ms.rest && Nth(ms, 2) == ms.rest.rest;
    assert Nth(ms, 3) == ms.rest.rest.rest && Nth(ms, 4) == ms.rest.rest.rest.rest;
  }

  lemma AddFieldsRead(native: Endian, t: Byte, ms: Members, size: nat, mem: seq<Byte>, body: seq<Byte>, cs: seq<Copy>)
    requires (t == ADD || t == ADD_MPID) && Readable(t, ms, size) && AddPlaced(ms)
    requires |mem| == size && |body| == BodySize(t) && cs == FieldCopies(Aggregate(size, ms), 0, 0, false)
    ensures var r := Transfer(mem, body, cs, In);
            && r[8] == body[8] && Field(native, r, 12, 4) == Value(body[9..13])
            && r[16..24] == body[13..21] && Field(native, r, 24, 4) == Value(body[21..25])
  {
    ScalarContiguous(1);
    MemberRead(ms, size, mem, body, cs, 1, 0);
    CharsSize(8);
    CharsContiguous(8);
    FieldRead(ms, size, mem, body, cs, 3, 16, 13, 8);
    WrappedFieldRead(native, ms, size, mem, body, cs, 2, 12, 9, 4);
    WrappedFieldRead(native, ms, size, mem, body, cs, 4, 24, 21, 4);
  }

  lemma ReduceFieldsRead(native: Endian, t: Byte, ms: Members, size: nat, mem: seq<Byte>, body: seq<Byte>,
                         cs: seq<Copy>)
    requires (t == EXECUTED || t == EXECUTED_WITH_PRICE || t == CANCEL) && Readable(t, ms, size)
    requires Placed(ms, 1, Wrapped(4), 8, 8)
    requires |mem| == size && |body| == BodySize(t) && cs == FieldCopies(Aggregate(size, ms), 0, 0, false)
    ensures Field(native, Transfer(mem, body, cs, In), 8, 4) == Value(body[8..12])
  {
    WrappedFieldRead(native, ms, size, mem, body, cs, 1, 8, 8, 4);
  }

  lemma ReplaceFieldsRead(native: Endian, ms: Members, size: nat, mem: seq<Byte>, body: seq<Byte>, cs: seq<Copy>)
    requires Readable(REPLACE, ms, size)
    requires Placed(ms, 1, Wrapped(8), 8, 8) && Placed(ms, 2, Wrapped(4), 16, 16) && Placed(ms, 3, Wrapped(4), 20, 20)
    requires |mem| == size && |body| == BodySize(REPLACE) && cs == FieldCopies(Aggregate(size, ms), 0, 0, false)
    ensures var r := Transfer(mem, body, cs, In);
            && Field(native, r, 8, 8) == Value(body[8..16])
            && Field(native, r, 16, 4) == Value(body[16..20]) && Field(native, r, 20, 4) == Value(body[20..24])
  {
    WrappedFieldRead(native, ms, size, mem, body, cs, 1, 8, 8, 8);
    WrappedFieldRead(native, ms, size, mem, body, cs, 2, 16, 16, 4);
    WrappedFieldRead(native, ms, size, mem, body, cs, 3, 20, 20, 4);
  }

  lemma ReplaceMembersPlaced()
    ensures var ms := MessageMembers(REPLACE);
            Placed(ms, 1, Wrapped(8), 8, 8) && Placed(ms, 2, Wrapped(4), 16, 16) && Placed(ms, 3, Wrapped(4), 20, 20)
  {
    var ms := MessageMembers(REPLACE);
    assert Nth(ms, 1) == ms.rest && Nth(ms, 2) == ms.rest.rest && Nth(ms, 3) == ms.rest.rest.rest;
  }

  predicate FieldsPlaced(t: Byte, ms: Members)
    requires IsOrderType(t)
  {
    && (t == ADD || t == ADD_MPID ==> AddPlaced(ms))
    && (t == EXECUTED || t == EXECUTED_WITH_PRICE || t == CANCEL ==> Placed(ms, 1, Wrapped(4), 8, 8))
    && (t == REPLACE ==>
          Placed(ms, 1, Wrapped(8), 8, 8) && Placed(ms, 2, Wrapped(4), 16, 16) && Placed(ms, 3, Wrapped(4), 20, 20))
  }

  lemma FieldsArePlaced(t: Byte)
    requires IsOrderType(t)
    ensures FieldsPlaced(t, MessageMembers(t))
  {
    if t == ADD || t == ADD_MPID {
      AddMembersPlaced(t);
    } else if t == REPLACE {
      ReplaceMembersPlaced();
    }
  }

  /** Reading a body into its struct and converting the fields gives the specified message, on a machine of
      either byte order and whatever the object held before. `ms` and `cs` stand for the struct's members and
      copies. */
  lemma ReadsAsParsed(native: Endian, t: Byte, ms: Members, mem: seq<Byte>, body: seq<Byte>, cs: seq<Copy>)
    requires IsOrderType(t) && |mem| == ObjectSize(t) && |body| == BodySize(t)
    requires ms == MessageMembers(t) && cs == FieldCopies(MessageSchema(t), 0, 0, false)
    ensures FromObject(native, t, Transfer(mem, body, cs, In)) == Parse(t, body)
  {
    MessageReadable(t);
    FieldsArePlaced(t);
    FieldsReadAsParsed(native, t, ms, ObjectSize(t), mem, body, cs);
  }

  lemma FieldsReadAsParsed(native: Endian, t: Byte, ms: Members, size: nat, mem: seq<Byte>, body: seq<Byte>,
                           cs: seq<Copy>)
    requires IsOrderType(t) && Readable(t, ms, size) && FieldsPlaced(t, ms)
    requires |mem| == size && |body| == BodySize(t) && cs == FieldCopies(Aggregate(size, ms), 0, 0, false)
    ensures FromObject(native, t, Transfer(mem, body, cs, In)) == Parse(t, body)
  {
    ReferenceRead(native, t, ms, size, mem, body, cs);
    if t == ADD || t == ADD_MPID {
      AddFieldsRead(native, t, ms, size, mem, body, cs);
    } else if t == EXECUTED || t == EXECUTED_WITH_PRICE || t == CANCEL {
      ReduceFieldsRead(native, t, ms, size, mem, body, cs);
    } else if t == REPLACE {
      ReplaceFieldsRead(native, ms, size, mem, body, cs);
    }
  }

  /** The two fields of the header that the handler uses. */
  lemma HeaderReads(native: Endian, mem: seq<Byte>, header: seq<Byte>)
    requires |mem| == 12 && |header| == HEADER_BYTES
    ensures var r := Transfer(mem, header, FieldCopies(Aggregate(12, HeaderMembers()), 0, 0, false), In);
            r[0] == header[0] && Field(native, r, 2, 2) == Value(header[1..3])
  {
    HeaderShape();
    ScalarContiguous(1);
    var cs := FieldCopies(Aggregate(12, HeaderMembers()), 0, 0, false);
    MemberRead(HeaderMembers(), 12, mem, header, cs, 0, 0);
    WrappedFieldRead(native, HeaderMembers(), 12, mem, header, cs, 1, 2, 1, 2);
  }
}
