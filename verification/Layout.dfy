/** The layout compiler of the serialiser: it walks a type, lists the byte ranges to copy between memory and
    wire, and fuses adjacent ones. */
module Layout {

  datatype Mark = Plain | Ignored | Skipped

  /** A serialisable type. `size` of an aggregate is its size in memory, padding included. */
  datatype Schema =
    | Scalar(width: nat)
    | Array(count: nat, elem: Schema)
    | Aggregate(size: nat, members: Members)

  datatype Members = End | Member(offset: nat, mark: Mark, schema: Schema, rest: Members)

  /** `n * x`, by repeated addition. */
  function Times(n: nat, x: nat): nat {
    if n == 0 then 0 else Times(n - 1, x) + x
  }

  lemma {:induction false} TimesIsProduct(n: nat, x: nat)
    ensures Times(n, x) == n * x
  {
    if n > 0 {
      TimesIsProduct(n - 1, x);
    }
  }

  lemma {:induction false} TimesStrict(n: nat, x: nat, y: nat)
    ensures x <= y ==> Times(n, x) <= Times(n, y)
    ensures n > 0 && x < y ==> Times(n, x) < Times(n, y)
  {
    if n > 0 {
      TimesStrict(n - 1, x, y);
    }
  }

  /** `sizeof`. */
  function MemSize(s: Schema): nat {
    match s
    case Scalar(w) => w
    case Array(n, e) => Times(n, MemSize(e))
    case Aggregate(size, _) => size
  }

  /** `raw_size`: bytes on the wire. Ignored members take part, skipped ones do not. */
  function RawSize(s: Schema): nat {
    match s
    case Scalar(w) => w
    case Array(n, e) => Times(n, RawSize(e))
    case Aggregate(_, ms) => RawSizeOfMembers(ms)
  }

  function RawSizeOfMembers(ms: Members): nat {
    match ms
    case End => 0
    case Member(_, mark, s, rest) => (if mark.Skipped? then 0 else RawSize(s)) + RawSizeOfMembers(rest)
  }

  /** `size_of`, with its running total over the members. */
  method SizeOf(s: Schema) returns (size: nat)
    ensures size == RawSize(s)
  {
    match s
    case Scalar(w) => size := w;
    case Array(n, e) =>
      var one := SizeOf(e);
      size := n * one;
      TimesIsProduct(n, one);
    case Aggregate(_, ms) =>
      var total, cur := 0, ms;
      while cur.Member?
        invariant total + RawSizeOfMembers(cur) == RawSizeOfMembers(ms)
        invariant cur.Member? ==> cur.schema < s
        invariant cur < s
        decreases cur
      {
        if !cur.mark.Skipped? {
          var one := SizeOf(cur.schema);
          total := total + one;
        }
        cur := cur.rest;
      }
      size := total;
  }

  // ----- byte ranges -----

  datatype ByteRange = ByteRange(mem: nat, wire: nat, count: nat)

  /** One byte in memory and its place on the wire. */
  datatype Copy = Copy(mem: nat, wire: nat)

  function Bytes(r: ByteRange): seq<Copy> {
    seq(r.count, k requires 0 <= k => Copy(r.mem + k, r.wire + k))
  }

  /** The single-byte copies that a list of ranges performs, in order. */
  function Expand(ranges: seq<ByteRange>): seq<Copy> {
    if ranges == [] then [] else Expand(ranges[..|ranges| - 1]) + Bytes(ranges[|ranges| - 1])
  }

  predicate Fusible(a: ByteRange, b: ByteRange) {
    b.mem == a.mem + a.count && b.wire == a.wire + a.count
  }

  lemma FusedBytes(a: ByteRange, b: ByteRange)
    requires Fusible(a, b)
    ensures Bytes(ByteRange(a.mem, a.wire, a.count + b.count)) == Bytes(a) + Bytes(b)
  {
  }

  ghost predicate Unfusible(ranges: seq<ByteRange>) {
    forall i :: 0 <= i < |ranges| - 1 ==> !Fusible(ranges[i], ranges[i + 1])
  }

  /** `compress_layout`: the same byte copies in the same order, with no two neighbours left to fuse. */
  method CompressLayout(raw: seq<ByteRange>) returns (compressed: seq<ByteRange>)
    ensures Expand(compressed) == Expand(raw)
    ensures Unfusible(compressed)
  {
    compressed := [];
    for i := 0 to |raw|
      invariant Expand(compressed) == Expand(raw[..i])
      invariant Unfusible(compressed)
    {
      var r := raw[i];
      assert raw[..i + 1][..i] == raw[..i];
      var n := |compressed|;
      if n > 0 && Fusible(compressed[n - 1], r) {
        var back := compressed[n - 1];
        FusedBytes(back, r);
        var grown := back.(count := back.count + r.count);
        assert compressed[n - 1 := grown][..n - 1] == compressed[..n - 1];
        compressed := compressed[n - 1 := grown];
      } else {
        assert (compressed + [r])[..n] == compressed;
        compressed := compressed + [r];
      }
    }
    assert raw[..|raw|] == raw;
  }

  // ----- enumeration -----

  /** What enumeration appends for a type at the given places. Array elements are `sizeof` apart on both sides. */
  function Ranges(s: Schema, mem: nat, wire: nat): seq<ByteRange>
    decreases s, 0
  {
    match s
    case Scalar(w) => [ByteRange(mem, wire, w)]
    case Array(n, e) => ArrayRanges(n, e, mem, wire)
    case Aggregate(_, ms) => MemberRanges(ms, mem, wire)
  }

  function ArrayRanges(n: nat, e: Schema, mem: nat, wire: nat): seq<ByteRange>
    decreases e, n + 1
  {
    if n == 0 then []
    else ArrayRanges(n - 1, e, mem, wire) + Ranges(e, mem + Times(n - 1, MemSize(e)), wire + Times(n - 1, MemSize(e)))
  }

  function MemberRanges(ms: Members, mem: nat, wire: nat): seq<ByteRange>
    decreases ms, 0
  {
    match ms
    case End => []
    case Member(offset, mark, s, rest) =>
      if mark.Skipped? then MemberRanges(rest, mem, wire)
      else
        (if mark.Plain? then Ranges(s, mem + offset, wire) else [])
        + MemberRanges(rest, mem, wire + RawSize(s))
  }

  /** The vector that enumeration appends to. */
  class ByteSequence {
    var ranges: seq<ByteRange>

    constructor ()
      ensures ranges == []
    {
      ranges := [];
    }

    method EmplaceBack(mem: nat, wire: nat, count: nat)
      modifies this
      ensures ranges == old(ranges) + [ByteRange(mem, wire, count)]
    {
      ranges := ranges + [ByteRange(mem, wire, count)];
    }
  }

  method EnumerateObject(out: ByteSequence, s: Schema, mem: nat, wire: nat)
    modifies out
    ensures out.ranges == old(out.ranges) + Ranges(s, mem, wire)
    decreases s, 0
  {
    match s
    case Scalar(w) => out.EmplaceBack(mem, wire, w);
    case Array(n, e) => EnumerateArray(out, n, e, mem, wire);
    case Aggregate(_, ms) => EnumerateAggregate(out, ms, mem, wire);
  }

  method EnumerateArray(out: ByteSequence, n: nat, e: Schema, mem: nat, wire: nat)
    modifies out
    ensures out.ranges == old(out.ranges) + ArrayRanges(n, e, mem, wire)
    decreases e, 1
  {
    for i := 0 to n
      invariant out.ranges == old(out.ranges) + ArrayRanges(i, e, mem, wire)
    {
      TimesIsProduct(i, MemSize(e));
      EnumerateObject(out, e, mem + MemSize(e) * i, wire + MemSize(e) * i);
    }
  }

  method EnumerateAggregate(out: ByteSequence, ms: Members, mem: nat, wire: nat)
    modifies out
    ensures out.ranges == old(out.ranges) + MemberRanges(ms, mem, wire)
    decreases ms, 0
  {
    var currentWire, cur := wire, ms;
    while cur.Member?
      invariant out.ranges + MemberRanges(cur, mem, currentWire) == old(out.ranges) + MemberRanges(ms, mem, wire)
      invariant cur == ms || cur < ms
      decreases cur
    {
      if !cur.mark.Skipped? {
        if cur.mark.Plain? {
          EnumerateObject(out, cur.schema, mem + cur.offset, currentWire);
        }
        var size := SizeOf(cur.schema);
        currentWire := currentWire + size;
      }
      cur := cur.rest;
    }
  }

  method BuildSequence(s: Schema) returns (ranges: seq<ByteRange>)
    ensures Expand(ranges) == Expand(Ranges(s, 0, 0))
    ensures Unfusible(ranges)
  {
    var sequence := new ByteSequence();
    EnumerateObject(sequence, s, 0, 0);
    assert sequence.ranges == Ranges(s, 0, 0);
    ranges := CompressLayout(sequence.ranges);
  }

  // ----- the field-by-field copies -----

  /** The single-byte copies of the field-by-field recursion: elements follow each other densely on the wire,
      and with `swap` the bytes of each scalar go out in reverse. */
  function FieldCopies(s: Schema, mem: nat, wire: nat, swap: bool): seq<Copy>
    decreases s, 0
  {
    match s
    case Scalar(w) => seq(w, k requires 0 <= k < w => Copy(mem + (if swap then w - 1 - k else k), wire + k))
    case Array(n, e) => ArrayCopies(n, e, mem, wire, swap)
    case Aggregate(_, ms) => MemberCopies(ms, mem, wire, swap)
  }

  function ArrayCopies(n: nat, e: Schema, mem: nat, wire: nat, swap: bool): seq<Copy>
    decreases e, n + 1
  {
    if n == 0 then []
    else
      ArrayCopies(n - 1, e, mem, wire, swap)
      + FieldCopies(e, mem + Times(n - 1, MemSize(e)), wire + Times(n - 1, RawSize(e)), swap)
  }

  function MemberCopies(ms: Members, mem: nat, wire: nat, swap: bool): seq<Copy>
    decreases ms, 0
  {
    match ms
    case End => []
    case Member(offset, mark, s, rest) =>
      if mark.Skipped? then MemberCopies(rest, mem, wire, swap)
      else
        (if mark.Plain? then FieldCopies(s, mem + offset, wire, swap) else [])
        + MemberCopies(rest, mem, wire + RawSize(s), swap)
  }

  /** The bytes a type transfers; ignored and skipped members have none. */
  function LiveBytes(s: Schema): nat {
    match s
    case Scalar(w) => w
    case Array(n, e) => Times(n, LiveBytes(e))
    case Aggregate(_, ms) => LiveBytesOfMembers(ms)
  }

  function LiveBytesOfMembers(ms: Members): nat {
    match ms
    case End => 0
    case Member(_, mark, s, rest) => (if mark.Plain? then LiveBytes(s) else 0) + LiveBytesOfMembers(rest)
  }

  /** Where the flat layout can stand in for the recursion: the elements of every array that has several, and
      bytes to transfer in them, are as long on the wire as in memory. */
  predicate FlatOk(s: Schema) {
    match s
    case Scalar(_) => true
    case Array(n, e) => n == 0 || (FlatOk(e) && (n == 1 || LiveBytes(e) == 0 || MemSize(e) == RawSize(e)))
    case Aggregate(_, ms) => FlatOkMembers(ms)
  }

  predicate FlatOkMembers(ms: Members) {
    match ms
    case End => true
    case Member(_, mark, s, rest) => (mark.Plain? ==> FlatOk(s)) && FlatOkMembers(rest)
  }

  lemma {:induction false} ExpandConcat(a: seq<ByteRange>, b: seq<ByteRange>)
    ensures Expand(a + b) == Expand(a) + Expand(b)
  {
    if b == [] {
      assert a + b == a;
    } else {
      var n, all := |b| - 1, a + b;
      ExpandConcat(a, b[..n]);
      assert all[..|all| - 1] == a + b[..n] && all[|all| - 1] == b[n];
      assert Expand(all) == Expand(a + b[..n]) + Bytes(b[n]);
    }
  }

  lemma {:induction false} CopyCount(s: Schema, mem: nat, wire: nat, wire': nat, swap: bool)
    ensures |Expand(Ranges(s, mem, wire))| == LiveBytes(s) == |FieldCopies(s, mem, wire', swap)|
    decreases s, 0
  {
    match s
    case Scalar(w) => ExpandOne(ByteRange(mem, wire, w));
    case Array(n, e) => ArrayCopyCount(n, e, mem, wire, wire', swap);
    case Aggregate(_, ms) => MemberCopyCount(ms, mem, wire, wire', swap);
  }

  lemma ExpandOne(r: ByteRange)
    ensures Expand([r]) == Bytes(r)
  {
    assert Expand([r]) == Expand([r][..0]) + Bytes(r);
  }

  lemma {:induction false} ArrayCopyCount(n: nat, e: Schema, mem: nat, wire: nat, wire': nat, swap: bool)
    ensures |Expand(ArrayRanges(n, e, mem, wire))| == Times(n, LiveBytes(e)) == |ArrayCopies(n, e, mem, wire', swap)|
    decreases e, n + 1
  {
    if n > 0 {
      var m, w := mem + Times(n - 1, MemSize(e)), wire + Times(n - 1, MemSize(e));
      ArrayCopyCount(n - 1, e, mem, wire, wire', swap);
      CopyCount(e, m, w, wire' + Times(n - 1, RawSize(e)), swap);
      var first, last := ArrayRanges(n - 1, e, mem, wire), Ranges(e, m, w);
      assert ArrayRanges(n, e, mem, wire) == first + last;
      ExpandConcat(first, last);
    }
  }

  lemma {:induction false} MemberCopyCount(ms: Members, mem: nat, wire: nat, wire': nat, swap: bool)
    ensures |Expand(MemberRanges(ms, mem, wire))| == LiveBytesOfMembers(ms) == |MemberCopies(ms, mem, wire', swap)|
    decreases ms, 0
  {
    if ms.Member? {
      if ms.mark.Skipped? {
        MemberCopyCount(ms.rest, mem, wire, wire', swap);
      } else {
        CopyCount(ms.schema, mem + ms.offset, wire, wire', swap);
        MemberCopyCount(ms.rest, mem, wire + RawSize(ms.schema), wire' + RawSize(ms.schema), swap);
        var own := if ms.mark.Plain? then Ranges(ms.schema, mem + ms.offset, wire) else [];
        var others := MemberRanges(ms.rest, mem, wire + RawSize(ms.schema));
        assert MemberRanges(ms, mem, wire) == own + others;
        ExpandConcat(own, others);
      }
    }
  }

  /** Equal concatenations of equally long parts have equal parts. */
  lemma SplitEqual<T>(a: seq<T>, b: seq<T>, c: seq<T>, d: seq<T>)
    requires |a| == |c|
    ensures a + b == c + d <==> a == c && b == d
  {
    if a + b == c + d {
      assert a == (a + b)[..|a|] && c == (c + d)[..|c|];
      assert b == (a + b)[|a|..] && d == (c + d)[|c|..];
    }
  }

  /** A type that transfers bytes puts its first one at a wire place that moves with the type's. */
  lemma {:induction false} WireMoves(s: Schema, mem: nat, wire: nat, wire': nat, i: nat, swap: bool)
    requires i < |FieldCopies(s, mem, wire, swap)|
    ensures i < |FieldCopies(s, mem, wire', swap)|
    ensures FieldCopies(s, mem, wire', swap)[i].wire - wire' == FieldCopies(s, mem, wire, swap)[i].wire - wire
    ensures FieldCopies(s, mem, wire', swap)[i].mem == FieldCopies(s, mem, wire, swap)[i].mem
    decreases s, 0
  {
    CopyCount(s, mem, wire, wire', swap);
    CopyCount(s, mem, wire, wire, swap);
    match s
    case Scalar(_) =>
    case Array(n, e) => ArrayWireMoves(n, e, mem, wire, wire', i, swap);
    case Aggregate(_, ms) => MemberWireMoves(ms, mem, wire, wire', i, swap);
  }

  lemma {:induction false} ArrayWireMoves(n: nat, e: Schema, mem: nat, wire: nat, wire': nat, i: nat, swap: bool)
    requires i < |ArrayCopies(n, e, mem, wire, swap)| == |ArrayCopies(n, e, mem, wire', swap)|
    ensures ArrayCopies(n, e, mem, wire', swap)[i].wire - wire' == ArrayCopies(n, e, mem, wire, swap)[i].wire - wire
    ensures ArrayCopies(n, e, mem, wire', swap)[i].mem == ArrayCopies(n, e, mem, wire, swap)[i].mem
    decreases e, n + 1
  {
    var step, m := Times(n - 1, RawSize(e)), mem + Times(n - 1, MemSize(e));
    var before := |ArrayCopies(n - 1, e, mem, wire, swap)|;
    ArrayCopyCount(n - 1, e, mem, wire, wire, swap);
    ArrayCopyCount(n - 1, e, mem, wire, wire', swap);
    ArrayIndex(n, e, mem, wire, i, swap);
    ArrayIndex(n, e, mem, wire', i, swap);
    if i < before {
      ArrayWireMoves(n - 1, e, mem, wire, wire', i, swap);
    } else {
      WireMoves(e, m, wire + step, wire' + step, i - before, swap);
    }
  }

  lemma ArrayIndex(n: nat, e: Schema, mem: nat, wire: nat, i: nat, swap: bool)
    requires n > 0 && i < |ArrayCopies(n, e, mem, wire, swap)|
    ensures var first := ArrayCopies(n - 1, e, mem, wire, swap);
            var last := FieldCopies(e, mem + Times(n - 1, MemSize(e)), wire + Times(n - 1, RawSize(e)), swap);
            i - |first| < |last| &&
            ArrayCopies(n, e, mem, wire, swap)[i] == if i < |first| then first[i] else last[i - |first|]
  {
  }

  lemma {:induction false} MemberWireMoves(ms: Members, mem: nat, wire: nat, wire': nat, i: nat, swap: bool)
    requires i < |MemberCopies(ms, mem, wire, swap)| == |MemberCopies(ms, mem, wire', swap)|
    ensures MemberCopies(ms, mem, wire', swap)[i].wire - wire' == MemberCopies(ms, mem, wire, swap)[i].wire - wire
    ensures MemberCopies(ms, mem, wire', swap)[i].mem == MemberCopies(ms, mem, wire, swap)[i].mem
    decreases ms, 0
  {
    if ms.mark.Skipped? {
      MemberWireMoves(ms.rest, mem, wire, wire', i, swap);
    } else {
      var raw := RawSize(ms.schema);
      CopyCount(ms.schema, mem + ms.offset, wire, wire, swap);
      CopyCount(ms.schema, mem + ms.offset, wire, wire', swap);
      MemberCopyCount(ms.rest, mem, wire, wire + raw, swap);
      MemberCopyCount(ms.rest, mem, wire, wire' + raw, swap);
      var before := if ms.mark.Plain? then LiveBytes(ms.schema) else 0;
      if i < before {
        WireMoves(ms.schema, mem + ms.offset, wire, wire', i, swap);
      } else {
        MemberWireMoves(ms.rest, mem, wire + raw, wire' + raw, i - before, swap);
      }
    }
  }

  // ----- the flat layout against the recursion -----

  /** The ranges of a type perform the copies of the native-endian recursion, byte for byte and in the same
      order, if and only if `FlatOk` holds. */
  lemma {:induction false} FlatRefinesFields(s: Schema, mem: nat, wire: nat)
    ensures Expand(Ranges(s, mem, wire)) == FieldCopies(s, mem, wire, false) <==> FlatOk(s)
    decreases s, 0
  {
    match s
    case Scalar(w) =>
      ExpandOne(ByteRange(mem, wire, w));
      assert Bytes(ByteRange(mem, wire, w)) == FieldCopies(s, mem, wire, false);
    case Array(n, e) => ArrayFlatRefines(n, e, mem, wire);
    case Aggregate(_, ms) => MembersFlatRefine(ms, mem, wire);
  }

  lemma ArrayEqualByParts(n: nat, e: Schema, mem: nat, wire: nat, m: nat, w: nat, w': nat)
    requires n > 0 && m == mem + Times(n - 1, MemSize(e))
    requires w == wire + Times(n - 1, MemSize(e)) && w' == wire + Times(n - 1, RawSize(e))
    ensures Expand(ArrayRanges(n, e, mem, wire)) == ArrayCopies(n, e, mem, wire, false) <==>
            Expand(ArrayRanges(n - 1, e, mem, wire)) == ArrayCopies(n - 1, e, mem, wire, false)
            && Expand(Ranges(e, m, w)) == FieldCopies(e, m, w', false)
  {
    var first, last := ArrayRanges(n - 1, e, mem, wire), Ranges(e, m, w);
    var firstCopies, lastCopies := ArrayCopies(n - 1, e, mem, wire, false), FieldCopies(e, m, w', false);
    assert ArrayRanges(n, e, mem, wire) == first + last;
    assert ArrayCopies(n, e, mem, wire, false) == firstCopies + lastCopies;
    ExpandConcat(first, last);
    ArrayCopyCount(n - 1, e, mem, wire, wire, false);
    SplitEqual(Expand(first), Expand(last), firstCopies, lastCopies);
  }

  lemma {:induction false} ArrayFlatRefines(n: nat, e: Schema, mem: nat, wire: nat)
    ensures Expand(ArrayRanges(n, e, mem, wire)) == ArrayCopies(n, e, mem, wire, false) <==>
            n == 0 || (FlatOk(e) && (n == 1 || LiveBytes(e) == 0 || MemSize(e) == RawSize(e)))
    decreases e, n + 1
  {
    if n > 0 {
      var m := mem + Times(n - 1, MemSize(e));
      var w, w' := wire + Times(n - 1, MemSize(e)), wire + Times(n - 1, RawSize(e));
      ArrayFlatRefines(n - 1, e, mem, wire);
      FlatRefinesFields(e, m, w);
      ArrayEqualByParts(n, e, mem, wire, m, w, w');
      LastElementRefines(n, e, m, w, w');
    }
  }

  /** The last element is right exactly when its own layout is and it starts at the right wire place, or has
      nothing to transfer. */
  lemma LastElementRefines(n: nat, e: Schema, m: nat, w: nat, w': nat)
    requires n > 0
    requires Expand(Ranges(e, m, w)) == FieldCopies(e, m, w, false) <==> FlatOk(e)
    requires w - w' == Times(n - 1, MemSize(e)) - Times(n - 1, RawSize(e))
    ensures FlatOk(e) ==>
              (Expand(Ranges(e, m, w)) == FieldCopies(e, m, w', false) <==>
                 n == 1 || LiveBytes(e) == 0 || MemSize(e) == RawSize(e))
    ensures n == 1 ==> (Expand(Ranges(e, m, w)) == FieldCopies(e, m, w', false) <==> FlatOk(e))
  {
    CopyCount(e, m, w, w, false);
    CopyCount(e, m, w, w', false);
    if w != w' && LiveBytes(e) > 0 {
      WireMoves(e, m, w, w', 0, false);
    }
    TimesStrict(n - 1, MemSize(e), RawSize(e));
    TimesStrict(n - 1, RawSize(e), MemSize(e));
  }

  lemma MembersEqualByParts(ms: Members, mem: nat, wire: nat, w: nat)
    requires ms.Member? && !ms.mark.Skipped? && w == wire + RawSize(ms.schema)
    ensures Expand(MemberRanges(ms, mem, wire)) == MemberCopies(ms, mem, wire, false) <==>
            (ms.mark.Plain? ==>
               Expand(Ranges(ms.schema, mem + ms.offset, wire)) == FieldCopies(ms.schema, mem + ms.offset, wire, false))
            && Expand(MemberRanges(ms.rest, mem, w)) == MemberCopies(ms.rest, mem, w, false)
  {
    var own := if ms.mark.Plain? then Ranges(ms.schema, mem + ms.offset, wire) else [];
    var ownCopies := if ms.mark.Plain? then FieldCopies(ms.schema, mem + ms.offset, wire, false) else [];
    var others, otherCopies := MemberRanges(ms.rest, mem, w), MemberCopies(ms.rest, mem, w, false);
    assert MemberRanges(ms, mem, wire) == own + others;
    assert MemberCopies(ms, mem, wire, false) == ownCopies + otherCopies;
    ExpandConcat(own, others);
    CopyCount(ms.schema, mem + ms.offset, wire, wire, false);
    SplitEqual(Expand(own), Expand(others), ownCopies, otherCopies);
  }

  lemma {:induction false} MembersFlatRefine(ms: Members, mem: nat, wire: nat)
    ensures Expand(MemberRanges(ms, mem, wire)) == MemberCopies(ms, mem, wire, false) <==> FlatOkMembers(ms)
    decreases ms, 0
  {
    if ms.Member? {
      if ms.mark.Skipped? {
        MembersFlatRefine(ms.rest, mem, wire);
      } else {
        var w := wire + RawSize(ms.schema);
        MembersFlatRefine(ms.rest, mem, w);
        FlatRefinesFields(ms.schema, mem + ms.offset, wire);
        MembersEqualByParts(ms, mem, wire, w);
      }
    }
  }
}
