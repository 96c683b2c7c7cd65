/** What the flat layout does to types that it does not suit: it always reads the right memory, but it may put
    the bytes at wrong wire places, and for some types beyond the type's own stretch of the wire. */
module FlatReach {
  import opened Layout
  import opened Copying

  function Max(a: nat, b: nat): nat {
    if a < b then b else a
  }

  /** How far from its start the flat layout of a type reaches on the wire. */
  function Reach(s: Schema): nat {
    match s
    case Scalar(w) => w
    case Array(n, e) => if n == 0 || LiveBytes(e) == 0 then 0 else Times(n - 1, MemSize(e)) + Reach(e)
    case Aggregate(_, ms) => ReachOfMembers(ms, 0)
  }

  function ReachOfMembers(ms: Members, at: nat): (r: nat)
    ensures LiveBytesOfMembers(ms) == 0 ==> r == 0
  {
    match ms
    case End => 0
    case Member(_, mark, s, rest) =>
      if mark.Skipped? then ReachOfMembers(rest, at)
      else
        Max(if mark.Plain? && LiveBytes(s) > 0 then at + Reach(s) else 0, ReachOfMembers(rest, at + RawSize(s)))
  }

  ghost predicate WireBelow(cs: seq<Copy>, limit: nat) {
    forall i :: 0 <= i < |cs| ==> cs[i].wire < limit
  }

  ghost predicate MemBelow(cs: seq<Copy>, limit: nat) {
    forall i :: 0 <= i < |cs| ==> cs[i].mem < limit
  }

  lemma WireBelowConcat(whole: seq<ByteRange>, a: seq<ByteRange>, b: seq<ByteRange>, limit: nat)
    requires whole == a + b
    ensures WireBelow(Expand(whole), limit) <==> WireBelow(Expand(a), limit) && WireBelow(Expand(b), limit)
  {
    ExpandConcat(a, b);
    BelowParts(Expand(whole), Expand(a), Expand(b), limit);
  }

  lemma BelowParts(whole: seq<Copy>, a: seq<Copy>, b: seq<Copy>, limit: nat)
    requires whole == a + b
    ensures WireBelow(whole, limit) <==> WireBelow(a, limit) && WireBelow(b, limit)
  {
    if WireBelow(whole, limit) {
      assert forall i :: 0 <= i < |a| ==> a[i] == whole[i];
      assert forall i :: 0 <= i < |b| ==> b[i] == whole[|a| + i];
    }
  }

  /** The copies of a type all lie below a limit if and only if its reach does, or it has none. */
  lemma {:induction false} CopiesBelow(s: Schema, mem: nat, wire: nat, limit: nat)
    ensures WireBelow(Expand(Ranges(s, mem, wire)), limit) <==> LiveBytes(s) == 0 || wire + Reach(s) <= limit
    decreases s, 0
  {
    match s
    case Scalar(w) =>
      ExpandOne(ByteRange(mem, wire, w));
      if w > 0 {
        assert Bytes(ByteRange(mem, wire, w))[w - 1].wire == wire + (w - 1);
      }
    case Array(n, e) =>
      ArrayCopiesBelow(n, e, mem, wire, limit);
      TimesIsProduct(n, LiveBytes(e));
    case Aggregate(_, ms) => MemberCopiesBelow(ms, mem, wire, 0, wire, limit);
  }

  lemma {:induction false} ArrayCopiesBelow(n: nat, e: Schema, mem: nat, wire: nat, limit: nat)
    ensures WireBelow(Expand(ArrayRanges(n, e, mem, wire)), limit) <==>
            n == 0 || LiveBytes(e) == 0 || wire + Times(n - 1, MemSize(e)) + Reach(e) <= limit
    decreases e, n + 1
  {
    if n > 0 {
      var m, w := mem + Times(n - 1, MemSize(e)), wire + Times(n - 1, MemSize(e));
      ArrayCopiesBelow(n - 1, e, mem, wire, limit);
      CopiesBelow(e, m, w, limit);
      WireBelowConcat(ArrayRanges(n, e, mem, wire), ArrayRanges(n - 1, e, mem, wire), Ranges(e, m, w), limit);
    }
  }

  /** The claim about the copies of some members, of which the first is at wire place `w`. */
  ghost predicate MembersBelow(ms: Members, mem: nat, wire: nat, at: nat, w: nat, limit: nat) {
    WireBelow(Expand(MemberRanges(ms, mem, w)), limit) <==>
    LiveBytesOfMembers(ms) == 0 || wire + ReachOfMembers(ms, at) <= limit
  }

  lemma {:induction false} MemberCopiesBelow(ms: Members, mem: nat, wire: nat, at: nat, w: nat, limit: nat)
    requires w == wire + at
    ensures MembersBelow(ms, mem, wire, at, w, limit)
    decreases ms, 0
  {
    if ms.End? {
      assert MemberRanges(ms, mem, w) == [];
    } else if ms.mark.Skipped? {
      MemberCopiesBelow(ms.rest, mem, wire, at, w, limit);
      PassedMemberBelow(ms, mem, wire, at, w, limit, 0);
    } else {
      var raw := RawSize(ms.schema);
      MemberCopiesBelow(ms.rest, mem, wire, at + raw, w + raw, limit);
      if ms.mark.Ignored? {
        PassedMemberBelow(ms, mem, wire, at, w, limit, raw);
      } else {
        CopiesBelow(ms.schema, mem + ms.offset, w, limit);
        PlainMemberBelow(ms, mem, wire, at, w, limit, raw);
      }
    }
  }

  lemma ReachPasses(ms: Members, at: nat, rest: nat)
    requires ms.Member? && !ms.mark.Plain? && rest == if ms.mark.Skipped? then 0 else RawSize(ms.schema)
    ensures LiveBytesOfMembers(ms) == LiveBytesOfMembers(ms.rest)
    ensures ReachOfMembers(ms, at) == ReachOfMembers(ms.rest, at + rest)
  {
  }

  lemma RangesPass(ms: Members, mem: nat, w: nat, rest: nat)
    requires ms.Member? && !ms.mark.Plain? && rest == if ms.mark.Skipped? then 0 else RawSize(ms.schema)
    ensures MemberRanges(ms, mem, w) == MemberRanges(ms.rest, mem, w + rest)
  {
    var others := MemberRanges(ms.rest, mem, w + rest);
    assert [] + others == others;
  }

  lemma PassedMemberBelow(ms: Members, mem: nat, wire: nat, at: nat, w: nat, limit: nat, rest: nat)
    requires ms.Member? && !ms.mark.Plain? && rest == if ms.mark.Skipped? then 0 else RawSize(ms.schema)
    requires MembersBelow(ms.rest, mem, wire, at + rest, w + rest, limit)
    ensures MembersBelow(ms, mem, wire, at, w, limit)
  {
    ReachPasses(ms, at, rest);
    RangesPass(ms, mem, w, rest);
  }

  lemma ReachSplits(ms: Members, wire: nat, at: nat, w: nat, limit: nat, raw: nat)
    requires ms.Member? && ms.mark.Plain? && w == wire + at && raw == RawSize(ms.schema)
    ensures (LiveBytes(ms.schema) == 0 || w + Reach(ms.schema) <= limit)
            && (LiveBytesOfMembers(ms.rest) == 0 || wire + ReachOfMembers(ms.rest, at + raw) <= limit) <==>
            LiveBytesOfMembers(ms) == 0 || wire + ReachOfMembers(ms, at) <= limit
  {
  }

  lemma PlainMemberBelow(ms: Members, mem: nat, wire: nat, at: nat, w: nat, limit: nat, raw: nat)
    requires ms.Member? && ms.mark.Plain? && w == wire + at && raw == RawSize(ms.schema)
    requires MembersBelow(ms.rest, mem, wire, at + raw, w + raw, limit)
    requires WireBelow(Expand(Ranges(ms.schema, mem + ms.offset, w)), limit) <==>
             LiveBytes(ms.schema) == 0 || w + Reach(ms.schema) <= limit
    ensures MembersBelow(ms, mem, wire, at, w, limit)
  {
    var own, others := Ranges(ms.schema, mem + ms.offset, w), MemberRanges(ms.rest, mem, w + raw);
    WireBelowConcat(MemberRanges(ms, mem, w), own, others, limit);
    ReachSplits(ms, wire, at, w, limit, raw);
  }

  lemma NothingLiveNoReach(s: Schema)
    ensures LiveBytes(s) == 0 ==> Reach(s) == 0
  {
    if s.Array? {
      TimesIsProduct(s.count, LiveBytes(s.elem));
    }
  }

  /** Exactly when the flat copies leave a stretch of the wire: they stay below a limit if and only if the reach
      of the type does. With `limit == RawSize(s)` the stretch is the type's own. */
  lemma FlatStaysBelow(s: Schema, limit: nat)
    ensures WireBelow(Expand(Ranges(s, 0, 0)), limit) <==> Reach(s) <= limit
  {
    CopiesBelow(s, 0, 0, limit);
    NothingLiveNoReach(s);
  }

  /** A type that the flat layout suits stays inside its own stretch. */
  lemma {:induction false} FlatOkReach(s: Schema)
    requires FlatOk(s)
    ensures Reach(s) <= RawSize(s)
    decreases s
  {
    match s
    case Scalar(_) =>
    case Array(n, e) => if n > 0 { FlatOkReach(e); }
    case Aggregate(_, ms) => FlatOkReachOfMembers(ms, 0);
  }

  lemma {:induction false} FlatOkReachOfMembers(ms: Members, at: nat)
    requires FlatOkMembers(ms)
    ensures ReachOfMembers(ms, at) <= at + RawSizeOfMembers(ms)
    decreases ms
  {
    if ms.Member? {
      if ms.mark.Plain? {
        FlatOkReach(ms.schema);
      }
      FlatOkReachOfMembers(ms.rest, if ms.mark.Skipped? then at else at + RawSize(ms.schema));
    }
  }

  // ----- the memory side -----

  function Mems(cs: seq<Copy>): seq<nat> {
    seq(|cs|, i requires 0 <= i < |cs| => cs[i].mem)
  }

  /** Whatever the type, the flat layout and the recursion take the same memory bytes in the same order; only
      their wire places can differ. */
  lemma {:induction false} SameMemory(s: Schema, mem: nat, wire: nat, wire': nat)
    ensures Mems(Expand(Ranges(s, mem, wire))) == Mems(FieldCopies(s, mem, wire', false))
    decreases s, 0
  {
    match s
    case Scalar(w) => ExpandOne(ByteRange(mem, wire, w));
    case Array(n, e) => ArraySameMemory(n, e, mem, wire, wire');
    case Aggregate(_, ms) => MembersSameMemory(ms, mem, wire, wire');
  }

  lemma MemsConcat(whole: seq<Copy>, a: seq<Copy>, b: seq<Copy>)
    requires whole == a + b
    ensures Mems(whole) == Mems(a) + Mems(b)
  {
  }

  lemma SameMemoryConcat(
      ranges: seq<ByteRange>, a: seq<ByteRange>, b: seq<ByteRange>, copies: seq<Copy>, c: seq<Copy>, d: seq<Copy>)
    requires ranges == a + b && copies == c + d
    requires Mems(Expand(a)) == Mems(c) && Mems(Expand(b)) == Mems(d)
    ensures Mems(Expand(ranges)) == Mems(copies)
  {
    ExpandConcat(a, b);
    MemsConcat(Expand(ranges), Expand(a), Expand(b));
    MemsConcat(copies, c, d);
  }

  lemma {:induction false} ArraySameMemory(n: nat, e: Schema, mem: nat, wire: nat, wire': nat)
    ensures Mems(Expand(ArrayRanges(n, e, mem, wire))) == Mems(ArrayCopies(n, e, mem, wire', false))
    decreases e, n + 1
  {
    if n > 0 {
      var m := mem + Times(n - 1, MemSize(e));
      var w, w' := wire + Times(n - 1, MemSize(e)), wire' + Times(n - 1, RawSize(e));
      ArraySameMemory(n - 1, e, mem, wire, wire');
      SameMemory(e, m, w, w');
      SameMemoryConcat(ArrayRanges(n, e, mem, wire), ArrayRanges(n - 1, e, mem, wire), Ranges(e, m, w),
                       ArrayCopies(n, e, mem, wire', false),
                       ArrayCopies(n - 1, e, mem, wire', false), FieldCopies(e, m, w', false));
    }
  }

  lemma {:induction false} MembersSameMemory(ms: Members, mem: nat, wire: nat, wire': nat)
    ensures Mems(Expand(MemberRanges(ms, mem, wire))) == Mems(MemberCopies(ms, mem, wire', false))
    decreases ms, 0
  {
    if ms.Member? {
      if ms.mark.Skipped? {
        MembersSameMemory(ms.rest, mem, wire, wire');
      } else {
        var raw := RawSize(ms.schema);
        MembersSameMemory(ms.rest, mem, wire + raw, wire' + raw);
        SameMemory(ms.schema, mem + ms.offset, wire, wire');
        SameMemoryConcat(MemberRanges(ms, mem, wire),
                         if ms.mark.Plain? then Ranges(ms.schema, mem + ms.offset, wire) else [],
                         MemberRanges(ms.rest, mem, wire + raw),
                         MemberCopies(ms, mem, wire', false),
                         if ms.mark.Plain? then FieldCopies(ms.schema, mem + ms.offset, wire', false) else [],
                         MemberCopies(ms.rest, mem, wire' + raw, false));
      }
    }
  }

  /** The flat copies of a value whose stretch begins at wire place `at`. */
  function FlatCopies(s: Schema, at: nat): seq<Copy> {
    Shifted(Expand(Ranges(s, 0, 0)), at)
  }

  lemma FlatMemoryBelow(s: Schema)
    requires Fits(s)
    ensures MemBelow(Expand(Ranges(s, 0, 0)), MemSize(s))
  {
    SameMemory(s, 0, 0, 0);
    CopiesConfined(s, 0, 0, false);
    var flat, fields := Expand(Ranges(s, 0, 0)), FieldCopies(s, 0, 0, false);
    forall i | 0 <= i < |flat| ensures flat[i].mem < MemSize(s) {
      assert Mems(flat)[i] == Mems(fields)[i];
    }
  }

  /** Exactly when the flat copies of a value stay inside a span: its reach does. */
  lemma FlatCopiesBelow(s: Schema, at: nat, limit: nat)
    requires at <= limit
    ensures WireBelow(FlatCopies(s, at), limit) <==> at + Reach(s) <= limit
  {
    FlatStaysBelow(s, limit - at);
    var cs := Expand(Ranges(s, 0, 0));
    if WireBelow(FlatCopies(s, at), limit) {
      forall i | 0 <= i < |cs| ensures cs[i].wire < limit - at {
        assert FlatCopies(s, at)[i].wire < limit;
      }
    }
  }

  /** For a type that the flat layout suits, the flat copies are those of the recursion. */
  lemma FlatCopiesAreFields(s: Schema, at: nat)
    requires FlatOk(s)
    ensures FlatCopies(s, at) == FieldCopies(s, 0, at, false) && Reach(s) <= RawSize(s)
  {
    FlatRefinesFields(s, 0, 0);
    ShiftedFields(s, at, false);
    FlatOkReach(s);
  }

  // ----- one range after the other -----

  /** Where the copies of the `i`-th range begin. */
  lemma {:induction false} RangeInExpand(ranges: seq<ByteRange>, i: nat) returns (k: nat)
    requires i < |ranges|
    ensures k + ranges[i].count <= |Expand(ranges)|
    ensures Expand(ranges)[k..k + ranges[i].count] == Bytes(ranges[i])
  {
    var n := |ranges| - 1;
    if i == n {
      k := |Expand(ranges[..n])|;
    } else {
      k := RangeInExpand(ranges[..n], i);
      assert Expand(ranges)[k..k + ranges[i].count] == Expand(ranges[..n])[k..k + ranges[i].count];
    }
  }

  /** Every copy of the `i`-th range is a copy of the whole. */
  lemma LastOfRange(ranges: seq<ByteRange>, i: nat) returns (k: nat)
    requires i < |ranges| && ranges[i].count > 0
    ensures k < |Expand(ranges)|
    ensures Expand(ranges)[k] == Copy(ranges[i].mem + ranges[i].count - 1, ranges[i].wire + ranges[i].count - 1)
  {
    var r, all := ranges[i], Expand(ranges);
    var first := RangeInExpand(ranges, i);
    k := first + r.count - 1;
    assert all[k] == all[first..first + r.count][r.count - 1];
    assert Bytes(r)[r.count - 1] == Copy(r.mem + (r.count - 1), r.wire + (r.count - 1));
  }

  lemma RangeInMemory(ranges: seq<ByteRange>, i: nat, limit: nat)
    requires i < |ranges| && MemBelow(Expand(ranges), limit)
    ensures ranges[i].count > 0 ==> ranges[i].mem + ranges[i].count <= limit
  {
    if ranges[i].count > 0 {
      var k := LastOfRange(ranges, i);
    }
  }

  lemma RangeOverruns(ranges: seq<ByteRange>, i: nat, at: nat, limit: nat)
    requires i < |ranges| && ranges[i].count > 0 && ranges[i].wire + at + ranges[i].count > limit
    ensures !WireBelow(Shifted(Expand(ranges), at), limit)
  {
    var k := LastOfRange(ranges, i);
    assert Shifted(Expand(ranges), at)[k].wire == Expand(ranges)[k].wire + at;
  }

  lemma RangeStaysBelow(before: seq<Copy>, all: seq<Copy>, r: ByteRange, at: nat, limit: nat)
    requires all == before + Bytes(r) && WireBelow(Shifted(before, at), limit)
    requires r.count == 0 || r.wire + at + r.count <= limit
    ensures WireBelow(Shifted(all, at), limit)
  {
    forall j | 0 <= j < |all| ensures Shifted(all, at)[j].wire < limit {
      if j < |before| {
        assert Shifted(before, at)[j].wire < limit;
      } else {
        assert all[j] == Bytes(r)[j - |before|];
      }
    }
  }

  lemma ExpandNext(ranges: seq<ByteRange>, i: nat)
    requires i < |ranges|
    ensures Expand(ranges[..i + 1]) == Expand(ranges[..i]) + Bytes(ranges[i])
  {
    var next := ranges[..i + 1];
    assert next[..|next| - 1] == ranges[..i];
  }

  /** One range more is inside the span exactly if its last byte is. */
  lemma RangeBelow(ranges: seq<ByteRange>, i: nat, at: nat, limit: nat)
    requires i < |ranges| && WireBelow(Shifted(Expand(ranges[..i]), at), limit)
    ensures if ranges[i].count > 0 && ranges[i].wire + at + ranges[i].count > limit
            then !WireBelow(Shifted(Expand(ranges), at), limit)
            else WireBelow(Shifted(Expand(ranges[..i + 1]), at), limit)
  {
    if ranges[i].count > 0 && ranges[i].wire + at + ranges[i].count > limit {
      RangeOverruns(ranges, i, at, limit);
    } else {
      ExpandNext(ranges, i);
      RangeStaysBelow(Expand(ranges[..i]), Expand(ranges[..i + 1]), ranges[i], at, limit);
    }
  }

  // ----- two types that the flat layout does not suit -----

  /** Two elements of four bytes each, which take eight in memory because a member is skipped. */
  function OverrunningType(): Schema {
    Array(2, Aggregate(8, Member(0, Plain, Scalar(4), Member(4, Skipped, Scalar(4), End))))
  }

  /** Two elements of one byte each, followed by a gap of four on the wire and of seven in memory. */
  function MisplacedType(): Schema {
    Array(2, Aggregate(8, Member(0, Plain, Scalar(1), Member(4, Ignored, Scalar(4), End))))
  }

  lemma TwoElementRanges(e: Schema, w: nat)
    requires Ranges(e, 0, 0) == [ByteRange(0, 0, w)]
    requires Ranges(e, MemSize(e), MemSize(e)) == [ByteRange(MemSize(e), MemSize(e), w)]
    ensures Ranges(Array(2, e), 0, 0) == [ByteRange(0, 0, w), ByteRange(MemSize(e), MemSize(e), w)]
  {
    assert Times(1, MemSize(e)) == Times(0, MemSize(e)) + MemSize(e) == MemSize(e);
    assert ArrayRanges(1, e, 0, 0) == ArrayRanges(0, e, 0, 0) + Ranges(e, 0, 0);
    assert ArrayRanges(2, e, 0, 0) == ArrayRanges(1, e, 0, 0) + Ranges(e, MemSize(e), MemSize(e));
  }

  /** The flat copies of a type with a skipped member in its array elements leave the type's stretch. */
  lemma FlatOverruns()
    ensures var s := OverrunningType();
            Ranges(s, 0, 0) == [ByteRange(0, 0, 4), ByteRange(8, 8, 4)] && RawSize(s) == 8 && Reach(s) == 12
    ensures !WireBelow(Expand(Ranges(OverrunningType(), 0, 0)), RawSize(OverrunningType()))
  {
    var s := OverrunningType();
    var e := s.elem;
    assert Times(2, RawSize(e)) == Times(1, RawSize(e)) + 4 && Times(1, RawSize(e)) == Times(0, RawSize(e)) + 4;
    assert Times(1, MemSize(e)) == Times(0, MemSize(e)) + 8;
    TwoElementRanges(e, 4);
    FlatStaysBelow(s, RawSize(s));
  }

  lemma TwoElementCopies(e: Schema, a: Copy, b: Copy)
    requires FieldCopies(e, 0, 0, false) == [a] && FieldCopies(e, MemSize(e), RawSize(e), false) == [b]
    ensures FieldCopies(Array(2, e), 0, 0, false) == [a, b]
  {
    assert Times(1, MemSize(e)) == Times(0, MemSize(e)) + MemSize(e) == MemSize(e);
    assert Times(1, RawSize(e)) == Times(0, RawSize(e)) + RawSize(e) == RawSize(e);
    assert ArrayCopies(1, e, 0, 0, false) == ArrayCopies(0, e, 0, 0, false) + FieldCopies(e, 0, 0, false);
    assert ArrayCopies(2, e, 0, 0, false) ==
           ArrayCopies(1, e, 0, 0, false) + FieldCopies(e, MemSize(e), RawSize(e), false);
  }

  lemma TwoRangesExpand(a: ByteRange, b: ByteRange)
    ensures Expand([a, b]) == Bytes(a) + Bytes(b)
  {
    ExpandOne(a);
    ExpandOne(b);
    ExpandConcat([a], [b]);
    assert [a] + [b] == [a, b];
  }

  lemma MisplacedSizes()
    ensures var s := MisplacedType();
            && Ranges(s, 0, 0) == [ByteRange(0, 0, 1), ByteRange(8, 8, 1)] && RawSize(s) == 10 && Reach(s) == 9
            && RawSize(s.elem) == 5 && MemSize(s.elem) == 8
  {
    var e := MisplacedType().elem;
    assert Times(2, RawSize(e)) == Times(1, RawSize(e)) + 5 && Times(1, RawSize(e)) == Times(0, RawSize(e)) + 5;
    assert Times(1, MemSize(e)) == Times(0, MemSize(e)) + 8;
    TwoElementRanges(e, 1);
  }

  lemma MisplacedCopies()
    ensures var e := MisplacedType().elem;
            FieldCopies(e, 0, 0, false) == [Copy(0, 0)] && FieldCopies(e, 8, 5, false) == [Copy(8, 5)]
  {
  }

  /** Those of a type with an ignored member there stay inside, but the second element is at the wrong place. */
  lemma FlatMisplaces()
    ensures var s := MisplacedType(); RawSize(s) == 10 && Reach(s) == 9
    ensures FieldCopies(MisplacedType(), 0, 0, false) == [Copy(0, 0), Copy(8, 5)]
    ensures Expand(Ranges(MisplacedType(), 0, 0)) == [Copy(0, 0), Copy(8, 8)]
  {
    MisplacedSizes();
    MisplacedCopies();
    TwoRangesExpand(ByteRange(0, 0, 1), ByteRange(8, 8, 1));
    TwoElementCopies(MisplacedType().elem, Copy(0, 0), Copy(8, 5));
  }
}
