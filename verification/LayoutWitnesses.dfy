/** What the conditions on a type mean, member by member, and one object written and read byte by byte. */
module LayoutWitnesses {
  import opened BigEndian
  import opened Layout
  import opened Copying

  predicate MemberFits(m: Members, size: nat) {
    m.Member? ==> Fits(m.schema) && m.offset + MemSize(m.schema) <= size
  }

  ghost predicate AllFit(ms: Members, size: nat) {
    forall j: nat :: MemberFits(Nth(ms, j), size)
  }

  lemma AllFitByParts(ms: Members, size: nat)
    requires ms.Member?
    ensures AllFit(ms, size) <==> MemberFits(ms, size) && AllFit(ms.rest, size)
  {
    var rest := ms.rest;
    if AllFit(ms, size) {
      assert MemberFits(Nth(ms, 0), size);
      forall j: nat ensures MemberFits(Nth(rest, j), size) {
        var next := j + 1;
        assert MemberFits(Nth(ms, next), size);
      }
    }
    if MemberFits(ms, size) && AllFit(rest, size) {
      forall j: nat ensures MemberFits(Nth(ms, j), size) {
        if j > 0 {
          assert MemberFits(Nth(rest, j - 1), size);
        }
      }
    }
  }

  /** A type fits if and only if every member of every aggregate in it lies within the aggregate. */
  lemma FitsExactly(s: Schema)
    ensures Fits(s) <==>
            match s
            case Scalar(_) => true
            case Array(_, e) => Fits(e)
            case Aggregate(size, ms) => AllFit(ms, size)
  {
    if s.Aggregate? {
      FitMembersExactly(s.members, s.size);
    }
  }

  lemma {:induction false} FitMembersExactly(ms: Members, size: nat)
    ensures FitMembers(ms, size) <==> AllFit(ms, size)
  {
    if ms.Member? {
      FitMembersExactly(ms.rest, size);
      AllFitByParts(ms, size);
    }
  }

  /** The two members do not overlap in memory, if both are transferred. */
  predicate KeepApart(m: Members, n: Members) {
    m.Member? && n.Member? && m.mark.Plain? && n.mark.Plain? ==>
      m.offset + MemSize(m.schema) <= n.offset || n.offset + MemSize(n.schema) <= m.offset
  }

  predicate MemberDisjoint(m: Members) {
    m.Member? && m.mark.Plain? ==> Disjoint(m.schema)
  }

  ghost predicate ApartFromAll(m: Members, ms: Members) {
    forall k: nat :: KeepApart(m, Nth(ms, k))
  }

  lemma ApartFromAllByParts(m: Members, ms: Members)
    requires ms.Member?
    ensures ApartFromAll(m, ms) <==> KeepApart(m, ms) && ApartFromAll(m, ms.rest)
  {
    var rest := ms.rest;
    if ApartFromAll(m, ms) {
      assert KeepApart(m, Nth(ms, 0));
      forall k: nat ensures KeepApart(m, Nth(rest, k)) {
        var next := k + 1;
        assert KeepApart(m, Nth(ms, next));
      }
    }
    if KeepApart(m, ms) && ApartFromAll(m, rest) {
      forall k: nat ensures KeepApart(m, Nth(ms, k)) {
        if k > 0 {
          assert KeepApart(m, Nth(rest, k - 1));
        }
      }
    }
  }

  lemma {:induction false} ApartExactly(m: Members, ms: Members)
    requires m.Member? && m.mark.Plain?
    ensures Apart(m.offset, MemSize(m.schema), ms) <==> ApartFromAll(m, ms)
    decreases ms
  {
    if ms.Member? {
      ApartExactly(m, ms.rest);
      ApartFromAllByParts(m, ms);
    }
  }

  /** A type is disjoint if and only if no two transferred members of an aggregate in it overlap. */
  lemma DisjointExactly(s: Schema)
    ensures Disjoint(s) <==>
            match s
            case Scalar(_) => true
            case Array(_, e) => Disjoint(e)
            case Aggregate(_, ms) => AllDisjoint(ms) && AllApart(ms)
  {
    if s.Aggregate? {
      DisjointMembersExactly(s.members);
    }
  }

  ghost predicate AllDisjoint(ms: Members) {
    forall j: nat :: MemberDisjoint(Nth(ms, j))
  }

  ghost predicate AllApart(ms: Members) {
    forall j: nat, k: nat :: j < k ==> KeepApart(Nth(ms, j), Nth(ms, k))
  }

  lemma {:induction false} DisjointMembersExactly(ms: Members)
    ensures DisjointMembers(ms) <==> AllDisjoint(ms) && AllApart(ms)
  {
    if ms.Member? {
      DisjointMembersExactly(ms.rest);
      AllDisjointByParts(ms);
      AllApartByParts(ms);
      if ms.mark.Plain? {
        ApartExactly(ms, ms.rest);
      }
    }
  }

  lemma AllDisjointByParts(ms: Members)
    requires ms.Member?
    ensures AllDisjoint(ms) <==> MemberDisjoint(ms) && AllDisjoint(ms.rest)
  {
    var rest := ms.rest;
    if AllDisjoint(ms) {
      assert MemberDisjoint(Nth(ms, 0));
      forall j: nat ensures MemberDisjoint(Nth(rest, j)) {
        var next := j + 1;
        assert MemberDisjoint(Nth(ms, next));
      }
    }
    if MemberDisjoint(ms) && AllDisjoint(rest) {
      forall j: nat ensures MemberDisjoint(Nth(ms, j)) {
        if j > 0 {
          assert MemberDisjoint(Nth(rest, j - 1));
        }
      }
    }
  }

  lemma AllApartByParts(ms: Members)
    requires ms.Member?
    ensures AllApart(ms) <==> ApartFromAll(ms, ms.rest) && AllApart(ms.rest)
  {
    var rest := ms.rest;
    if AllApart(ms) {
      forall k: nat ensures KeepApart(ms, Nth(rest, k)) {
        var next := k + 1;
        assert KeepApart(Nth(ms, 0), Nth(ms, next));
      }
      assert ApartFromAll(ms, rest);
      forall j: nat, k: nat | j < k ensures KeepApart(Nth(rest, j), Nth(rest, k)) {
        var j', k' := j + 1, k + 1;
        assert KeepApart(Nth(ms, j'), Nth(ms, k'));
      }
    }
    if ApartFromAll(ms, rest) && AllApart(rest) {
      forall j: nat, k: nat | j < k ensures KeepApart(Nth(ms, j), Nth(ms, k)) {
        if j > 0 {
          assert KeepApart(Nth(rest, j - 1), Nth(rest, k - 1));
        } else {
          assert KeepApart(ms, Nth(rest, k - 1));
        }
      }
    }
  }

  // ----- one object -----

  /** A struct of twelve bytes: a number of two bytes, an ignored byte, a skipped number of four, and two more of
      two. */
  function Sample(): Schema {
    Aggregate(12, Member(0, Plain, Scalar(2), Member(2, Ignored, Scalar(1),
                  Member(4, Skipped, Scalar(4), Member(8, Plain, Array(2, Scalar(2)), End)))))
  }

  lemma NumberCopies(mem: nat, wire: nat, swap: bool)
    ensures FieldCopies(Scalar(2), mem, wire, swap) ==
            if swap then [Copy(mem + 1, wire), Copy(mem, wire + 1)] else [Copy(mem, wire), Copy(mem + 1, wire + 1)]
  {
  }

  lemma PairCopies(mem: nat, wire: nat, swap: bool)
    ensures FieldCopies(Array(2, Scalar(2)), mem, wire, swap) ==
            FieldCopies(Scalar(2), mem, wire, swap) + FieldCopies(Scalar(2), mem + 2, wire + 2, swap)
  {
    var two := Scalar(2);
    assert ArrayCopies(1, two, mem, wire, swap) == FieldCopies(two, mem, wire, swap);
  }

  /** The copies of a struct with a transferred, an ignored, a skipped and another transferred member. */
  lemma FourMembers(a: Schema, o: nat, ignored: Schema, p: nat, skipped: Schema, q: nat, b: Schema, size: nat,
                    mem: nat, wire: nat, swap: bool)
    ensures var s := Aggregate(size, Member(0, Plain, a, Member(o, Ignored, ignored,
                               Member(p, Skipped, skipped, Member(q, Plain, b, End)))));
            && RawSize(s) == RawSize(a) + RawSize(ignored) + RawSize(b)
            && FieldCopies(s, mem, wire, swap) ==
               FieldCopies(a, mem, wire, swap) + FieldCopies(b, mem + q, wire + RawSize(a) + RawSize(ignored), swap)
  {
    var last := Member(q, Plain, b, End);
    var third := Member(p, Skipped, skipped, last);
    var second := Member(o, Ignored, ignored, third);
    var w := wire + RawSize(a);
    assert RawSizeOfMembers(last) == RawSize(b) + 0 && RawSizeOfMembers(third) == 0 + RawSizeOfMembers(last);
    assert RawSizeOfMembers(second) == RawSize(ignored) + RawSizeOfMembers(third);
    var v := w + RawSize(ignored);
    assert MemberCopies(last, mem, v, swap) == FieldCopies(b, mem + q, v, swap) + [];
    assert MemberCopies(second, mem, w, swap) == [] + MemberCopies(third, mem, v, swap);
    assert MemberCopies(Member(0, Plain, a, second), mem, wire, swap) ==
           FieldCopies(a, mem + 0, wire, swap) + MemberCopies(second, mem, w, swap);
  }

  lemma SampleCopies(swap: bool)
    ensures RawSize(Sample()) == 7
    ensures FieldCopies(Sample(), 0, 0, swap) ==
            if swap then [Copy(1, 0), Copy(0, 1), Copy(9, 3), Copy(8, 4), Copy(11, 5), Copy(10, 6)]
            else [Copy(0, 0), Copy(1, 1), Copy(8, 3), Copy(9, 4), Copy(10, 5), Copy(11, 6)]
  {
    var s, one, two, four: Schema := Sample(), Scalar(1), Scalar(2), Scalar(4);
    SampleParts(s, one, two, four, Array(2, two), swap);
  }

  lemma SampleParts(s: Schema, one: Schema, two: Schema, four: Schema, pair: Schema, swap: bool)
    requires one == Scalar(1) && two == Scalar(2) && four == Scalar(4) && pair == Array(2, two)
    requires s == Aggregate(12, Member(0, Plain, two, Member(2, Ignored, one,
                                Member(4, Skipped, four, Member(8, Plain, pair, End)))))
    ensures RawSize(s) == 7
    ensures FieldCopies(s, 0, 0, swap) ==
            if swap then [Copy(1, 0), Copy(0, 1), Copy(9, 3), Copy(8, 4), Copy(11, 5), Copy(10, 6)]
            else [Copy(0, 0), Copy(1, 1), Copy(8, 3), Copy(9, 4), Copy(10, 5), Copy(11, 6)]
  {
    FourMembers(two, 2, one, 4, four, 8, pair, 12, 0, 0, swap);
    TimesIsProduct(2, 2);
    PairCopies(8, 3, swap);
    NumberCopies(0, 0, swap);
    NumberCopies(8, 3, swap);
    NumberCopies(10, 5, swap);
  }

  /** Its serialisation, whatever it holds: with `swap` the bytes of each number are reversed; the ignored member's
      place on the wire is left alone, and the skipped member has none. */
  lemma SampleWritten(x: seq<Byte>, wire: seq<Byte>)
    requires |x| == 12 && |wire| == 7
    ensures Transfer(wire, x, FieldCopies(Sample(), 0, 0, false), Out) ==
            [x[0], x[1], wire[2], x[8], x[9], x[10], x[11]]
    ensures Transfer(wire, x, FieldCopies(Sample(), 0, 0, true), Out) ==
            [x[1], x[0], wire[2], x[9], x[8], x[11], x[10]]
  {
    SampleCopies(false);
    SampleCopies(true);
    SixWritten(x, wire, false, FieldCopies(Sample(), 0, 0, false));
    SixWritten(x, wire, true, FieldCopies(Sample(), 0, 0, true));
  }

  lemma SixWritten(x: seq<Byte>, wire: seq<Byte>, swap: bool, cs: seq<Copy>)
    requires |x| == 12 && |wire| == 7
    requires cs == if swap then [Copy(1, 0), Copy(0, 1), Copy(9, 3), Copy(8, 4), Copy(11, 5), Copy(10, 6)]
                   else [Copy(0, 0), Copy(1, 1), Copy(8, 3), Copy(9, 4), Copy(10, 5), Copy(11, 6)]
    ensures Transfer(wire, x, cs, Out) ==
            if swap then [x[1], x[0], wire[2], x[9], x[8], x[11], x[10]]
            else [x[0], x[1], wire[2], x[8], x[9], x[10], x[11]]
  {
    var r := Transfer(wire, x, cs, Out);
    forall i: nat | i < 6 ensures r[cs[i].wire] == x[cs[i].mem] {
      WrittenAt(x, wire, cs, i);
    }
    TransferKeeps(wire, x, cs, Out, 2);
    SixPlaces(x, wire, swap, cs, r);
  }

  lemma SixPlaces(x: seq<Byte>, wire: seq<Byte>, swap: bool, cs: seq<Copy>, r: seq<Byte>)
    requires |x| == 12 && |wire| == 7 == |r|
    requires cs == if swap then [Copy(1, 0), Copy(0, 1), Copy(9, 3), Copy(8, 4), Copy(11, 5), Copy(10, 6)]
                   else [Copy(0, 0), Copy(1, 1), Copy(8, 3), Copy(9, 4), Copy(10, 5), Copy(11, 6)]
    requires (forall i: nat :: i < 6 ==> r[cs[i].wire] == x[cs[i].mem]) && r[2] == wire[2]
    ensures r == if swap then [x[1], x[0], wire[2], x[9], x[8], x[11], x[10]]
                 else [x[0], x[1], wire[2], x[8], x[9], x[10], x[11]]
  {
    assert r[cs[0].wire] == x[cs[0].mem] && r[cs[1].wire] == x[cs[1].mem] && r[cs[2].wire] == x[cs[2].mem];
    assert r[cs[3].wire] == x[cs[3].mem] && r[cs[4].wire] == x[cs[4].mem] && r[cs[5].wire] == x[cs[5].mem];
  }

  /** And its deserialisation: the ignored and the skipped member and the padding keep their bytes. */
  lemma SampleRead(x: seq<Byte>, wire: seq<Byte>, p: nat)
    requires |x| == 12 && |wire| == 7 && p < 12
    ensures Transfer(x, wire, FieldCopies(Sample(), 0, 0, false), In)[p] ==
            if p < 2 then wire[p] else if p < 8 then x[p] else wire[p - 5]
    ensures Transfer(x, wire, FieldCopies(Sample(), 0, 0, true), In)[p] ==
            if p < 2 then wire[1 - p] else if p < 8 then x[p] else if p < 10 then wire[12 - p] else wire[16 - p]
  {
    SampleCopies(false);
    SampleCopies(true);
    SixRead(x, wire, false, FieldCopies(Sample(), 0, 0, false), p);
    SixRead(x, wire, true, FieldCopies(Sample(), 0, 0, true), p);
  }

  lemma SixRead(x: seq<Byte>, wire: seq<Byte>, swap: bool, cs: seq<Copy>, p: nat)
    requires |x| == 12 && |wire| == 7 && p < 12
    requires cs == if swap then [Copy(1, 0), Copy(0, 1), Copy(9, 3), Copy(8, 4), Copy(11, 5), Copy(10, 6)]
                   else [Copy(0, 0), Copy(1, 1), Copy(8, 3), Copy(9, 4), Copy(10, 5), Copy(11, 6)]
    ensures Transfer(x, wire, cs, In)[p] ==
            if 2 <= p < 8 then x[p]
            else if swap then wire[if p < 2 then 1 - p else if p < 10 then 12 - p else 16 - p]
            else wire[if p < 2 then p else p - 5]
  {
    if 2 <= p < 8 {
      TransferKeeps(x, wire, cs, In, p);
    } else {
      var k := if p < 2 then p else p - 6;
      var i := if swap then (if k % 2 == 0 then k + 1 else k - 1) else k;
      assert cs[i].mem == p;
      ReadAt(x, wire, cs, i);
    }
  }
}
