/** A file of length-prefixed frames, and the source that cuts it up. */
module Framing {
  import opened BigEndian

  const SIZE_BYTES: nat := 2

  datatype ReadResult = DataFrame(frame: seq<Byte>) | InvalidFormat | StreamClosed

  /** The result of one `next` on the bytes not yet read. */
  function NextFrame(rest: seq<Byte>): ReadResult {
    if rest == [] then StreamClosed
    else if |rest| < SIZE_BYTES then InvalidFormat
    else
      var total := SIZE_BYTES + Value(rest[..SIZE_BYTES]);
      if |rest| < total then InvalidFormat else DataFrame(rest[..total])
  }

  function Flatten(frames: seq<seq<Byte>>): seq<Byte> {
    if frames == [] then [] else Flatten(frames[..|frames| - 1]) + frames[|frames| - 1]
  }

  /** A frame that says its own length. */
  predicate Prefixed(f: seq<Byte>) {
    |f| >= SIZE_BYTES && Value(f[..SIZE_BYTES]) == |f| - SIZE_BYTES
  }

  ghost predicate AllPrefixed(frames: seq<seq<Byte>>) {
    forall i :: 0 <= i < |frames| ==> Prefixed(frames[i])
  }

  /** `FileSource`: a span over the mapped file that moves past each frame it hands out. */
  class FileSource {
    var span: seq<Byte>
    ghost const file: seq<Byte>
    ghost var given: seq<seq<Byte>>

    /** The frames given out so far and the unread span make up the file. */
    ghost predicate Valid()
      reads this
    {
      Flatten(given) + span == file && AllPrefixed(given)
    }

    constructor (file: seq<Byte>)
      ensures Valid() && span == file && this.file == file && given == []
    {
      this.span := file;
      this.file := file;
      this.given := [];
    }

    method Next() returns (r: ReadResult)
      requires Valid()
      modifies this
      ensures Valid() && r == NextFrame(old(span))
      ensures r.DataFrame? ==> old(span) == r.frame + span && given == old(given) + [r.frame] && Prefixed(r.frame)
      ensures !r.DataFrame? ==> span == old(span) && given == old(given)
    {
      if |span| == 0 {
        return StreamClosed;
      }
      if |span| < SIZE_BYTES {
        return InvalidFormat;
      }
      var bodySize := Value(span[..SIZE_BYTES]);
      var total := SIZE_BYTES + bodySize;
      if |span| < total {
        return InvalidFormat;
      }
      var frame := span[..total];
      GivenGrows(given, span, total);
      given := given + [frame];
      span := span[total..];
      return DataFrame(frame);
    }
  }

  /** Moving the first `total` bytes of the span to the frames given out changes nothing in sum. */
  lemma GivenGrows(given: seq<seq<Byte>>, span: seq<Byte>, total: nat)
    requires SIZE_BYTES <= total <= |span| && AllPrefixed(given) && Value(span[..SIZE_BYTES]) == total - SIZE_BYTES
    ensures Prefixed(span[..total]) && AllPrefixed(given + [span[..total]])
    ensures Flatten(given + [span[..total]]) + span[total..] == Flatten(given) + span
  {
    var frame := span[..total];
    assert frame[..SIZE_BYTES] == span[..SIZE_BYTES];
    assert (given + [frame])[..|given|] == given;
    assert Flatten(given) + span == Flatten(given) + (frame + span[total..]);
  }

  // ----- flattening -----

  lemma {:induction false} FlattenConcat(a: seq<seq<Byte>>, b: seq<seq<Byte>>)
    ensures Flatten(a + b) == Flatten(a) + Flatten(b)
  {
    if b == [] {
      assert a + b == a;
    } else {
      var n, all := |b| - 1, a + b;
      FlattenConcat(a, b[..n]);
      assert all[..|all| - 1] == a + b[..n] && all[|all| - 1] == b[n];
      assert Flatten(all) == Flatten(a + b[..n]) + b[n];
    }
  }

  lemma FlattenOne(f: seq<Byte>)
    ensures Flatten([f]) == f
  {
    assert Flatten([f]) == Flatten([f][..0]) + f;
  }

  lemma FlattenCons(frames: seq<seq<Byte>>)
    requires frames != []
    ensures Flatten(frames) == frames[0] + Flatten(frames[1..])
  {
    FlattenConcat([frames[0]], frames[1..]);
    FlattenOne(frames[0]);
    assert [frames[0]] + frames[1..] == frames;
  }

  /** Where frame `k` begins. */
  function Offset(frames: seq<seq<Byte>>, k: nat): nat
    requires k <= |frames|
  {
    |Flatten(frames[..k])|
  }

  lemma OffsetStep(frames: seq<seq<Byte>>, k: nat)
    requires k < |frames|
    ensures Offset(frames, k + 1) == Offset(frames, k) + |frames[k]|
    ensures Flatten(frames[..k + 1]) == Flatten(frames[..k]) + frames[k]
  {
    assert frames[..k + 1][..k] == frames[..k];
  }

  lemma {:induction false} OffsetMonotone(frames: seq<seq<Byte>>, j: nat, k: nat)
    requires j <= k <= |frames|
    ensures Offset(frames, j) <= Offset(frames, k)
    ensures Flatten(frames[..k])[..Offset(frames, j)] == Flatten(frames[..j])
  {
    if j < k {
      OffsetMonotone(frames, j, k - 1);
      OffsetStep(frames, k - 1);
    }
  }

  /** Any stretch of frame `k` is found in the stream at its offset. */
  lemma FrameInStream(frames: seq<seq<Byte>>, p: nat, k: nat, i: nat, j: nat)
    requires k < p <= |frames| && i <= j <= |frames[k]|
    ensures Offset(frames, k) + j <= |Flatten(frames[..p])|
    ensures Flatten(frames[..p])[Offset(frames, k) + i..Offset(frames, k) + j] == frames[k][i..j]
  {
    OffsetMonotone(frames, k + 1, p);
    OffsetStep(frames, k);
    var stream, start := Flatten(frames[..p]), Offset(frames, k);
    assert stream[start + i..start + j] == stream[..Offset(frames, k + 1)][start + i..start + j];
  }

  // ----- splitting is exact -----

  /** The frames `next` gives out until it stops giving, and the bytes left then. */
  ghost function SplitAll(rest: seq<Byte>): (seq<seq<Byte>>, seq<Byte>)
    decreases |rest|
  {
    var r := NextFrame(rest);
    if r.DataFrame? then
      var (frames, left) := SplitAll(rest[|r.frame|..]);
      ([r.frame] + frames, left)
    else ([], rest)
  }

  lemma NextOfPrefixed(f: seq<Byte>, rest: seq<Byte>)
    requires Prefixed(f)
    ensures NextFrame(f + rest) == DataFrame(f) && (f + rest)[|f|..] == rest
  {
    assert (f + rest)[..SIZE_BYTES] == f[..SIZE_BYTES];
    assert (f + rest)[..|f|] == f;
  }

  /** A file built by length-prefixing any list of bodies is split back into that list, and then reports that
      the stream is closed. */
  lemma {:induction false} SplitInvertsFlatten(frames: seq<seq<Byte>>)
    requires AllPrefixed(frames)
    ensures SplitAll(Flatten(frames)) == (frames, []) && NextFrame([]) == StreamClosed
  {
    if frames != [] {
      FlattenCons(frames);
      NextOfPrefixed(frames[0], Flatten(frames[1..]));
      SplitInvertsFlatten(frames[1..]);
      assert [frames[0]] + frames[1..] == frames;
    }
  }

  /** Whatever the file holds, nothing is lost or invented: the frames and the leftover make it up. */
  lemma {:induction false} SplitConserves(file: seq<Byte>)
    ensures var (frames, left) := SplitAll(file);
            Flatten(frames) + left == file && AllPrefixed(frames) && !NextFrame(left).DataFrame?
    decreases |file|
  {
    var r := NextFrame(file);
    if r.DataFrame? {
      SplitConserves(file[|r.frame|..]);
      var (frames, left) := SplitAll(file);
      assert r.frame[..SIZE_BYTES] == file[..SIZE_BYTES];
      assert frames[1..] == SplitAll(file[|r.frame|..]).0;
      FlattenCons(frames);
    }
  }

  /** Exactly when the source ever reports that the stream is closed: nothing is left over if and only if the file is
      made of whole prefixed frames. Otherwise it answers "invalid format" from the leftover on, for ever. */
  lemma ClosesExactly(file: seq<Byte>)
    ensures SplitAll(file).1 == [] <==> exists frames: seq<seq<Byte>> :: AllPrefixed(frames) && Flatten(frames) == file
    ensures SplitAll(file).1 != [] ==> NextFrame(SplitAll(file).1) == InvalidFormat
  {
    SplitConserves(file);
    if frames: seq<seq<Byte>> :| AllPrefixed(frames) && Flatten(frames) == file {
      SplitInvertsFlatten(frames);
    }
    var (frames, left) := SplitAll(file);
    if left == [] {
      assert AllPrefixed(frames) && Flatten(frames) == file;
    }
  }

  /** A body under 2^16 bytes with its length in front. */
  function PrefixedBody(body: seq<Byte>): (f: seq<Byte>)
    requires |body| < 0x1_0000
    ensures Prefixed(f) && f[SIZE_BYTES..] == body
  {
    ValueOfWireBytes(|body|, SIZE_BYTES);
    assert Limit(2) == 0x1_0000 by { assert Limit(1) == 0x100; }
    WireBytes(|body|, SIZE_BYTES) + body
  }

  /** A file made of any bodies, each with its length in front. */
  function FileOf(bodies: seq<seq<Byte>>): (frames: seq<seq<Byte>>)
    requires forall b <- bodies :: |b| < 0x1_0000
    ensures |frames| == |bodies| && AllPrefixed(frames)
    ensures forall i :: 0 <= i < |bodies| ==> frames[i][SIZE_BYTES..] == bodies[i]
  {
    seq(|bodies|, i requires 0 <= i < |bodies| => PrefixedBody(bodies[i]))
  }

  /** Writing any list of bodies with length prefixes and splitting the file gives the bodies back, in order and
      with nothing left over. */
  lemma BodiesRoundTrip(bodies: seq<seq<Byte>>)
    requires forall b <- bodies :: |b| < 0x1_0000
    ensures var (frames, left) := SplitAll(Flatten(FileOf(bodies)));
            && left == [] && |frames| == |bodies|
            && forall i :: 0 <= i < |bodies| ==> |frames[i]| >= SIZE_BYTES && frames[i][SIZE_BYTES..] == bodies[i]
  {
    SplitInvertsFlatten(FileOf(bodies));
  }
}
