/** Blob headers and the two content framings: segments behind 16-bit lengths, or raw bytes. */
module BlobFraming {
  import opened Words
  import opened Power
  import opened ByteStrings
  import opened LittleEndian
  import opened Layout

  datatype Option<T> = None | Some(value: T)

  const BLOB_FLAG: nat := 16
  const STREAM_FLAG: nat := 32
  const HEADER_SIZE: nat := 28

  datatype BlobHeader = BlobHeader(leadPage: u32, maxSequence: u32, maxSegment: u16, flags: u16, count: u32, length: u64,
                                   subType: u16, charset: u8, level: u8) {
    function Encode(): (b: Bytes)
      ensures |b| == HEADER_SIZE
    {
      Le(leadPage as nat, 4) + Le(maxSequence as nat, 4) + Le(maxSegment as nat, 2) + Le(flags as nat, 2)
      + Le(count as nat, 4) + Le(length as nat, 8) + Le(subType as nat, 2) + [charset, level]
    }

    predicate IsStream() {
      flags as nat / STREAM_FLAG % 2 == 1
    }
  }

  /** A slot's leading 28 bytes, when its flags say it is a blob. */
  function Decode(slot: Bytes): Option<BlobHeader> {
    if |slot| < HEADER_SIZE then None
    else if LeAt(slot, 10, 2) / BLOB_FLAG % 2 == 0 then None
    else Some(HeaderOf(slot))
  }

  function HeaderOf(slot: Bytes): BlobHeader
    requires |slot| >= HEADER_SIZE
  {
    Widths();
    LeValBound(slot[0..4]);
    LeValBound(slot[4..8]);
    LeValBound(slot[8..10]);
    LeValBound(slot[10..12]);
    LeValBound(slot[12..16]);
    LeValBound(slot[16..24]);
    LeValBound(slot[24..26]);
    BlobHeader(LeAt(slot, 0, 4) as u32, LeAt(slot, 4, 4) as u32, LeAt(slot, 8, 2) as u16, LeAt(slot, 10, 2) as u16,
               LeAt(slot, 12, 4) as u32, LeAt(slot, 16, 8) as u64, LeAt(slot, 24, 2) as u16, slot[26], slot[27])
  }

  /** Every field is where the decoder looks for it, whatever follows the header. */
  lemma HeaderRoundTrip(h: BlobHeader, rest: Bytes)
    ensures HeaderOf(h.Encode() + rest) == h
    ensures Decode(h.Encode() + rest) == if h.flags as nat / BLOB_FLAG % 2 == 1 then Some(h) else None
  {
    hide Le, LeVal;
    Widths();
    var b := h.Encode() + rest;
    assert b[0..4] == Le(h.leadPage as nat, 4) && b[4..8] == Le(h.maxSequence as nat, 4) && b[8..10] == Le(h.maxSegment as nat, 2);
    assert b[10..12] == Le(h.flags as nat, 2) && b[12..16] == Le(h.count as nat, 4) && b[16..24] == Le(h.length as nat, 8);
    assert b[24..26] == Le(h.subType as nat, 2);
    LeRoundTrip(h.leadPage as nat, 4);
    LeRoundTrip(h.maxSequence as nat, 4);
    LeRoundTrip(h.maxSegment as nat, 2);
    LeRoundTrip(h.flags as nat, 2);
    LeRoundTrip(h.count as nat, 4);
    LeRoundTrip(h.length as nat, 8);
    LeRoundTrip(h.subType as nat, 2);
  }

  /** The header's layout, read without the decoder: the numbers least byte first at their offsets, the
      character set in byte 26 and the level in byte 27. */
  predicate HeaderLaid(slot: Bytes, h: BlobHeader)
    requires |slot| >= 28
  {
    && Word32(slot, 0) == h.leadPage as nat && Word32(slot, 4) == h.maxSequence as nat
    && Word16(slot, 8) == h.maxSegment as nat && Word16(slot, 10) == h.flags as nat
    && Word32(slot, 12) == h.count as nat && Word64(slot, 16) == h.length as nat && Word16(slot, 24) == h.subType as nat
    && slot[26] == h.charset && slot[27] == h.level
  }

  /** The decoder looks exactly there, and takes a slot for a blob by bit 16 of the flags alone. */
  lemma DecodedFrom(slot: Bytes)
    requires |slot| >= 28
    ensures HeaderLaid(slot, HeaderOf(slot))
    ensures Decode(slot) == if Word16(slot, 10) / 16 % 2 == 1 then Some(HeaderOf(slot)) else None
  {
    hide LeAt, Word16, Word32, Word64;
    WordsAt(slot, 0);
    WordsAt(slot, 4);
    WordsAt(slot, 8);
    WordsAt(slot, 10);
    WordsAt(slot, 12);
    WordsAt(slot, 16);
    WordsAt(slot, 24);
  }

  /** The encoder puts every field there. */
  lemma EncodedAt(h: BlobHeader, rest: Bytes)
    ensures |h.Encode()| == 28 && HeaderLaid(h.Encode() + rest, h)
  {
    hide HeaderLaid, HeaderOf;
    HeaderRoundTrip(h, rest);
    DecodedFrom(h.Encode() + rest);
  }

  /** A framed segment: its length in two bytes, the lesser first, and its bytes. */
  lemma FramedAs(segments: seq<Bytes>)
    requires segments != [] && |segments[0]| < 0x1_0000
    ensures Frame(segments) == [(|segments[0]| % 0x100) as u8, (|segments[0]| / 0x100) as u8] + segments[0] + Frame(segments[1..])
  {
    hide Word16;
    var n := |segments[0]|;
    var b := Le(n, 2);
    WordsWritten(n);
    assert Word16(b, 0) == b[0] as nat + 0x100 * b[1] as nat by {
      SpelledOut(b);
    }
    assert b == [(n % 0x100) as u8, (n / 0x100) as u8];
  }

  lemma SpelledOut(b: Bytes)
    requires |b| == 2
    ensures Word16(b, 0) == b[0] as nat + 0x100 * b[1] as nat
  {
  }

  // ------------------------------------------------------------------ segments

  function Flatten(segments: seq<Bytes>): Bytes {
    if segments == [] then [] else segments[0] + Flatten(segments[1..])
  }

  /** `[u16 length][payload]` per segment. */
  function Frame(segments: seq<Bytes>): Bytes {
    if segments == [] then [] else Le(|segments[0]|, 2) + segments[0] + Frame(segments[1..])
  }

  predicate Framable(segments: seq<Bytes>) {
    forall i :: 0 <= i < |segments| ==> |segments[i]| < 0x1_0000
  }

  /** The segments an iterator yields from a byte stream with `remaining` payload bytes to go: it ends
      when nothing remains, when no length fits, or when a segment runs past the stream. */
  function Segments(raw: Bytes, remaining: nat): seq<Bytes>
    decreases |raw|
  {
    if remaining == 0 || |raw| < 2 then []
    else
      var n := LeAt(raw, 0, 2);
      if 2 + n > |raw| then []
      else [raw[2..2 + n]] + Segments(raw[2 + n..], if remaining < n then 0 else remaining - n)
  }

  predicate AllEmpty(segments: seq<Bytes>) {
    forall i :: 0 <= i < |segments| ==> segments[i] == []
  }

  /** The list without its trailing empty segments. */
  function WithoutTrailingEmpty(segments: seq<Bytes>): seq<Bytes> {
    if AllEmpty(segments) then [] else [segments[0]] + WithoutTrailingEmpty(segments[1..])
  }

  lemma {:induction false} FlattenEmpty(segments: seq<Bytes>)
    ensures |Flatten(segments)| == 0 <==> AllEmpty(segments)
  {
    if segments != [] {
      FlattenEmpty(segments[1..]);
      if AllEmpty(segments[1..]) && segments[0] == [] {
        assert forall i :: 0 <= i < |segments| ==> segments[i] == if i == 0 then segments[0] else segments[1..][i - 1];
      }
    }
  }

  /** Reading a framed stream gives the segments back up to trailing empty ones: with no payload
      remaining the iterator stops, and cannot see them. Bytes after the frames do not matter. */
  lemma {:induction false} SegmentsOfFrame(segments: seq<Bytes>, slack: Bytes)
    requires Framable(segments)
    ensures Segments(Frame(segments) + slack, |Flatten(segments)|) == WithoutTrailingEmpty(segments)
  {
    hide Le, Segments;
    FlattenEmpty(segments);
    if AllEmpty(segments) {
      NoSegments(Frame(segments) + slack);
    } else {
      var first, rest := segments[0], segments[1..];
      assert Frame(segments) + slack == Le(|first|, 2) + first + (Frame(rest) + slack);
      OneSegment(first, Frame(rest) + slack, |Flatten(rest)|);
      SegmentsOfFrame(rest, slack);
    }
  }

  lemma NoSegments(raw: Bytes)
    ensures Segments(raw, 0) == []
  {
  }

  lemma OneSegment(first: Bytes, rest: Bytes, remaining: nat)
    requires |first| < 0x1_0000 && |first| + remaining > 0
    ensures Segments(Le(|first|, 2) + first + rest, |first| + remaining) == [first] + Segments(rest, remaining)
  {
    hide Le, LeVal;
    var n := |first|;
    var raw := Le(n, 2) + first + rest;
    Widths();
    LeRoundTrip(n, 2);
    assert raw[0..2] == Le(n, 2);
    assert raw[2..2 + n] == first;
    assert raw[2 + n..] == rest;
  }

  lemma {:induction false} NothingDropped(segments: seq<Bytes>)
    ensures WithoutTrailingEmpty(segments) == segments <==> segments == [] || segments[|segments| - 1] != []
  {
    if !AllEmpty(segments) {
      NothingDropped(segments[1..]);
      assert segments == [segments[0]] + segments[1..];
    } else if segments != [] {
      assert segments[|segments| - 1] == [];
    }
  }

  /** The segment list comes back whole exactly when it does not end in an empty segment. */
  lemma SegmentsExactly(segments: seq<Bytes>)
    requires Framable(segments)
    ensures Segments(Frame(segments), |Flatten(segments)|) == segments <==> segments == [] || segments[|segments| - 1] != []
  {
    assert Frame(segments) + [] == Frame(segments);
    SegmentsOfFrame(segments, []);
    NothingDropped(segments);
  }

  lemma {:induction false} FlattenWithoutTrailingEmpty(segments: seq<Bytes>)
    ensures Flatten(WithoutTrailingEmpty(segments)) == Flatten(segments)
  {
    FlattenEmpty(segments);
    if !AllEmpty(segments) {
      FlattenWithoutTrailingEmpty(segments[1..]);
    }
  }

  // ------------------------------------------------------------------ the iterator and the content

  /** `SegmentIter`: a cursor over the framed stream. */
  class SegmentIter {
    const raw: Bytes
    var at: nat
    var remaining: nat

    predicate Valid()
      reads this
    {
      at <= |raw|
    }

    constructor (raw: Bytes, remaining: nat)
      ensures this.raw == raw && Valid() && at == 0 && this.remaining == remaining
    {
      this.raw, at, this.remaining := raw, 0, remaining;
    }

    /** The next segment, if the stream still has one: exactly the head of what is left. */
    method Next() returns (segment: Option<Bytes>)
      requires Valid()
      modifies this
      ensures Valid()
      ensures match segment
              case None => old(Segments(raw[at..], remaining)) == []
              case Some(s) => old(Segments(raw[at..], remaining)) == [s] + Segments(raw[at..], remaining)
      ensures segment.Some? ==> at > old(at)
    {
      if remaining == 0 || at + 2 > |raw| {
        return None;
      }
      ghost var left := raw[at..];
      assert left[0..2] == raw[at..at + 2];
      var n := LeAt(raw, at, 2);
      at := at + 2;
      if at + n > |raw| {
        return None;
      }
      segment := Some(raw[at..at + n]);
      assert left[2..2 + n] == raw[at..at + n];
      at := at + n;
      assert left[2 + n..] == raw[at..];
      remaining := if remaining < n then 0 else remaining - n;
    }
  }

  /** `Blob::content`: raw bytes up to the recorded length, or the segments joined. */
  method Content(header: BlobHeader, raw: Bytes) returns (content: Bytes)
    ensures content == ContentOf(header, raw)
  {
    if header.IsStream() {
      return raw[..if header.length as nat < |raw| then header.length as nat else |raw|];
    }
    var it := new SegmentIter(raw, header.length as nat);
    content := [];
    ghost var all := Segments(raw, header.length as nat);
    assert raw[0..] == raw;
    ghost var taken: seq<Bytes> := [];
    while true
      invariant it.Valid() && it.raw == raw && fresh(it)
      invariant taken + Segments(raw[it.at..], it.remaining) == all
      invariant content == Flatten(taken)
      decreases |raw| - it.at
    {
      ghost var left := Segments(raw[it.at..], it.remaining);
      var segment := it.Next();
      if segment == None {
        break;
      }
      FlattenSnoc(taken, segment.value);
      assert taken + left == taken + [segment.value] + Segments(raw[it.at..], it.remaining);
      content := content + segment.value;
      taken := taken + [segment.value];
    }
    assert taken == all;
  }

  lemma {:induction false} FlattenSnoc(a: seq<Bytes>, b: Bytes)
    ensures Flatten(a + [b]) == Flatten(a) + b
  {
    if a == [] {
      assert a + [b] == [b] && Flatten([b]) == b + Flatten([b][1..]);
    } else {
      FlattenSnoc(a[1..], b);
      assert (a + [b])[1..] == a[1..] + [b];
    }
  }

  function ContentOf(header: BlobHeader, raw: Bytes): Bytes {
    if header.IsStream() then raw[..if header.length as nat < |raw| then header.length as nat else |raw|]
    else Flatten(Segments(raw, header.length as nat))
  }
}
