/** The difference file of a database in backup mode: a table of page numbers on an allocation page,
    and the pages themselves behind it, laid over the frozen image by whoever reads the database. */
module DeltaFile {
  import opened Words
  import opened Power
  import opened ByteStrings
  import opened LittleEndian

  datatype Result<T> = Ok(value: T) | Err(reason: string)

  /** A database page number, and the page position of the file that holds it. */
  datatype Entry = Entry(page: nat, pos: nat)

  datatype Change = Change(page: nat, data: Bytes)

  /** The entries one allocation page has room for. */
  function PerAlloc(ps: nat): (n: nat)
    requires ps >= 8
    ensures n > 0 && 4 * n + 4 <= ps
  {
    ps / 4 - 1
  }

  // ------------------------------------------------------------------ bytes

  function Splice(b: Bytes, at: nat, data: Bytes): (r: Bytes)
    requires at + |data| <= |b|
    ensures |r| == |b|
    ensures r[at..at + |data|] == data
    ensures forall k :: 0 <= k < |b| && !(at <= k < at + |data|) ==> r[k] == b[k]
  {
    b[..at] + data + b[at + |data|..]
  }

  /** `resize(n, 0)` when the file is shorter than that. */
  function Grown(b: Bytes, n: nat): (r: Bytes)
    ensures |r| == if |b| < n then n else |b|
    ensures r[..|b|] == b
    ensures forall k :: |b| <= k < |r| ==> r[k] == 0
  {
    if |b| < n then b + seq(n - |b|, i => 0 as u8) else b
  }

  function U32At(b: Bytes, at: nat): (x: nat)
    requires at + 4 <= |b|
    ensures x < BASE
  {
    Widths();
    LeValBound(b[at..at + 4]);
    LeAt(b, at, 4)
  }

  lemma SpliceKeeps(b: Bytes, at: nat, data: Bytes, i: nat, j: nat)
    requires at + |data| <= |b| && i <= j <= |b| && (j <= at || at + |data| <= i)
    ensures Splice(b, at, data)[i..j] == b[i..j]
  {
  }

  lemma SplicedWord(b: Bytes, at: nat, x: nat)
    requires at + 4 <= |b| && x < BASE
    ensures U32At(Splice(b, at, Le(x, 4)), at) == x
  {
    Widths();
    LeRoundTrip(x, 4);
  }

  // ------------------------------------------------------------------ pages of the file

  predicate HasPage(b: Bytes, ps: nat, pos: nat) {
    pos * ps + ps <= |b|
  }

  function PageAt(b: Bytes, ps: nat, pos: nat): (page: Bytes)
    requires HasPage(b, ps, pos)
    ensures |page| == ps
  {
    b[pos * ps..pos * ps + ps]
  }

  lemma PagesApart(ps: nat, p: nat, q: nat)
    requires p < q
    ensures p * ps + ps <= q * ps
  {
    MulLeft(p + 1, q, ps);
    MulDistributes(ps, p, 1);
  }

  // ------------------------------------------------------------------ the table

  /** The entries of the allocation page at a position. */
  function TableAt(delta: Bytes, ps: nat, alloc: nat, n: nat): (t: seq<Entry>)
    requires ps >= 8 && HasPage(delta, ps, alloc) && n <= PerAlloc(ps)
    ensures |t| == n
  {
    seq(n, i requires 0 <= i < n => Entry(U32At(delta, alloc * ps + 4 + 4 * i), alloc + 1 + i))
  }

  function CountAt(delta: Bytes, ps: nat, alloc: nat): nat
    requires ps >= 8 && HasPage(delta, ps, alloc)
  {
    U32At(delta, alloc * ps)
  }

  function Prepend(t: seq<Entry>, r: Result<seq<Entry>>): Result<seq<Entry>> {
    match r
    case Ok(rest) => Ok(t + rest)
    case Err(e) => Err(e)
  }

  /** The table from the allocation page at `alloc` on: a full page sends the reader to the next one. */
  function TableFrom(delta: Bytes, ps: nat, alloc: nat): Result<seq<Entry>>
    requires ps >= 8
    decreases |delta| - alloc * ps
  {
    if !HasPage(delta, ps, alloc) then Err("a difference allocation page runs past the file")
    else
      var count := CountAt(delta, ps, alloc);
      var per := PerAlloc(ps);
      if count > per then Err("a difference allocation count is impossible")
      else if count < per then Ok(TableAt(delta, ps, alloc, count))
      else
        PagesApart(ps, alloc, alloc + per + 1);
        Prepend(TableAt(delta, ps, alloc, count), TableFrom(delta, ps, alloc + per + 1))
  }

  function Table(delta: Bytes, ps: nat): Result<seq<Entry>> {
    if ps < 8 || |delta| < ps then Err("not a difference file") else TableFrom(delta, ps, 0)
  }

  /** The entries of one allocation page, read in order. */
  method ReadEntries(delta: Bytes, ps: nat, alloc: nat, count: nat) returns (t: seq<Entry>)
    requires ps >= 8 && HasPage(delta, ps, alloc) && count <= PerAlloc(ps)
    ensures t == TableAt(delta, ps, alloc, count)
  {
    hide U32At;
    t := [];
    for i := 0 to count
      invariant t == TableAt(delta, ps, alloc, count)[..i]
    {
      t := t + [Entry(U32At(delta, alloc * ps + 4 + 4 * i), alloc + 1 + i)];
    }
  }

  /** `delta_entries`. */
  method DeltaEntries(delta: Bytes, ps: nat) returns (r: Result<seq<Entry>>)
    ensures r == Table(delta, ps)
  {
    if ps < 8 || |delta| < ps {
      return Err("not a difference file");
    }
    hide U32At, PerAlloc, TableAt, Prepend;
    var per := PerAlloc(ps);
    var out: seq<Entry> := [];
    var alloc := 0;
    NothingBefore(TableFrom(delta, ps, 0));
    while true
      invariant Table(delta, ps) == Prepend(out, TableFrom(delta, ps, alloc))
      decreases |delta| - alloc * ps
    {
      PrependResult(out, TableFrom(delta, ps, alloc));
      if !HasPage(delta, ps, alloc) {
        return Err("a difference allocation page runs past the file");
      }
      var count := CountAt(delta, ps, alloc);
      if count > per {
        return Err("a difference allocation count is impossible");
      }
      var t := ReadEntries(delta, ps, alloc, count);
      if count != per {
        return Ok(out + t);
      }
      PagesApart(ps, alloc, alloc + per + 1);
      PrependTwice(out, t, TableFrom(delta, ps, alloc + per + 1));
      out := out + t;
      alloc := alloc + per + 1;
    }
  }

  lemma PrependResult(s: seq<Entry>, r: Result<seq<Entry>>)
    ensures Prepend(s, r) == if r.Ok? then Ok(s + r.value) else r
  {
  }

  lemma NothingBefore(r: Result<seq<Entry>>)
    ensures Prepend([], r) == r
  {
    if r.Ok? {
      assert [] + r.value == r.value;
    }
  }

  lemma PrependTwice(s: seq<Entry>, t: seq<Entry>, r: Result<seq<Entry>>)
    ensures Prepend(s, Prepend(t, r)) == Prepend(s + t, r)
  {
    if r.Ok? {
      assert s + (t + r.value) == s + t + r.value;
    }
  }

  // ------------------------------------------------------------------ laying pages over an image

  /** One page copied into the image, which grows to hold it. */
  function OverlayPage(image: Bytes, ps: nat, c: Change): (r: Bytes)
    requires |c.data| == ps
    ensures |r| == if |image| < c.page * ps + ps then c.page * ps + ps else |image|
  {
    Splice(Grown(image, c.page * ps + ps), c.page * ps, c.data)
  }

  predicate PageSized(writes: seq<Change>, ps: nat) {
    forall i :: 0 <= i < |writes| ==> |writes[i].data| == ps
  }

  function Overlay(image: Bytes, ps: nat, writes: seq<Change>): Bytes
    requires PageSized(writes, ps)
  {
    if writes == [] then image else OverlayPage(Overlay(image, ps, writes[..|writes| - 1]), ps, writes[|writes| - 1])
  }

  /** What each page was last written as. */
  function Last(writes: seq<Change>): map<nat, Bytes> {
    if writes == [] then map[] else
      var w := writes[|writes| - 1];
      Last(writes[..|writes| - 1])[w.page := w.data]
  }

  predicate Complete(delta: Bytes, ps: nat, entries: seq<Entry>) {
    forall i :: 0 <= i < |entries| ==> HasPage(delta, ps, entries[i].pos)
  }

  /** The pages a table names, in table order. */
  function Writes(delta: Bytes, ps: nat, entries: seq<Entry>): (w: seq<Change>)
    requires Complete(delta, ps, entries)
    ensures |w| == |entries| && PageSized(w, ps)
  {
    seq(|entries|, i requires 0 <= i < |entries| => Change(entries[i].page, PageAt(delta, ps, entries[i].pos)))
  }

  lemma OneMoreWrite(image: Bytes, delta: Bytes, ps: nat, entries: seq<Entry>, i: nat)
    requires i < |entries| && Complete(delta, ps, entries[..i]) && HasPage(delta, ps, entries[i].pos)
    ensures Complete(delta, ps, entries[..i + 1])
    ensures var under := Overlay(image, ps, Writes(delta, ps, entries[..i])); var c := Change(entries[i].page, PageAt(delta, ps, entries[i].pos));
            Overlay(image, ps, Writes(delta, ps, entries[..i + 1])) == OverlayPage(under, ps, c)
  {
    hide Table, OverlayPage;
    assert entries[..i + 1] == entries[..i] + [entries[i]];
    var w := Writes(delta, ps, entries[..i + 1]);
    assert w[..i] == Writes(delta, ps, entries[..i]);
    assert w == w[..i] + [w[i]];
  }

  /** `apply_delta`: it succeeds exactly when the table can be read and every page it names is there. */
  method ApplyDelta(image: Bytes, delta: Bytes, ps: nat) returns (r: Result<Bytes>)
    ensures r.Ok? <==> Table(delta, ps).Ok? && Complete(delta, ps, Table(delta, ps).value)
    ensures r.Ok? ==> r.value == Overlay(image, ps, Writes(delta, ps, Table(delta, ps).value))
  {
    var read := DeltaEntries(delta, ps);
    if read.Err? {
      return Err(read.reason);
    }
    var entries := read.value;
    var out := image;
    for i := 0 to |entries|
      invariant Complete(delta, ps, entries[..i])
      invariant out == Overlay(image, ps, Writes(delta, ps, entries[..i]))
    {
      hide Table, Overlay, Writes, PageAt, OverlayPage;
      var e := entries[i];
      if !HasPage(delta, ps, e.pos) {
        return Err("a difference page runs past the file");
      }
      OneMoreWrite(image, delta, ps, entries, i);
      out := OverlayPage(out, ps, Change(e.page, PageAt(delta, ps, e.pos)));
    }
    assert entries[..|entries|] == entries;
    r := Ok(out);
  }

  /** Byte k of an image under the last writes. */
  function ByteUnder(image: Bytes, ps: nat, last: map<nat, Bytes>, k: nat): u8
    requires ps > 0 && forall p :: p in last ==> |last[p]| == ps
  {
    DivBasics(k, ps);
    if k / ps in last then last[k / ps][k % ps] else if k < |image| then image[k] else 0
  }

  lemma {:induction false} LastSized(writes: seq<Change>, ps: nat)
    requires PageSized(writes, ps)
    ensures forall p :: p in Last(writes) ==> |Last(writes)[p]| == ps
  {
    if writes != [] {
      LastSized(writes[..|writes| - 1], ps);
    }
  }

  lemma OverlaidByte(under: Bytes, ps: nat, w: Change, k: nat)
    requires ps > 0 && |w.data| == ps && k < |OverlayPage(under, ps, w)|
    ensures 0 <= k % ps < ps
    ensures OverlayPage(under, ps, w)[k] == if k / ps == w.page then w.data[k % ps] else if k < |under| then under[k] else 0
  {
    DivBasics(k, ps);
    var q, at := k / ps, w.page * ps;
    assert q * ps <= k < q * ps + ps;
    var out, grown := OverlayPage(under, ps, w), Grown(under, at + ps);
    if at <= k < at + ps {
      DivModUnique(k, ps, w.page, k - at);
      assert out[at..at + ps] == w.data;
    } else {
      assert out[k] == grown[k];
      assert k < |under| ==> grown[..|under|][k] == under[k];
    }
  }

  /** Overlaying is the last write of each page, and the image elsewhere. */
  lemma {:induction false} OverlayBytes(image: Bytes, ps: nat, writes: seq<Change>, k: nat)
    requires ps > 0 && PageSized(writes, ps) && k < |Overlay(image, ps, writes)|
    ensures forall p :: p in Last(writes) ==> |Last(writes)[p]| == ps
    ensures Overlay(image, ps, writes)[k] == ByteUnder(image, ps, Last(writes), k)
  {
    hide OverlayPage;
    LastSized(writes, ps);
    if writes != [] {
      var front, w := writes[..|writes| - 1], writes[|writes| - 1];
      LastSized(front, ps);
      var under := Overlay(image, ps, front);
      OverlaidByte(under, ps, w, k);
      if k < |under| {
        OverlayBytes(image, ps, front, k);
      } else {
        NotWritten(image, ps, front, k);
      }
    }
  }

  /** Past the end of an overlaid image there is no image and no written page. */
  lemma {:induction false} NotWritten(image: Bytes, ps: nat, writes: seq<Change>, k: nat)
    requires ps > 0 && PageSized(writes, ps) && |Overlay(image, ps, writes)| <= k
    ensures k / ps !in Last(writes) && |image| <= k
  {
    if writes != [] {
      var w := writes[|writes| - 1];
      NotWritten(image, ps, writes[..|writes| - 1], k);
      DivBasics(k, ps);
      var q := k / ps;
      assert q * ps <= k < q * ps + ps;
    }
  }

  function PageEnd(p: nat, ps: nat): nat {
    p * ps + ps
  }

  lemma LastByteOf(p: nat, ps: nat)
    requires ps > 0
    ensures PageEnd(p, ps) > 0 && (PageEnd(p, ps) - 1) / ps == p
  {
    DivModUnique(PageEnd(p, ps) - 1, ps, p, ps - 1);
  }

  /** The end of an overlaid image is the image's own, or that of some written page. */
  lemma {:induction false} OverlayEnds(image: Bytes, ps: nat, writes: seq<Change>)
    requires ps > 0 && PageSized(writes, ps)
    ensures var n := |Overlay(image, ps, writes)|; n == |image| || exists p :: p in Last(writes) && n == PageEnd(p, ps)
  {
    if writes != [] {
      var front, w := writes[..|writes| - 1], writes[|writes| - 1];
      OverlayEnds(image, ps, front);
      assert w.page in Last(writes);
      var n := |Overlay(image, ps, front)|;
      if n >= w.page * ps + ps && n != |image| {
        var p :| p in Last(front) && n == PageEnd(p, ps);
        assert p in Last(writes);
      }
    }
  }

  /** Two lists of writes with the same last writes lay the same image. */
  lemma OverlayByLast(image: Bytes, ps: nat, a: seq<Change>, b: seq<Change>)
    requires ps > 0 && PageSized(a, ps) && PageSized(b, ps) && Last(a) == Last(b)
    ensures Overlay(image, ps, a) == Overlay(image, ps, b)
  {
    var x, y := Overlay(image, ps, a), Overlay(image, ps, b);
    NoLonger(image, ps, a, b);
    NoLonger(image, ps, b, a);
    forall k | 0 <= k < |x| ensures x[k] == y[k] {
      OverlayBytes(image, ps, a, k);
      OverlayBytes(image, ps, b, k);
    }
  }

  lemma NoLonger(image: Bytes, ps: nat, a: seq<Change>, b: seq<Change>)
    requires ps > 0 && PageSized(a, ps) && PageSized(b, ps) && Last(a) == Last(b)
    ensures |Overlay(image, ps, a)| <= |Overlay(image, ps, b)|
  {
    hide Overlay, Last, PageEnd;
    OverlayEnds(image, ps, a);
    NotWritten(image, ps, b, |Overlay(image, ps, b)|);
    var n := |Overlay(image, ps, a)|;
    if n != |image| {
      var p :| p in Last(a) && n == PageEnd(p, ps);
      ReachesEnd(image, ps, b, p);
    }
  }

  lemma ReachesEnd(image: Bytes, ps: nat, writes: seq<Change>, p: nat)
    requires ps > 0 && PageSized(writes, ps) && p in Last(writes)
    ensures PageEnd(p, ps) <= |Overlay(image, ps, writes)|
  {
    hide Overlay, Last, PageEnd;
    LastByteOf(p, ps);
    if |Overlay(image, ps, writes)| <= PageEnd(p, ps) - 1 {
      NotWritten(image, ps, writes, PageEnd(p, ps) - 1);
    }
  }

  lemma {:induction false} LastOfConcat(a: seq<Change>, b: seq<Change>)
    ensures Last(a + b) == Last(a) + Last(b)
  {
    if b == [] {
      assert a + b == a;
    } else {
      assert (a + b)[..|a + b| - 1] == a + b[..|b| - 1];
      LastOfConcat(a, b[..|b| - 1]);
    }
  }

  lemma {:induction false} OverlayConcat(image: Bytes, ps: nat, a: seq<Change>, b: seq<Change>)
    requires PageSized(a, ps) && PageSized(b, ps)
    ensures PageSized(a + b, ps) && Overlay(image, ps, a + b) == Overlay(Overlay(image, ps, a), ps, b)
  {
    if b == [] {
      assert a + b == a;
    } else {
      assert (a + b)[..|a + b| - 1] == a + b[..|b| - 1];
      OverlayConcat(image, ps, a, b[..|b| - 1]);
    }
  }
}
