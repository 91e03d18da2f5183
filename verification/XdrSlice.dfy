/** An array's elements in canonical form behind their raw length, and back to native elements. */
module XdrSlice {
  import opened Words
  import opened Power
  import opened ByteStrings
  import opened LittleEndian
  import opened XdrRow

  /** An array's element: its type and its native length, a varying one's with its two-byte count. */
  datatype Shape = Shape(dtype: Dtype, length: nat)

  /** The bytes of an element that its type's arm takes; with fewer the writer cannot index them. */
  function Needed(d: Dtype): (n: nat) {
    match d
    case VARYING => 2
    case SHORT => 2
    case LONG => 4
    case REAL => 4
    case SQL_DATE => 4
    case SQL_TIME => 4
    case INT64 => 8
    case DOUBLE => 8
    case TIMESTAMP => 8
    case _ => 0
  }

  /** A shape the writer can carry: no element shorter than what is taken of it. */
  predicate Wide(sh: Shape) {
    Needed(sh.dtype) <= sh.length < 0x1_0000
  }

  /** The element lengths the types are stored in. */
  predicate Sound(sh: Shape)
    ensures Sound(sh) ==> Wide(sh)
  {
    sh.length < 0x1_0000 &&
    match sh.dtype
    case TEXT => sh.length > 0
    case VARYING => 2 <= sh.length
    case SHORT => sh.length == 2
    case LONG => sh.length == 4
    case REAL => sh.length == 4
    case SQL_DATE => sh.length == 4
    case SQL_TIME => sh.length == 4
    case INT64 => sh.length == 8
    case DOUBLE => sh.length == 8
    case TIMESTAMP => sh.length == 8
    case _ => true
  }

  predicate Supported(d: Dtype) {
    d != BOOLEAN && d != BLOB && d != ARRAY && d != OTHER
  }

  // ------------------------------------------------------------------ writing

  /** A varying element's count, cut to its slot. */
  function Count(sh: Shape, e: Bytes): (n: nat)
    requires |e| == sh.length >= 2
    ensures n + 2 <= sh.length
  {
    var n := LeAt(e, 0, 2);
    if n < sh.length - 2 then n else sh.length - 2
  }

  /** One element, before its padding. */
  function Element(sh: Shape, e: Bytes): Bytes
    requires Wide(sh) && Supported(sh.dtype) && |e| == sh.length
  {
    match sh.dtype
    case TEXT => e
    case VARYING =>
      var n := Count(sh, e);
      BeInt(Signed(n, 2), 4) + e[2..2 + n]
    case SHORT => BeInt(Signed(LeVal(e[..2]), 2), 4)
    case LONG => ToBe(e[..4])
    case REAL => ToBe(e[..4])
    case SQL_DATE => ToBe(e[..4])
    case SQL_TIME => ToBe(e[..4])
    case INT64 => ToBe(e[..8])
    case DOUBLE => ToBe(e[..8])
    case TIMESTAMP => TwoLongs(e[..8])
  }

  function Padded(b: Bytes): (p: Bytes)
    ensures |p| % 4 == 0
  {
    b + Zeros(Padding(|b|))
  }

  predicate AllOf(sh: Shape, es: seq<Bytes>) {
    forall e :: e in es ==> |e| == sh.length
  }

  /** The elements one after another, each padded to four. */
  function Elements(sh: Shape, es: seq<Bytes>): Bytes
    requires Wide(sh) && Supported(sh.dtype) && AllOf(sh, es)
  {
    if es == [] then [] else Elements(sh, es[..|es| - 1]) + Padded(Element(sh, es[|es| - 1]))
  }

  lemma {:induction false} ElementsAligned(sh: Shape, es: seq<Bytes>)
    requires Wide(sh) && Supported(sh.dtype) && AllOf(sh, es)
    ensures |Elements(sh, es)| % 4 == 0
  {
    hide Element, Padded, Wide, Supported;
    if es != [] {
      var last := es[|es| - 1];
      assert last in es;
      ElementsAligned(sh, es[..|es| - 1]);
      SumAligned(|Elements(sh, es[..|es| - 1])|, |Padded(Element(sh, last))|);
    }
  }

  function Join(es: seq<Bytes>): Bytes {
    if es == [] then [] else Join(es[..|es| - 1]) + es[|es| - 1]
  }

  /** `data.chunks(d)` of a slice of whole elements. */
  function Chunks(data: Bytes, d: nat): (es: seq<Bytes>)
    requires d > 0 && |data| % d == 0
    decreases |data|
  {
    if data == [] then [] else
      WholeElements(|data|, d);
      Chunks(data[..|data| - d], d) + [data[|data| - d..]]
  }

  lemma {:induction false} ChunksJoin(data: Bytes, d: nat)
    requires d > 0 && |data| % d == 0
    ensures Join(Chunks(data, d)) == data && |Chunks(data, d)| == |data| / d
    ensures forall e :: e in Chunks(data, d) ==> |e| == d
    decreases |data|
  {
    WholeElements(|data|, d);
    if data == [] {
      DivModUnique(0, d, 0, 0);
    } else {
      var front := data[..|data| - d];
      ChunksJoin(front, d);
      assert Chunks(data, d)[..|Chunks(data, d)| - 1] == Chunks(front, d);
    }
  }

  lemma WholeElements(n: nat, d: nat)
    requires d > 0 && n % d == 0
    ensures n > 0 ==> n >= d && (n - d) % d == 0 && (n - d) / d == n / d - 1
  {
    DivBasics(n, d);
    if n > 0 {
      MulLeft(1, n / d, d);
      MulDistributes(d, n / d, 1);
      DivModUnique(n - d, d, n / d - 1, 0);
    }
  }

  /** `xdr_slice`: nothing for an element length of zero, a ragged slice, or an unknown type. */
  function Slice(sh: Shape, data: Bytes): Option<Bytes>
    requires sh.length == 0 || Wide(sh)
  {
    if sh.length == 0 || |data| % sh.length != 0 then None
    else if !Supported(sh.dtype) then (if data == [] then Some(Be(0, 4)) else None)
    else
      ChunksJoin(data, sh.length);
      Some(Be(|data| % 0x1_0000_0000, 4) + Elements(sh, Chunks(data, sh.length)))
  }

  method Pad4(out: Bytes) returns (r: Bytes)
    ensures r == Padded(out)
  {
    r := out;
    while |r| % 4 != 0
      invariant |out| <= |r| <= |out| + Padding(|out|) && r == out + Zeros(|r| - |out|)
      decreases |out| + 4 - |r|
    {
      r := r + [0];
    }
  }

  method EncodeSlice(sh: Shape, data: Bytes) returns (r: Option<Bytes>)
    requires sh.length == 0 || Wide(sh)
    ensures r == Slice(sh, data)
  {
    if sh.length == 0 || |data| % sh.length != 0 {
      return None;
    }
    ChunksJoin(data, sh.length);
    NoElements(data, sh.length);
    r := EncodeElements(sh, Chunks(data, sh.length), Be(|data| % 0x1_0000_0000, 4));
  }

  /** The elements behind a head of whole words; an unknown type is found at the first of them. */
  method EncodeElements(sh: Shape, es: seq<Bytes>, head: Bytes) returns (r: Option<Bytes>)
    requires Wide(sh) && AllOf(sh, es) && |head| % 4 == 0
    ensures r == if Supported(sh.dtype) then Some(head + Elements(sh, es)) else if es == [] then Some(head) else None
  {
    hide Element, Padded, Wide, Supported;
    var out := head;
    assert head + [] == head;
    for k := 0 to |es|
      invariant k > 0 ==> Supported(sh.dtype)
      invariant out == if Supported(sh.dtype) then head + Elements(sh, es[..k]) else head
    {
      if !Supported(sh.dtype) {
        return None;
      }
      ghost var before := Elements(sh, es[..k]);
      assert es[..k + 1][..k] == es[..k] && es[k] in es;
      ElementsAligned(sh, es[..k]);
      SumAligned(|head|, |before|);
      PaddedAfter(head + before, Element(sh, es[k]));
      out := Pad4(out + Element(sh, es[k]));
      Associative(head, before, Padded(Element(sh, es[k])));
    }
    assert es[..|es|] == es;
    r := Some(out);
  }

  lemma SumAligned(a: nat, b: nat)
    requires a % 4 == 0 && b % 4 == 0
    ensures (a + b) % 4 == 0
  {
  }

  lemma Associative(a: Bytes, b: Bytes, c: Bytes)
    ensures a + b + c == a + (b + c)
  {
  }

  lemma NoElements(data: Bytes, d: nat)
    requires d > 0 && |data| % d == 0
    ensures Chunks(data, d) == [] <==> data == []
  {
  }

  lemma PaddedAfter(a: Bytes, b: Bytes)
    requires |a| % 4 == 0
    ensures Padded(a + b) == a + Padded(b)
  {
    assert Padding(|a + b|) == Padding(|b|);
    assert (a + b) + Zeros(Padding(|b|)) == a + (b + Zeros(Padding(|b|)));
  }

  // ------------------------------------------------------------------ reading

  datatype Native = Native(element: Bytes, at: nat) | Bad(reason: string)

  const CUT := Bad("an array slice ended mid-element")

  /** One element by the column's field type, back in its native slot. */
  function DecodeElement(xdr: Bytes, at: nat, c: RCol): Native {
    if c.fieldType == 14 then
      match Take(xdr, at, c.length) case None => CUT case Some(d) => Native(d, at + c.length + Padding(c.length))
    else if c.fieldType == 37 then
      match Take(xdr, at, 4)
      case None => CUT
      case Some(b) =>
        var n := BytesVal(b);
        if n > c.length then Bad("an array element longer than its column")
        else match Take(xdr, at + 4, n)
          case None => CUT
          case Some(d) => Native(Le(n, 2) + d + Zeros(c.length - n), at + 4 + n + Padding(n))
    else if c.fieldType == 7 then
      match Take(xdr, at, 4) case None => CUT case Some(b) => Native(Le(BytesVal(b) % 0x1_0000, 2), at + 4)
    else if c.fieldType == 8 || c.fieldType == 10 || c.fieldType == 12 || c.fieldType == 13 then
      match Take(xdr, at, 4) case None => CUT case Some(b) => Native(FromBe(b), at + 4)
    else if c.fieldType == 16 || c.fieldType == 27 then
      match Take(xdr, at, 8) case None => CUT case Some(b) => Native(FromBe(b), at + 8)
    else if c.fieldType == 9 || c.fieldType == 35 then
      match Take(xdr, at, 8) case None => CUT case Some(b) => Native(FromBe(b[..4]) + FromBe(b[4..]), at + 8)
    else if c.fieldType == 23 then
      match Take(xdr, at, 4) case None => CUT case Some(b) => Native([b[0]], at + 4)
    else Bad("an array element type outside this restore's surface")
  }

  /** `count` elements, from behind the raw length. */
  function DecodeElements(xdr: Bytes, c: RCol, count: nat): Native {
    if count == 0 then Native([], if |xdr| < 4 then |xdr| else 4) else
      match DecodeElements(xdr, c, count - 1)
      case Bad(e) => Bad(e)
      case Native(front, at) =>
        match DecodeElement(xdr, at, c)
        case Bad(e) => Bad(e)
        case Native(e, next) => Native(front + e, next)
  }

  /** `unxdr_slice`. */
  method DecodeSlice(xdr: Bytes, c: RCol, count: nat) returns (r: Result<Bytes>)
    ensures r == match DecodeElements(xdr, c, count) case Bad(e) => Err(e) case Native(out, _) => Ok(out)
  {
    hide DecodeElement;
    var at: nat := if |xdr| < 4 then |xdr| else 4;
    var out: Bytes := [];
    for k := 0 to count
      invariant DecodeElements(xdr, c, k) == Native(out, at)
    {
      match DecodeElement(xdr, at, c) {
        case Bad(e) =>
          ElementsStop(xdr, c, k + 1, count);
          return Err(e);
        case Native(e, next) =>
          out := out + e;
          at := next;
      }
    }
    r := Ok(out);
  }

  lemma {:induction false} ElementsStop(xdr: Bytes, c: RCol, k: nat, count: nat)
    requires k <= count && DecodeElements(xdr, c, k).Bad?
    ensures DecodeElements(xdr, c, count) == DecodeElements(xdr, c, k)
    decreases count
  {
    if k < count {
      ElementsStop(xdr, c, k, count - 1);
    }
  }

  // ------------------------------------------------------------------ the round trip

  /** The element's column as the reader has it. */
  predicate DescribesElement(c: RCol, sh: Shape) {
    && FieldType(sh.dtype) == Some(c.fieldType)
    && (sh.dtype == VARYING ==> c.length + 2 == sh.length)
    && (sh.dtype == TEXT ==> c.length == sh.length)
  }

  /** A native element without what the canonical form drops: a varying one keeps its bytes, cut to its
      slot, and has zeros behind them. */
  function Normal(sh: Shape, e: Bytes): (n: Bytes)
    requires |e| == sh.length && (sh.dtype == VARYING ==> sh.length >= 2)
    ensures |n| == |e|
  {
    if sh.dtype == VARYING then
      var n := Count(sh, e);
      Le(n, 2) + e[2..2 + n] + Zeros(sh.length - 2 - n)
    else e
  }

  function NormalAll(sh: Shape, es: seq<Bytes>): Bytes
    requires AllOf(sh, es) && (sh.dtype == VARYING ==> sh.length >= 2)
  {
    if es == [] then [] else NormalAll(sh, es[..|es| - 1]) + Normal(sh, es[|es| - 1])
  }

  /** No varying element longer than the sign bit of its count allows. */
  predicate CountsFit(sh: Shape) {
    sh.dtype == VARYING ==> sh.length - 2 < 0x8000
  }

  /** An element whose count keeps its sign bit clear: it is written as a signed 16-bit number. */
  predicate SignFits(sh: Shape, e: Bytes)
    requires |e| == sh.length && (sh.dtype == VARYING ==> sh.length >= 2)
  {
    sh.dtype == VARYING ==> Count(sh, e) < 0x8000
  }

  predicate AllSignsFit(sh: Shape, es: seq<Bytes>)
    requires AllOf(sh, es) && (sh.dtype == VARYING ==> sh.length >= 2)
  {
    forall e :: e in es ==> SignFits(sh, e)
  }

  lemma ShortEnough(sh: Shape, es: seq<Bytes>)
    requires AllOf(sh, es) && (sh.dtype == VARYING ==> sh.length >= 2) && CountsFit(sh)
    ensures AllSignsFit(sh, es)
  {
  }

  lemma ShortEnoughNone(sh: Shape)
    requires sh.dtype == VARYING ==> sh.length >= 2
    ensures AllSignsFit(sh, [])
  {
  }

  lemma SignsSplit(sh: Shape, es: seq<Bytes>)
    requires es != [] && AllOf(sh, es) && (sh.dtype == VARYING ==> sh.length >= 2)
    ensures AllOf(sh, es[..|es| - 1]) && |es[|es| - 1]| == sh.length
    ensures AllSignsFit(sh, es) <==> AllSignsFit(sh, es[..|es| - 1]) && SignFits(sh, es[|es| - 1])
  {
    hide SignFits;
    InFrontOrLast(es);
  }

  /** A count with its sign bit set is read as a number beyond any column. */
  lemma CountTooLarge(n: nat)
    requires 0x8000 <= n < 0x1_0000
    ensures BytesVal(BeInt(Signed(n, 2), 4)) >= 0x1_0000
  {
    hide BytesVal, Be, Pow;
    Widths();
    DivModUnique(n - 0x1_0000, Pow(256, 4), -1, n - 0x1_0000 + 0x1_0000_0000);
    BeRoundTrip(n - 0x1_0000 + 0x1_0000_0000, 4);
  }

  lemma CountBytes(n: nat)
    requires n < 0x8000
    ensures BytesVal(BeInt(Signed(n, 2), 4)) == n
  {
    hide BytesVal, Be, Pow;
    Widths();
    DivModUnique(n, Pow(256, 4), 0, n);
    BeRoundTrip(n, 4);
  }

  lemma VaryingParts(head: Bytes, body: Bytes, xdr: Bytes, at: nat)
    requires |head| == 4 && StandsAt(xdr, at, Padded(head + body))
    ensures Take(xdr, at, 4) == Some(head) && Take(xdr, at + 4, |body|) == Some(body)
    ensures |Padded(head + body)| == 4 + |body| + Padding(|body|)
  {
    hide Take, StandsAt;
    var field := Padded(head + body);
    PartStands(xdr, at, field, 0, 4);
    PartStands(xdr, at, field, 4, 4 + |body|);
    assert field[0..4] == head && field[4..4 + |body|] == body;
  }

  lemma VaryingElement(sh: Shape, e: Bytes, c: RCol, xdr: Bytes, at: nat)
    requires Sound(sh) && sh.dtype == VARYING && |e| == sh.length && DescribesElement(c, sh)
    requires StandsAt(xdr, at, Padded(Element(sh, e)))
    ensures SignFits(sh, e) ==> DecodeElement(xdr, at, c) == Native(Normal(sh, e), at + |Padded(Element(sh, e))|)
    ensures !SignFits(sh, e) ==> DecodeElement(xdr, at, c).Bad?
  {
    hide LeVal, LeAt, BytesVal, Be, Le, Pow, BeInt, Signed, Take, StandsAt, Padded, Zeros, Padding, Count;
    var n := Count(sh, e);
    if n < 0x8000 {
      CountBytes(n);
    } else {
      CountTooLarge(n);
    }
    VaryingParts(BeInt(Signed(n, 2), 4), e[2..2 + n], xdr, at);
  }

  lemma ShortElement(sh: Shape, e: Bytes, c: RCol, xdr: Bytes, at: nat)
    requires Sound(sh) && sh.dtype == SHORT && |e| == sh.length && DescribesElement(c, sh)
    requires StandsAt(xdr, at, Padded(Element(sh, e)))
    ensures DecodeElement(xdr, at, c) == Native(e, at + |Padded(Element(sh, e))|)
  {
    hide LeVal, BytesVal, Be, Le, Pow;
    Widths();
    assert e[..2] == e;
    var x: int := LeVal(e);
    LeValBound(e);
    var b := BeInt(Signed(x, 2), 4);
    PartStands(xdr, at, Padded(Element(sh, e)), 0, 4);
    assert Padded(Element(sh, e))[0..4] == b;
    BeRoundTrip(Residue(Signed(x, 2), 4), 4);
    assert Residue(Signed(x, 2), 4) % 0x1_0000 == x by {
      if 2 * x >= 0x1_0000 {
        DivModUnique(x - 0x1_0000, Pow(256, 4), -1, x - 0x1_0000 + 0x1_0000_0000);
        DivModUnique(x - 0x1_0000 + 0x1_0000_0000, 0x1_0000, 0xffff, x);
      } else {
        DivModUnique(x, Pow(256, 4), 0, x);
      }
    }
    LeOfVal(e);
  }

  lemma PlainElement(sh: Shape, e: Bytes, c: RCol, xdr: Bytes, at: nat)
    requires Sound(sh) && Supported(sh.dtype) && sh.dtype != VARYING && sh.dtype != SHORT && |e| == sh.length
    requires DescribesElement(c, sh) && StandsAt(xdr, at, Padded(Element(sh, e)))
    ensures DecodeElement(xdr, at, c) == Native(e, at + |Padded(Element(sh, e))|)
  {
    hide ToBe, FromBe, BytesVal, LeVal, Le;
    assert sh.dtype != TEXT ==> e[..Needed(sh.dtype)] == e;
    var field := Padded(Element(sh, e));
    var n := |Element(sh, e)|;
    PartStands(xdr, at, field, 0, n);
    assert field[0..n] == Element(sh, e);
    OrderRoundTrip(e);
    if sh.dtype == TIMESTAMP {
      OrderRoundTrip(e[..4]);
      OrderRoundTrip(e[4..]);
      assert TwoLongs(e)[..4] == ToBe(e[..4]) && TwoLongs(e)[4..] == ToBe(e[4..]);
      assert e == e[..4] + e[4..];
    }
  }

  lemma ElementRoundTrip(sh: Shape, e: Bytes, c: RCol, xdr: Bytes, at: nat)
    requires Sound(sh) && Supported(sh.dtype) && |e| == sh.length && DescribesElement(c, sh)
    requires StandsAt(xdr, at, Padded(Element(sh, e)))
    ensures SignFits(sh, e) ==> DecodeElement(xdr, at, c) == Native(Normal(sh, e), at + |Padded(Element(sh, e))|)
    ensures !SignFits(sh, e) ==> DecodeElement(xdr, at, c).Bad?
  {
    hide Element, DecodeElement, Padded;
    if sh.dtype == VARYING {
      VaryingElement(sh, e, c, xdr, at);
    } else if sh.dtype == SHORT {
      ShortElement(sh, e, c, xdr, at);
    } else {
      PlainElement(sh, e, c, xdr, at);
    }
  }

  lemma {:induction false} ElementsRoundTrip(sh: Shape, es: seq<Bytes>, c: RCol, xdr: Bytes)
    requires Sound(sh) && Supported(sh.dtype) && AllOf(sh, es)
    requires DescribesElement(c, sh) && |xdr| >= 4 && StandsAt(xdr, 4, Elements(sh, es))
    ensures AllSignsFit(sh, es) ==> DecodeElements(xdr, c, |es|) == Native(NormalAll(sh, es), 4 + |Elements(sh, es)|)
    ensures !AllSignsFit(sh, es) ==> DecodeElements(xdr, c, |es|).Bad?
  {
    hide Element, DecodeElement, Padded, Normal, Sound, DescribesElement, StandsAt, Supported, AllSignsFit;
    if es == [] {
      ShortEnoughNone(sh);
    } else {
      var n := |es| - 1;
      var front := Elements(sh, es[..n]);
      assert es[n] in es;
      SignsSplit(sh, es);
      StandSplit(xdr, 4, front, Padded(Element(sh, es[n])));
      ElementsRoundTrip(sh, es[..n], c, xdr);
      ElementRoundTrip(sh, es[n], c, xdr, 4 + |front|);
    }
  }

  /** Writing a slice and reading it back gives the native elements, varying ones with zeros behind
      their bytes, exactly when no varying element holds 32768 bytes or more; else the reader refuses. */
  lemma SliceRoundTrip(sh: Shape, data: Bytes, c: RCol)
    requires Sound(sh) && Supported(sh.dtype) && sh.length > 0 && |data| % sh.length == 0
    requires DescribesElement(c, sh)
    ensures AllOf(sh, Chunks(data, sh.length)) && Slice(sh, data).Some?
    ensures var n := DecodeElements(Slice(sh, data).value, c, |Chunks(data, sh.length)|);
            && (n.Native? <==> AllSignsFit(sh, Chunks(data, sh.length)))
            && (n.Native? ==> n.element == NormalAll(sh, Chunks(data, sh.length)))
  {
    hide Elements, NormalAll, DecodeElements, Chunks, Join, Sound, Supported, DescribesElement, AllSignsFit, Be;
    ChunksJoin(data, sh.length);
    var es := Chunks(data, sh.length);
    var xdr := Slice(sh, data).value;
    assert xdr[4..4 + |Elements(sh, es)|] == Elements(sh, es);
    ElementsRoundTrip(sh, es, c, xdr);
  }

  /** The whole array comes back as it was exactly when every slot was clean. */
  lemma {:induction false} NormalAllExactly(sh: Shape, es: seq<Bytes>)
    requires Sound(sh) && AllOf(sh, es)
    ensures NormalAll(sh, es) == Join(es) <==> forall e :: e in es ==> Clean(sh, e)
  {
    hide Normal, Clean, Sound;
    if es != [] {
      var n := |es| - 1;
      var front, last := es[..n], es[n];
      InFrontOrLast(es);
      NormalAllExactly(sh, front);
      NormalExactly(sh, last);
      NormalLength(sh, front);
      SplitEqual(NormalAll(sh, front), Normal(sh, last), Join(front), last);
    }
  }

  lemma InFrontOrLast<T>(s: seq<T>)
    requires s != []
    ensures forall e :: e in s <==> e in s[..|s| - 1] || e == s[|s| - 1]
  {
    assert s == s[..|s| - 1] + [s[|s| - 1]];
  }

  lemma {:induction false} NormalLength(sh: Shape, es: seq<Bytes>)
    requires AllOf(sh, es) && (sh.dtype == VARYING ==> sh.length >= 2)
    ensures |NormalAll(sh, es)| == |Join(es)|
  {
    if es != [] {
      NormalLength(sh, es[..|es| - 1]);
      assert es[|es| - 1] in es;
    }
  }

  lemma SplitEqual(a: Bytes, b: Bytes, c: Bytes, d: Bytes)
    requires |a| == |c|
    ensures a + b == c + d <==> a == c && b == d
  {
    if a + b == c + d {
      assert a == (a + b)[..|a|] && c == (c + d)[..|c|];
      assert b == (a + b)[|a|..] && d == (c + d)[|c|..];
    }
  }

  /** An element's slot holds its count, its bytes, and nothing but zeros behind them. */
  predicate Clean(sh: Shape, e: Bytes)
    requires |e| == sh.length && (sh.dtype == VARYING ==> sh.length >= 2)
  {
    sh.dtype == VARYING ==>
      var n := LeAt(e, 0, 2);
      n + 2 <= sh.length && forall k :: 2 + n <= k < sh.length ==> e[k] == 0
  }

  /** The reader's element is the writer's own exactly when its slot was clean. */
  lemma NormalExactly(sh: Shape, e: Bytes)
    requires Sound(sh) && |e| == sh.length
    ensures Normal(sh, e) == e <==> Clean(sh, e)
  {
    if sh.dtype == VARYING {
      hide Le, LeVal, Pow;
      Widths();
      var count, n := LeAt(e, 0, 2), Count(sh, e);
      var r := Normal(sh, e);
      LeRoundTrip(n, 2);
      LeOfVal(e[0..2]);
      assert r[0..2] == Le(n, 2) && r[2..2 + n] == e[2..2 + n];
      if r == e {
        assert e[0..2] == Le(n, 2);
        forall k | 2 + n <= k < sh.length ensures e[k] == 0 {
          assert r[k] == Zeros(sh.length - 2 - n)[k - 2 - n];
        }
      }
      if Clean(sh, e) {
        assert e == e[0..2] + e[2..2 + n] + e[2 + n..];
        assert e[2 + n..] == Zeros(sh.length - 2 - n);
      }
    }
  }
}
