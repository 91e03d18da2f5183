/** A record image as a transportable row, and back: the values of the stored columns in canonical
    big-endian form (RFC 4506), then one null indicator for each. */
module XdrRow {
  import opened Words
  import opened Power
  import opened ByteStrings
  import opened LittleEndian

  datatype Result<T> = Ok(value: T) | Err(reason: string)

  datatype Option<T> = None | Some(value: T)

  datatype Dtype = SHORT | LONG | INT64 | VARYING | TEXT | REAL | SQL_DATE | SQL_TIME | DOUBLE | TIMESTAMP | BOOLEAN | BLOB | ARRAY | OTHER

  /** A column as the writer has it: its descriptor, its bit in the record's null bitmap - the
      descriptor index, not the emitted one - and whether it is computed. */
  datatype Col = Col(dtype: Dtype, offset: nat, length: nat, bit: nat, computed: bool)

  /** A column as the reader has it. */
  datatype RCol = RCol(fieldType: int, length: nat, dims: int, computed: bool)

  datatype RVal =
    | Null
    | Int(value: int)
    | Chars(bytes: Bytes)
    | Raw(native: Bytes)
    | Blob(stream: bool, segments: seq<Bytes>)
    | Array(elements: Bytes, bounds: seq<(int, int)>)

  /** RDB$FIELD_TYPE of a stored type. */
  function FieldType(d: Dtype): Option<int> {
    match d
    case SHORT => Some(7)
    case LONG => Some(8)
    case INT64 => Some(16)
    case REAL => Some(10)
    case DOUBLE => Some(27)
    case SQL_DATE => Some(12)
    case SQL_TIME => Some(13)
    case TIMESTAMP => Some(35)
    case BOOLEAN => Some(23)
    case TEXT => Some(14)
    case VARYING => Some(37)
    case BLOB => Some(261)
    case ARRAY => None
    case OTHER => None
  }

  // ------------------------------------------------------------------ integers and byte order

  /** Two's complement of k bytes. */
  function Signed(x: nat, k: nat): int {
    if 2 * x < Pow(256, k) then x else x - Pow(256, k)
  }

  function Residue(v: int, k: nat): (x: nat)
    ensures x < Pow(256, k)
  {
    PowPositive(256, k);
    v % Pow(256, k)
  }

  /** `v.to_be_bytes()` of a signed integer. */
  function BeInt(v: int, k: nat): (b: Bytes)
    ensures |b| == k
  {
    Be(Residue(v, k), k)
  }

  predicate Fits(v: int, k: nat) {
    var m: int := Pow(256, k);
    -m <= 2 * v < m
  }

  lemma SignedRoundTrip(v: int, k: nat)
    requires Fits(v, k)
    ensures Signed(BytesVal(BeInt(v, k)), k) == v
  {
    var m, r := Pow(256, k), Residue(v, k);
    BeRoundTrip(r, k);
    if v >= 0 {
      DivModUnique(v, m, 0, v);
    } else {
      DivModUnique(v, m, -1, v + m);
    }
  }

  lemma SignedFits(x: nat, k: nat, wider: nat)
    requires x < Pow(256, k) && k <= wider
    ensures Fits(Signed(x, k), wider)
  {
    PowMonotone(256, k, wider);
  }

  /** Native bytes to big-endian, and back. */
  function ToBe(native: Bytes): (b: Bytes)
    ensures |b| == |native|
  {
    Be(LeVal(native), |native|)
  }

  function FromBe(b: Bytes): (native: Bytes)
    ensures |native| == |b|
  {
    Le(BytesVal(b), |b|)
  }

  lemma OrderRoundTrip(native: Bytes)
    ensures FromBe(ToBe(native)) == native
  {
    LeValBound(native);
    BeRoundTrip(LeVal(native), |native|);
    LeOfVal(native);
  }

  function Zeros(n: nat): (z: Bytes)
    ensures |z| == n
  {
    seq(n, i => 0 as u8)
  }

  /** The padding that takes n bytes to a multiple of four. */
  function Padding(n: nat): (p: nat)
    ensures p < 4 && (n + p) % 4 == 0
  {
    (4 - n % 4) % 4
  }

  // ------------------------------------------------------------------ writing

  /** The null bit of a descriptor; a bitmap too short says not null. */
  predicate IsNull(image: Bytes, bit: nat) {
    bit / 8 < |image| && image[bit / 8] as nat / Pow2(bit % 8) % 2 == 1
  }

  function Pow2(n: nat): (p: nat)
    ensures p > 0
  {
    PowPositive(2, n);
    Pow(2, n)
  }

  /** The n bytes at a column, when they are there and not null. */
  function Stored(image: Bytes, c: Col, n: nat): Option<Bytes> {
    if IsNull(image, c.bit) || |image| < c.offset + n then None else Some(image[c.offset..c.offset + n])
  }

  /** A number column: its bytes, or zeros. */
  function StoredOrZero(image: Bytes, c: Col, n: nat): (b: Bytes)
    ensures |b| == n
  {
    match Stored(image, c, n)
    case None => Zeros(n)
    case Some(b) => b
  }

  /** A varying column's bytes: empty when null, cut at the end of the image. */
  function VaryingBytes(image: Bytes, c: Col): Bytes {
    match Stored(image, c, 2)
    case None => []
    case Some(count) =>
      var from, n := c.offset + 2, LeVal(count);
      image[from..if from + n < |image| then from + n else |image|]
  }

  /** One column's canonical value. */
  function Field(image: Bytes, c: Col): Option<Bytes> {
    match c.dtype
    case SHORT => Some(BeInt(Signed(LeVal(StoredOrZero(image, c, 2)), 2), 4))
    case LONG => Some(BeInt(Signed(LeVal(StoredOrZero(image, c, 4)), 4), 4))
    case INT64 => Some(BeInt(Signed(LeVal(StoredOrZero(image, c, 8)), 8), 8))
    case VARYING =>
      var b := VaryingBytes(image, c);
      Some(Be(|b|, 4) + b + Zeros(Padding(|b|)))
    case TEXT =>
      var b := match Stored(image, c, c.length) case None => seq(c.length, i => 32 as u8) case Some(b) => b;
      Some(b + Zeros(Padding(c.length)))
    case REAL => Some(ToBe(StoredOrZero(image, c, 4)))
    case SQL_DATE => Some(ToBe(StoredOrZero(image, c, 4)))
    case SQL_TIME => Some(ToBe(StoredOrZero(image, c, 4)))
    case DOUBLE => Some(ToBe(StoredOrZero(image, c, 8)))
    case TIMESTAMP => Some(TwoLongs(StoredOrZero(image, c, 8)))
    case BOOLEAN => Some(StoredOrZero(image, c, 1) + Zeros(3))
    case BLOB => Some(TwoLongs(StoredOrZero(image, c, 8)))
    case ARRAY => Some(TwoLongs(StoredOrZero(image, c, 8)))
    case OTHER => None
  }

  function TwoLongs(b: Bytes): (r: Bytes)
    requires |b| == 8
    ensures |r| == 8
  {
    ToBe(b[..4]) + ToBe(b[4..])
  }

  function Append(a: Option<Bytes>, b: Option<Bytes>): Option<Bytes> {
    if a.Some? && b.Some? then Some(a.value + b.value) else None
  }

  /** The values of the stored columns; a computed one leaves no bytes. */
  function Fields(image: Bytes, cols: seq<Col>): Option<Bytes> {
    if cols == [] then Some([]) else
      var c := cols[|cols| - 1];
      var front := Fields(image, cols[..|cols| - 1]);
      if c.computed then front else Append(front, Field(image, c))
  }

  function Flag(isNull: bool): (b: Bytes)
    ensures |b| == 4
  {
    if isNull then [255, 255, 255, 255] else [0, 0, 0, 0]
  }

  function Flags(image: Bytes, cols: seq<Col>): Bytes {
    if cols == [] then [] else
      var c := cols[|cols| - 1];
      Flags(image, cols[..|cols| - 1]) + if c.computed then [] else Flag(IsNull(image, c.bit))
  }

  function Row(image: Bytes, cols: seq<Col>): Option<Bytes> {
    Append(Fields(image, cols), Some(Flags(image, cols)))
  }

  /** `xdr_row`: it fails exactly on a stored column of a type outside its surface. */
  method EncodeRow(image: Bytes, cols: seq<Col>) returns (r: Option<Bytes>)
    ensures r == Row(image, cols)
    ensures r.Some? <==> forall c :: c in cols && !c.computed ==> c.dtype != OTHER
  {
    hide Field, IsNull, Flag;
    FieldsExist(image, cols);
    var out: Bytes := [];
    for k := 0 to |cols|
      invariant Fields(image, cols[..k]) == Some(out)
    {
      assert cols[..k + 1][..k] == cols[..k];
      FieldsExist(image, cols[..k + 1]);
      var c := cols[k];
      if !c.computed {
        var field := Field(image, c);
        if field == None {
          FieldsStop(image, cols, k + 1);
          return None;
        }
        out := out + field.value;
      }
    }
    assert cols[..|cols|] == cols;
    ghost var values := out;
    for k := 0 to |cols|
      invariant out == values + Flags(image, cols[..k])
    {
      assert cols[..k + 1][..k] == cols[..k];
      if !cols[k].computed {
        out := out + Flag(IsNull(image, cols[k].bit));
      }
    }
    assert cols[..|cols|] == cols;
    r := Some(out);
  }

  lemma {:induction false} FieldsExist(image: Bytes, cols: seq<Col>)
    ensures Fields(image, cols).Some? <==> forall c :: c in cols && !c.computed ==> c.dtype != OTHER
  {
    if cols != [] {
      var n := |cols| - 1;
      hide Field;
      FieldsExist(image, cols[..n]);
      FieldExists(image, cols[n]);
      assert forall c :: c in cols <==> c in cols[..n] || c == cols[n] by {
        assert cols == cols[..n] + [cols[n]];
      }
    }
  }

  lemma FieldExists(image: Bytes, c: Col)
    ensures Field(image, c).Some? <==> c.dtype != OTHER
  {
  }

  lemma {:induction false} FieldsStop(image: Bytes, cols: seq<Col>, k: nat)
    requires k <= |cols| && Fields(image, cols[..k]) == None
    ensures Fields(image, cols) == None
  {
    if k == |cols| {
      assert cols[..k] == cols;
    } else {
      assert cols[..|cols| - 1][..k] == cols[..k];
      FieldsStop(image, cols[..|cols| - 1], k);
    }
  }

  // ------------------------------------------------------------------ reading

  function Take(xdr: Bytes, at: nat, n: nat): Option<Bytes> {
    if at + n <= |xdr| then Some(xdr[at..at + n]) else None
  }

  datatype Step = Step(value: RVal, at: nat) | Stop(reason: string)

  const ENDED := Stop("a data row ended mid-field")

  /** One stored column's value, and where the next one starts. */
  function DecodeField(xdr: Bytes, at: nat, c: RCol): Step {
    if c.dims > 0 then
      (if Take(xdr, at, 8) == None then ENDED else Step(Array([], []), at + 8))
    else if c.fieldType == 7 || c.fieldType == 8 then
      match Take(xdr, at, 4) case None => ENDED case Some(b) => Step(Int(Signed(BytesVal(b), 4)), at + 4)
    else if c.fieldType == 16 then
      match Take(xdr, at, 8) case None => ENDED case Some(b) => Step(Int(Signed(BytesVal(b), 8)), at + 8)
    else if c.fieldType == 10 || c.fieldType == 12 || c.fieldType == 13 then
      match Take(xdr, at, 4) case None => ENDED case Some(b) => Step(Raw(FromBe(b)), at + 4)
    else if c.fieldType == 27 then
      match Take(xdr, at, 8) case None => ENDED case Some(b) => Step(Raw(FromBe(b)), at + 8)
    else if c.fieldType == 9 || c.fieldType == 35 then
      match Take(xdr, at, 8) case None => ENDED case Some(b) => Step(Raw(FromBe(b[..4]) + FromBe(b[4..])), at + 8)
    else if c.fieldType == 23 then
      match Take(xdr, at, 4) case None => ENDED case Some(b) => Step(Raw([b[0]]), at + 4)
    else if c.fieldType == 26 then
      match Take(xdr, at, 16)
      case None => ENDED
      case Some(b) => Step(Raw(FromBe(b[12..]) + FromBe(b[8..12]) + FromBe(b[4..8]) + FromBe(b[..4])), at + 16)
    else if c.fieldType == 37 then
      match Take(xdr, at, 4)
      case None => ENDED
      case Some(b) =>
        var n := BytesVal(b);
        if n > c.length then Stop("a varchar longer than its column")
        else match Take(xdr, at + 4, n) case None => ENDED case Some(d) => Step(Chars(d), at + 4 + n + Padding(n))
    else if c.fieldType == 14 then
      match Take(xdr, at, c.length) case None => ENDED case Some(d) => Step(Chars(d), at + c.length + Padding(c.length))
    else if c.fieldType == 261 then
      (if Take(xdr, at, 8) == None then ENDED else Step(Blob(false, []), at + 8))
    else Stop("a field type outside this restore's surface")
  }

  datatype Steps = Steps(values: seq<RVal>, at: nat) | Stopped(reason: string)

  function DecodeFields(xdr: Bytes, cols: seq<RCol>): (r: Steps)
    ensures r.Steps? ==> |r.values| == |cols|
  {
    if cols == [] then Steps([], 0) else
      var c := cols[|cols| - 1];
      match DecodeFields(xdr, cols[..|cols| - 1])
      case Stopped(e) => Stopped(e)
      case Steps(values, at) =>
        if c.computed then Steps(values + [Null], at)
        else match DecodeField(xdr, at, c)
          case Stop(e) => Stopped(e)
          case Step(v, next) => Steps(values + [v], next)
  }

  /** The null indicators, over the values already read. */
  function DecodeFlags(xdr: Bytes, cols: seq<RCol>, values: seq<RVal>, at: nat): (r: Steps)
    requires |values| == |cols|
    ensures r.Steps? ==> |r.values| == |cols|
  {
    if cols == [] then Steps([], at) else
      var n := |cols| - 1;
      match DecodeFlags(xdr, cols[..n], values[..n], at)
      case Stopped(e) => Stopped(e)
      case Steps(front, next) =>
        if cols[n].computed then Steps(front + [values[n]], next)
        else match Take(xdr, next, 4)
          case None => Stopped("a data row ended mid-field")
          case Some(b) => Steps(front + [if BytesVal(b) != 0 then Null else values[n]], next + 4)
  }

  function Decode(xdr: Bytes, cols: seq<RCol>): Result<seq<RVal>> {
    match DecodeFields(xdr, cols)
    case Stopped(e) => Err(e)
    case Steps(values, at) =>
      match DecodeFlags(xdr, cols, values, at)
      case Stopped(e) => Err(e)
      case Steps(nulled, _) => Ok(nulled)
  }

  /** `xdr_decode`. */
  method DecodeRow(xdr: Bytes, cols: seq<RCol>) returns (r: Result<seq<RVal>>)
    ensures r == Decode(xdr, cols)
  {
    hide DecodeField, Take, BytesVal;
    var values: seq<RVal> := [];
    var at := 0;
    for k := 0 to |cols|
      invariant DecodeFields(xdr, cols[..k]) == Steps(values, at)
    {
      assert cols[..k + 1][..k] == cols[..k];
      var c := cols[k];
      if c.computed {
        values := values + [Null];
      } else {
        match DecodeField(xdr, at, c) {
          case Stop(e) =>
            FieldsStopped(xdr, cols, k + 1);
            return Err(e);
          case Step(v, next) =>
            values := values + [v];
            at := next;
        }
      }
    }
    assert cols[..|cols|] == cols;
    r := ReadFlags(xdr, cols, values, at);
  }

  /** The null indicators turn the values they name to null. */
  method ReadFlags(xdr: Bytes, cols: seq<RCol>, read: seq<RVal>, from: nat) returns (r: Result<seq<RVal>>)
    requires |read| == |cols|
    ensures r == match DecodeFlags(xdr, cols, read, from) case Stopped(e) => Err(e) case Steps(nulled, _) => Ok(nulled)
  {
    hide Take, BytesVal;
    var values, at := read, from;
    for k := 0 to |cols|
      invariant |values| == |cols| && values[k..] == read[k..]
      invariant DecodeFlags(xdr, cols[..k], read[..k], from) == Steps(values[..k], at)
    {
      assert cols[..k + 1][..k] == cols[..k] && read[..k + 1][..k] == read[..k];
      ghost var done := values[..k];
      assert values[k] == read[k];
      if !cols[k].computed {
        var b := Take(xdr, at, 4);
        if b == None {
          FlagsStopped(xdr, cols, read, from, k + 1);
          return Err("a data row ended mid-field");
        }
        at := at + 4;
        if BytesVal(b.value) != 0 {
          values := values[k := Null];
        }
      }
      assert values[..k + 1] == done + [values[k]];
    }
    assert cols[..|cols|] == cols && read[..|cols|] == read && values[..|cols|] == values;
    r := Ok(values);
  }

  lemma {:induction false} FieldsStopped(xdr: Bytes, cols: seq<RCol>, k: nat)
    requires k <= |cols| && DecodeFields(xdr, cols[..k]).Stopped?
    ensures DecodeFields(xdr, cols) == DecodeFields(xdr, cols[..k])
  {
    if k == |cols| {
      assert cols[..k] == cols;
    } else {
      assert cols[..|cols| - 1][..k] == cols[..k];
      FieldsStopped(xdr, cols[..|cols| - 1], k);
    }
  }

  lemma {:induction false} FlagsStopped(xdr: Bytes, cols: seq<RCol>, values: seq<RVal>, at: nat, k: nat)
    requires k <= |cols| == |values| && DecodeFlags(xdr, cols[..k], values[..k], at).Stopped?
    ensures DecodeFlags(xdr, cols, values, at) == DecodeFlags(xdr, cols[..k], values[..k], at)
  {
    if k == |cols| {
      assert cols[..k] == cols && values[..k] == values;
    } else {
      var n := |cols| - 1;
      assert cols[..n][..k] == cols[..k] && values[..n][..k] == values[..k];
      FlagsStopped(xdr, cols[..n], values[..n], at, k);
    }
  }

  // ------------------------------------------------------------------ the round trip

  /** A reader's column describes a writer's: same type, and the lengths the catalog gives - a varying
      column's without its two-byte count. */
  predicate Describes(r: RCol, c: Col) {
    && r.computed == c.computed
    && (!c.computed ==>
          if c.dtype == ARRAY then r.dims > 0
          else r.dims <= 0 && FieldType(c.dtype) == Some(r.fieldType)
               && (c.dtype == VARYING ==> r.length + 2 == c.length) && (c.dtype == TEXT ==> r.length == c.length))
  }

  predicate DescribesAll(rcols: seq<RCol>, cols: seq<Col>) {
    |rcols| == |cols| && forall k :: 0 <= k < |cols| ==> Describes(rcols[k], cols[k])
  }

  function Width(c: Col): nat {
    match c.dtype
    case SHORT => 2
    case LONG => 4
    case INT64 => 8
    case VARYING => 2
    case TEXT => c.length
    case REAL => 4
    case SQL_DATE => 4
    case SQL_TIME => 4
    case DOUBLE => 8
    case TIMESTAMP => 8
    case BOOLEAN => 1
    case BLOB => 8
    case ARRAY => 8
    case OTHER => 0
  }

  /** The image holds the whole column, and a varying one no more than its column does. */
  predicate Holds(image: Bytes, c: Col) {
    && c.dtype != OTHER
    && (!IsNull(image, c.bit) ==>
          && c.offset + Width(c) <= |image|
          && (c.dtype == VARYING ==>
                var n := LeAt(image, c.offset, 2);
                c.offset + 2 + n <= |image| && n + 2 <= c.length))
  }

  predicate FullLength(image: Bytes, cols: seq<Col>) {
    forall c :: c in cols && !c.computed ==> Holds(image, c)
  }

  /** A stored column's value as the record has it. */
  function ValueAt(image: Bytes, c: Col): RVal
    requires Holds(image, c)
  {
    if IsNull(image, c.bit) then Null
    else
      var b := image[c.offset..c.offset + Width(c)];
      match c.dtype
      case SHORT => Int(Signed(LeVal(b), 2))
      case LONG => Int(Signed(LeVal(b), 4))
      case INT64 => Int(Signed(LeVal(b), 8))
      case VARYING => Chars(image[c.offset + 2..c.offset + 2 + LeAt(image, c.offset, 2)])
      case TEXT => Chars(b)
      case BLOB => Blob(false, [])
      case ARRAY => Array([], [])
      case _ => Raw(b)
  }

  function ValuesOf(image: Bytes, cols: seq<Col>): (v: seq<RVal>)
    requires FullLength(image, cols)
    ensures |v| == |cols|
  {
    seq(|cols|, k requires 0 <= k < |cols| => if cols[k].computed then Null else ValueAt(image, cols[k]))
  }

  /** The bytes of a field stand at a position of the row. */
  predicate StandsAt(xdr: Bytes, at: nat, field: Bytes) {
    at + |field| <= |xdr| && xdr[at..at + |field|] == field
  }

  lemma PartStands(xdr: Bytes, at: nat, field: Bytes, i: nat, j: nat)
    requires StandsAt(xdr, at, field) && i <= j <= |field|
    ensures Take(xdr, at + i, j - i) == Some(field[i..j])
  {
    var part := xdr[at + i..at + i + (j - i)];
    assert forall k :: 0 <= k < j - i ==> part[k] == xdr[at..at + |field|][i + k];
    assert part == field[i..j];
  }

  lemma StandSplit(xdr: Bytes, at: nat, a: Bytes, b: Bytes)
    requires StandsAt(xdr, at, a + b)
    ensures StandsAt(xdr, at, a) && StandsAt(xdr, at + |a|, b)
  {
    PartStands(xdr, at, a + b, 0, |a|);
    PartStands(xdr, at, a + b, |a|, |a + b|);
    assert (a + b)[..|a|] == a && (a + b)[|a|..] == b;
  }

  lemma IntegerField(image: Bytes, c: Col, r: RCol, xdr: Bytes, at: nat)
    requires Describes(r, c) && !c.computed && Holds(image, c) && (c.dtype == SHORT || c.dtype == LONG || c.dtype == INT64)
    requires StandsAt(xdr, at, Field(image, c).value)
    ensures var s := DecodeField(xdr, at, r);
            s.Step? && s.at == at + |Field(image, c).value| && (!IsNull(image, c.bit) ==> s.value == ValueAt(image, c))
  {
    hide LeVal, BytesVal, Le, BeInt, Pow, Be;
    var field := Field(image, c).value;
    var n := Width(c);
    var b := StoredOrZero(image, c, n);
    PartStands(xdr, at, field, 0, |field|);
    LeValBound(b);
    SignedFits(LeVal(b), n, |field|);
    SignedRoundTrip(Signed(LeVal(b), n), |field|);
    assert field == BeInt(Signed(LeVal(b), n), |field|);
  }

  lemma RawField(image: Bytes, c: Col, r: RCol, xdr: Bytes, at: nat)
    requires Describes(r, c) && !c.computed && Holds(image, c)
    requires c.dtype == REAL || c.dtype == SQL_DATE || c.dtype == SQL_TIME || c.dtype == DOUBLE || c.dtype == BOOLEAN
    requires StandsAt(xdr, at, Field(image, c).value)
    ensures var s := DecodeField(xdr, at, r);
            s.Step? && s.at == at + |Field(image, c).value| && (!IsNull(image, c.bit) ==> s.value == ValueAt(image, c))
  {
    hide ToBe, FromBe, BytesVal, LeVal;
    var field := Field(image, c).value;
    var b := StoredOrZero(image, c, Width(c));
    PartStands(xdr, at, field, 0, |field|);
    OrderRoundTrip(b);
    if c.dtype == BOOLEAN {
      assert field[0] == b[0] && b == [b[0]];
    }
  }

  lemma LongsField(image: Bytes, c: Col, r: RCol, xdr: Bytes, at: nat)
    requires Describes(r, c) && !c.computed && Holds(image, c) && (c.dtype == TIMESTAMP || c.dtype == BLOB || c.dtype == ARRAY)
    requires StandsAt(xdr, at, Field(image, c).value)
    ensures var s := DecodeField(xdr, at, r);
            s.Step? && s.at == at + |Field(image, c).value| && (!IsNull(image, c.bit) ==> s.value == ValueAt(image, c))
  {
    hide ToBe, FromBe, BytesVal, LeVal;
    var field := Field(image, c).value;
    var b := StoredOrZero(image, c, 8);
    PartStands(xdr, at, field, 0, 8);
    OrderRoundTrip(b[..4]);
    OrderRoundTrip(b[4..]);
    assert field[..4] == ToBe(b[..4]) && field[4..] == ToBe(b[4..]);
    assert b == b[..4] + b[4..];
  }

  lemma CharsField(image: Bytes, c: Col, r: RCol, xdr: Bytes, at: nat)
    requires Describes(r, c) && !c.computed && Holds(image, c) && c.dtype == TEXT
    requires StandsAt(xdr, at, Field(image, c).value)
    ensures var s := DecodeField(xdr, at, r);
            s.Step? && s.at == at + |Field(image, c).value| && (!IsNull(image, c.bit) ==> s.value == ValueAt(image, c))
  {
    var field := Field(image, c).value;
    PartStands(xdr, at, field, 0, c.length);
  }

  lemma VaryingField(image: Bytes, c: Col, r: RCol, xdr: Bytes, at: nat)
    requires Describes(r, c) && !c.computed && Holds(image, c) && c.dtype == VARYING
    requires StandsAt(xdr, at, Field(image, c).value)
    ensures var s := DecodeField(xdr, at, r);
            s.Step? && s.at == at + |Field(image, c).value| && (!IsNull(image, c.bit) ==> s.value == ValueAt(image, c))
  {
    hide LeVal, BytesVal, Be, Pow;
    var field, b := Field(image, c).value, VaryingBytes(image, c);
    Widths();
    if !IsNull(image, c.bit) {
      LeValBound(image[c.offset..c.offset + 2]);
    }
    BeRoundTrip(|b|, 4);
    PartStands(xdr, at, field, 0, 4);
    PartStands(xdr, at, field, 4, 4 + |b|);
    assert field[0..4] == Be(|b|, 4) && field[4..4 + |b|] == b;
  }

  /** One stored column: the reader's value is the record's, and it stops where the next one starts. */
  lemma FieldRoundTrip(image: Bytes, c: Col, r: RCol, xdr: Bytes, at: nat)
    requires Describes(r, c) && !c.computed && Holds(image, c) && StandsAt(xdr, at, Field(image, c).value)
    ensures var s := DecodeField(xdr, at, r);
            s.Step? && s.at == at + |Field(image, c).value| && (!IsNull(image, c.bit) ==> s.value == ValueAt(image, c))
  {
    hide Field, DecodeField, ValueAt, Describes;
    match c.dtype
    case SHORT => IntegerField(image, c, r, xdr, at);
    case LONG => IntegerField(image, c, r, xdr, at);
    case INT64 => IntegerField(image, c, r, xdr, at);
    case VARYING => VaryingField(image, c, r, xdr, at);
    case TEXT => CharsField(image, c, r, xdr, at);
    case TIMESTAMP => LongsField(image, c, r, xdr, at);
    case BLOB => LongsField(image, c, r, xdr, at);
    case ARRAY => LongsField(image, c, r, xdr, at);
    case REAL => RawField(image, c, r, xdr, at);
    case SQL_DATE => RawField(image, c, r, xdr, at);
    case SQL_TIME => RawField(image, c, r, xdr, at);
    case DOUBLE => RawField(image, c, r, xdr, at);
    case BOOLEAN => RawField(image, c, r, xdr, at);
  }

  predicate ZerosFrom(f: Bytes, k: nat) {
    forall i :: k <= i < |f| ==> f[i] == 0
  }

  /** The canonical form of a stored number: big-endian, in whole words (sections 4.1 and 4.5 of RFC
      4506), a quad and a time stamp as two words, a boolean in the first byte of one. */
  lemma NumberIsCanonical(image: Bytes, c: Col)
    requires Holds(image, c) && !IsNull(image, c.bit) && c.dtype != TEXT && c.dtype != VARYING
    ensures var f := Field(image, c).value; var b := image[c.offset..c.offset + Width(c)];
            && |f| % 4 == 0
            && (c.dtype == SHORT || c.dtype == LONG || c.dtype == INT64 ==> Signed(BytesVal(f), |f|) == Signed(LeVal(b), Width(c)))
            && (c.dtype == REAL || c.dtype == SQL_DATE || c.dtype == SQL_TIME || c.dtype == DOUBLE ==> BytesVal(f) == LeVal(b))
            && (c.dtype == TIMESTAMP || c.dtype == BLOB || c.dtype == ARRAY ==>
                  |f| == 8 && BytesVal(f[..4]) == LeVal(b[..4]) && BytesVal(f[4..]) == LeVal(b[4..]))
            && (c.dtype == BOOLEAN ==> f == b + [0, 0, 0])
  {
    hide LeVal, BytesVal, Be, Pow, Signed;
    var f, b := Field(image, c).value, image[c.offset..c.offset + Width(c)];
    LeValBound(b);
    if c.dtype == SHORT || c.dtype == LONG || c.dtype == INT64 {
      SignedFits(LeVal(b), Width(c), |f|);
      SignedRoundTrip(Signed(LeVal(b), Width(c)), |f|);
    } else if c.dtype == TIMESTAMP || c.dtype == BLOB || c.dtype == ARRAY {
      LeValBound(b[..4]);
      LeValBound(b[4..]);
      BeRoundTrip(LeVal(b[..4]), 4);
      BeRoundTrip(LeVal(b[4..]), 4);
      assert f[..4] == ToBe(b[..4]) && f[4..] == ToBe(b[4..]);
    } else {
      BeRoundTrip(LeVal(b), |b|);
    }
  }

  /** The canonical form of text: opaque bytes padded with zeros to whole words, behind a length word when
      it varies (sections 4.9 and 4.10 of RFC 4506). */
  lemma TextIsCanonical(image: Bytes, c: Col)
    requires Holds(image, c) && !IsNull(image, c.bit) && (c.dtype == TEXT || c.dtype == VARYING)
    ensures var f := Field(image, c).value; var b := ValueAt(image, c).bytes;
            && |f| % 4 == 0
            && (c.dtype == TEXT ==> |f| < |b| + 4 && f[..|b|] == b && ZerosFrom(f, |b|))
            && (c.dtype == VARYING ==> |f| < |b| + 8 && BytesVal(f[..4]) == |b| && f[4..4 + |b|] == b && ZerosFrom(f, 4 + |b|))
  {
    hide LeVal, BytesVal, Be, Pow;
    var f, b := Field(image, c).value, ValueAt(image, c).bytes;
    if c.dtype == VARYING {
      Widths();
      LeValBound(image[c.offset..c.offset + 2]);
      BeRoundTrip(|b|, 4);
      assert f[..4] == Be(|b|, 4) && f[4..4 + |b|] == b;
    }
  }

  /** Values where not null: the null ones are settled by the flags. */
  ghost predicate ValuesSoFar(image: Bytes, cols: seq<Col>, values: seq<RVal>)
    requires FullLength(image, cols)
  {
    && |values| == |cols|
    && forall k :: 0 <= k < |cols| ==>
         if cols[k].computed then values[k] == Null
         else !IsNull(image, cols[k].bit) ==> values[k] == ValueAt(image, cols[k])
  }

  lemma {:induction false} FieldsRoundTrip(image: Bytes, cols: seq<Col>, rcols: seq<RCol>, xdr: Bytes)
    requires DescribesAll(rcols, cols) && FullLength(image, cols)
    requires Fields(image, cols).Some? && Fields(image, cols).value <= xdr
    ensures var s := DecodeFields(xdr, rcols);
            s.Steps? && s.at == |Fields(image, cols).value| && ValuesSoFar(image, cols, s.values)
  {
    if cols != [] {
      hide Field, DecodeField, ValueAt, Describes, IsNull, Holds;
      var n := |cols| - 1;
      var c, r := cols[n], rcols[n];
      assert forall d :: d in cols[..n] ==> d in cols;
      assert c in cols;
      FieldsPrefix(image, cols, xdr);
      FieldsRoundTrip(image, cols[..n], rcols[..n], xdr);
      if !c.computed {
        FieldRoundTrip(image, c, r, xdr, |Fields(image, cols[..n]).value|);
      }
    }
  }

  lemma FieldsPrefix(image: Bytes, cols: seq<Col>, xdr: Bytes)
    requires cols != [] && Fields(image, cols).Some? && Fields(image, cols).value <= xdr
    ensures var n := |cols| - 1; var front := Fields(image, cols[..n]);
            && front.Some? && front.value <= xdr
            && (!cols[n].computed ==> Field(image, cols[n]).Some? && StandsAt(xdr, |front.value|, Field(image, cols[n]).value))
  {
    hide Field;
    var n := |cols| - 1;
    var whole := Fields(image, cols).value;
    var front := Fields(image, cols[..n]).value;
    if !cols[n].computed {
      var field := Field(image, cols[n]).value;
      assert whole == front + field && whole == xdr[..|whole|];
      assert xdr[..|front|] == whole[..|front|];
      assert xdr[|front|..|front| + |field|] == whole[|front|..];
    }
  }

  lemma FlagRoundTrip(isNull: bool)
    ensures BytesVal(Flag(isNull)) != 0 <==> isNull
  {
    if isNull {
      NonzeroValue(Flag(true));
    } else {
      var z := Flag(false);
      LeadingZero(z);
      assert z[1..] == [0, 0, 0];
      LeadingZero(z[1..]);
      LeadingZero(z[1..][1..]);
      LeadingZero(z[1..][1..][1..]);
      BytesEmpty();
    }
  }

  lemma {:induction false} FlagsRoundTrip(image: Bytes, cols: seq<Col>, rcols: seq<RCol>, values: seq<RVal>, xdr: Bytes, at: nat)
    requires DescribesAll(rcols, cols) && FullLength(image, cols) && ValuesSoFar(image, cols, values) && |values| == |cols|
    requires StandsAt(xdr, at, Flags(image, cols))
    ensures DecodeFlags(xdr, rcols, values, at) == Steps(ValuesOf(image, cols), at + |Flags(image, cols)|)
  {
    hide ValueAt, IsNull, Holds, BytesVal, Flag, StandsAt, Describes, Take, DecodeFlags, ValuesOf, ValuesSoFar, FullLength;
    hide Flags, DescribesAll;
    if cols == [] {
      NoFlags(image, rcols, values, xdr, at);
    } else {
      var n := |cols| - 1;
      var c, front := cols[n], Flags(image, cols[..n]);
      var isNull, last := IsNull(image, c.bit), ValuesOf(image, cols)[n];
      DescribesPrefix(rcols, cols);
      SoFarPrefix(image, cols, values);
      var before, next := ValuesOf(image, cols[..n]), at + |front|;
      FlagsPushed(image, cols, xdr, at);
      FlagsRoundTrip(image, cols[..n], rcols[..n], values[..n], xdr, at);
      ValuesPushed(image, cols);
      FlagRoundTrip(isNull);
      FlagStep(xdr, rcols, values, at, before, next, last, Flag(isNull));
    }
  }

  lemma NoFlags(image: Bytes, rcols: seq<RCol>, values: seq<RVal>, xdr: Bytes, at: nat)
    requires DescribesAll(rcols, []) && |values| == 0
    ensures FullLength(image, []) && DecodeFlags(xdr, rcols, values, at) == Steps(ValuesOf(image, []), at + |Flags(image, [])|)
  {
    assert ValuesOf(image, []) == [];
  }

  lemma DescribesPrefix(rcols: seq<RCol>, cols: seq<Col>)
    requires cols != [] && DescribesAll(rcols, cols)
    ensures var n := |cols| - 1; |rcols| == |cols| && DescribesAll(rcols[..n], cols[..n]) && rcols[n].computed == cols[n].computed
  {
  }

  lemma FlagsPushed(image: Bytes, cols: seq<Col>, xdr: Bytes, at: nat)
    requires cols != [] && StandsAt(xdr, at, Flags(image, cols))
    ensures var n := |cols| - 1; var front := Flags(image, cols[..n]);
            && StandsAt(xdr, at, front)
            && |Flags(image, cols)| == |front| + (if cols[n].computed then 0 else 4)
            && (!cols[n].computed ==> Take(xdr, at + |front|, 4) == Some(Flag(IsNull(image, cols[n].bit))))
  {
    hide IsNull, StandsAt, Take, Flag;
    var n := |cols| - 1;
    var front, isNull := Flags(image, cols[..n]), IsNull(image, cols[n].bit);
    assert front + [] == front;
    StandSplit(xdr, at, front, if cols[n].computed then [] else Flag(isNull));
    if !cols[n].computed {
      FlagTaken(xdr, at + |front|, isNull);
    }
  }

  lemma FlagStep(xdr: Bytes, cols: seq<RCol>, values: seq<RVal>, at: nat, before: seq<RVal>, next: nat, last: RVal, flag: Bytes)
    requires cols != [] && |values| == |cols|
    requires DecodeFlags(xdr, cols[..|cols| - 1], values[..|cols| - 1], at) == Steps(before, next)
    requires cols[|cols| - 1].computed ==> last == values[|cols| - 1]
    requires !cols[|cols| - 1].computed ==> Take(xdr, next, 4) == Some(flag)
                                            && last == if BytesVal(flag) != 0 then Null else values[|cols| - 1]
    ensures DecodeFlags(xdr, cols, values, at) == Steps(before + [last], if cols[|cols| - 1].computed then next else next + 4)
  {
  }

  lemma SoFarPrefix(image: Bytes, cols: seq<Col>, values: seq<RVal>)
    requires cols != [] && FullLength(image, cols) && ValuesSoFar(image, cols, values)
    ensures FullLength(image, cols[..|cols| - 1]) && |values| == |cols|
    ensures ValuesSoFar(image, cols[..|cols| - 1], values[..|cols| - 1])
    ensures var n := |cols| - 1; ValuesOf(image, cols)[n] == if !cols[n].computed && IsNull(image, cols[n].bit) then Null else values[n]
  {
    hide ValueAt, IsNull, Holds;
    var n := |cols| - 1;
    assert forall d :: d in cols[..n] ==> d in cols;
    assert cols[n] in cols;
    if !cols[n].computed {
      NullIs(image, cols[n]);
    }
  }

  lemma ValuesPushed(image: Bytes, cols: seq<Col>)
    requires cols != [] && FullLength(image, cols) && FullLength(image, cols[..|cols| - 1])
    ensures ValuesOf(image, cols) == ValuesOf(image, cols[..|cols| - 1]) + [ValuesOf(image, cols)[|cols| - 1]]
  {
  }

  lemma FlagTaken(xdr: Bytes, at: nat, isNull: bool)
    requires StandsAt(xdr, at, Flag(isNull))
    ensures Take(xdr, at, 4) == Some(Flag(isNull))
  {
    PartStands(xdr, at, Flag(isNull), 0, 4);
    assert Flag(isNull)[0..4] == Flag(isNull);
  }

  lemma NullIs(image: Bytes, c: Col)
    requires Holds(image, c)
    ensures IsNull(image, c.bit) ==> ValueAt(image, c) == Null
  {
  }

  /** Writing a row and reading it back gives every column's value, and null exactly where the record
      says so, for every list of stored columns and every full-length record. */
  lemma RowRoundTrip(image: Bytes, cols: seq<Col>, rcols: seq<RCol>)
    requires DescribesAll(rcols, cols) && FullLength(image, cols)
    ensures Row(image, cols).Some? && Decode(Row(image, cols).value, rcols) == Ok(ValuesOf(image, cols))
  {
    hide Field, ValueAt, IsNull, Holds, Describes;
    TypesKnown(image, cols);
    FieldsExist(image, cols);
    var fields, flags := Fields(image, cols).value, Flags(image, cols);
    var xdr := Row(image, cols).value;
    FieldsRoundTrip(image, cols, rcols, xdr);
    var values := DecodeFields(xdr, rcols).values;
    assert xdr == fields + flags;
    assert xdr[|fields|..|fields| + |flags|] == flags;
    FlagsRoundTrip(image, cols, rcols, values, xdr, |fields|);
  }

  lemma TypesKnown(image: Bytes, cols: seq<Col>)
    requires FullLength(image, cols)
    ensures forall c :: c in cols && !c.computed ==> c.dtype != OTHER
  {
  }
}
