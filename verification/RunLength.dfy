/** Run-length packing of records and backup rows, its unpacker, and the backup reader's own expansion
    loop, which knows literals and short repeats only. */
module RunLength {
  import opened Words
  import opened Power
  import opened ByteStrings
  import opened LittleEndian
  import opened Layout

  datatype Option<T> = None | Some(value: T)

  // ------------------------------------------------------------------ tokens

  /** What a packed stream is made of: up to 127 bytes as they are, a byte 3 to 128 times, or - in the
      extended form - a byte any 16-bit number of times. */
  datatype Token = Literal(data: Bytes) | Repeat(b: u8, n: nat) | Long(b: u8, n: nat)

  predicate WellFormed(t: Token) {
    match t
    case Literal(data) => 0 < |data| <= 127
    case Repeat(_, n) => 3 <= n <= 128
    case Long(_, n) => 128 < n < 0x1_0000
  }

  predicate AllWellFormed(ts: seq<Token>) {
    forall t :: t in ts ==> WellFormed(t)
  }

  predicate Plain(ts: seq<Token>) {
    forall t :: t in ts ==> !t.Long?
  }

  function Times(b: u8, n: nat): (r: Bytes)
    ensures |r| == n
  {
    seq(n, i => b)
  }

  function Meaning(t: Token): Bytes {
    match t
    case Literal(data) => data
    case Repeat(b, n) => Times(b, n)
    case Long(b, n) => Times(b, n)
  }

  function Encode(t: Token): (b: Bytes)
    requires WellFormed(t)
    ensures |b| > 0
  {
    match t
    case Literal(data) => [|data| as u8] + data
    case Repeat(b, n) => [(256 - n) as u8, b]
    case Long(b, n) => [255] + Le(n, 2) + [b]
  }

  function MeaningAll(ts: seq<Token>): Bytes {
    if ts == [] then [] else MeaningAll(ts[..|ts| - 1]) + Meaning(ts[|ts| - 1])
  }

  function EncodeAll(ts: seq<Token>): Bytes
    requires AllWellFormed(ts)
  {
    if ts == [] then [] else EncodeAll(ts[..|ts| - 1]) + Encode(ts[|ts| - 1])
  }

  lemma Pushed(ts: seq<Token>, t: Token)
    requires AllWellFormed(ts) && WellFormed(t)
    ensures AllWellFormed(ts + [t]) && EncodeAll(ts + [t]) == EncodeAll(ts) + Encode(t)
    ensures MeaningAll(ts + [t]) == MeaningAll(ts) + Meaning(t)
    ensures Plain(ts + [t]) <==> Plain(ts) && !t.Long?
  {
    assert (ts + [t])[..|ts + [t]| - 1] == ts;
  }

  /** Three equal bytes in a row are never left to a literal. */
  predicate NoTriple(d: Bytes) {
    forall k :: 0 <= k < |d| - 2 ==> !(d[k] == d[k + 1] == d[k + 2])
  }

  predicate Neat(t: Token) {
    t.Literal? ==> NoTriple(t.data)
  }

  function First(t: Token): u8
    requires WellFormed(t)
  {
    Meaning(t)[0]
  }

  function Last(t: Token): u8
    requires WellFormed(t)
  {
    Meaning(t)[|Meaning(t)| - 1]
  }

  /** What may stand behind a token: another byte, unless the token is the longest extended run; and a
      second literal behind a full one only. */
  predicate Follows(t: Token, u: Token)
    requires WellFormed(t) && WellFormed(u)
  {
    if t.Literal? && u.Literal? then |t.data| == 127 && NoTriple(t.data + u.data)
    else (t.Long? && t.n == 0xffff) || Last(t) != First(u)
  }

  /** The form every packed stream has. */
  predicate Tidy(ts: seq<Token>)
    requires AllWellFormed(ts)
  {
    && (forall t :: t in ts ==> Neat(t))
    && forall i :: 0 < i < |ts| ==> Follows(ts[i - 1], ts[i])
  }

  // ------------------------------------------------------------------ unpacking

  /** The repeat count and the length of its control bytes, for a control byte from 128 on. */
  function RunAt(input: Bytes): Option<(nat, nat)>
    requires input != [] && input[0] >= 128
  {
    if input[0] == 255 then (if |input| < 3 then None else Some((LeAt(input, 1, 2), 3)))
    else if input[0] == 254 then (if |input| < 5 then None else Some((LeAt(input, 1, 4), 5)))
    else Some((256 - input[0] as nat, 1))
  }

  function Before(a: Bytes, r: Option<Bytes>): Option<Bytes> {
    match r
    case None => None
    case Some(b) => Some(a + b)
  }

  /** `unpack`: nothing on a truncated stream. */
  function Unpacked(input: Bytes): Option<Bytes>
    decreases |input|
  {
    if input == [] then Some([])
    else if input[0] < 128 then
      var n := input[0] as nat;
      if 1 + n > |input| then None else Before(input[1..1 + n], Unpacked(input[1 + n..]))
    else
      match RunAt(input)
      case None => None
      case Some((run, used)) =>
        if used >= |input| then None else Before(Times(input[used], run), Unpacked(input[used + 1..]))
  }

  /** What is still wanted once n bytes more have come; without a limit, everything. */
  function Still(limit: Option<nat>, n: nat): Option<nat> {
    match limit
    case None => None
    case Some(m) => Some(if m < n then 0 else m - n)
  }

  /** `unpack_prefix`: the same, but it stops once enough has come. */
  function UnpackedTo(input: Bytes, limit: Option<nat>): Option<Bytes>
    decreases |input|
  {
    if input == [] || limit == Some(0) then Some([])
    else if input[0] < 128 then
      var n := input[0] as nat;
      if 1 + n > |input| then None else Before(input[1..1 + n], UnpackedTo(input[1 + n..], Still(limit, n)))
    else
      match RunAt(input)
      case None => None
      case Some((run, used)) =>
        if used >= |input| then None else Before(Times(input[used], run), UnpackedTo(input[used + 1..], Still(limit, run)))
  }

  lemma {:induction false} WithoutLimit(input: Bytes)
    ensures UnpackedTo(input, None) == Unpacked(input)
    decreases |input|
  {
    hide Times, LeVal;
    if input != [] {
      if input[0] < 128 {
        var n := input[0] as nat;
        if 1 + n <= |input| {
          WithoutLimit(input[1 + n..]);
        }
      } else {
        var r := RunAt(input);
        if r.Some? && r.value.1 < |input| {
          WithoutLimit(input[r.value.1 + 1..]);
        }
      }
    }
  }

  /** The early stop against the whole: what comes is the beginning of what the whole stream unpacks to,
      and as much as was wanted unless there is no more; nothing comes only of a stream the whole of
      which is truncated, and of such a stream no less than was wanted. */
  lemma {:induction false} PrefixOfWhole(input: Bytes, limit: nat)
    ensures var p, whole := UnpackedTo(input, Some(limit)), Unpacked(input);
            && (whole.Some? ==> p.Some? && p.value <= whole.value && (|p.value| >= limit || p == whole))
            && (whole == None && p.Some? ==> |p.value| >= limit)
    decreases |input|
  {
    hide Times, LeVal;
    if input != [] && limit > 0 {
      if input[0] < 128 {
        var n := input[0] as nat;
        if 1 + n <= |input| {
          PrefixOfWhole(input[1 + n..], Still(Some(limit), n).value);
        }
      } else {
        var r := RunAt(input);
        if r.Some? && r.value.1 < |input| {
          PrefixOfWhole(input[r.value.1 + 1..], Still(Some(limit), r.value.0).value);
        }
      }
    }
  }

  /** One token of a stream, seen from the middle of it. */
  lemma UnpackedAt(input: Bytes, i: nat, out: Bytes, limit: Option<nat>)
    requires i < |input| && limit != Some(0)
    ensures input[i] < 128 ==>
              var n := input[i] as nat;
              Before(out, UnpackedTo(input[i..], limit))
              == if i + 1 + n > |input| then None
                 else Before(out + input[i + 1..i + 1 + n], UnpackedTo(input[i + 1 + n..], Still(limit, n)))
    ensures input[i] >= 128 ==>
              var run, used := RunCount(input, i), RunUsed(input[i]);
              Before(out, UnpackedTo(input[i..], limit))
              == if i + used >= |input| then None
                 else Before(out + Times(input[i + used], run), UnpackedTo(input[i + used + 1..], Still(limit, run)))
  {
    hide LeVal, Times;
    var left := input[i..];
    if input[i] < 128 {
      var n := input[i] as nat;
      if i + 1 + n <= |input| {
        assert left[1..1 + n] == input[i + 1..i + 1 + n] && left[1 + n..] == input[i + 1 + n..];
        BeforeTwice(out, input[i + 1..i + 1 + n], UnpackedTo(input[i + 1 + n..], Still(limit, n)));
      }
    } else {
      var used := RunUsed(input[i]);
      if i + used < |input| {
        var run := RunCount(input, i);
        if input[i] >= 254 {
          LeAtSlice(input, i, 1, used - 1);
        }
        assert left[used] == input[i + used] && left[used + 1..] == input[i + used + 1..];
        BeforeTwice(out, Times(input[i + used], run), UnpackedTo(input[i + used + 1..], Still(limit, run)));
      }
    }
  }

  /** Control bytes of a run, and its count where they are all there. */
  function RunUsed(control: u8): nat {
    if control == 255 then 3 else if control == 254 then 5 else 1
  }

  function RunCount(input: Bytes, i: nat): nat
    requires i < |input| && input[i] >= 128
  {
    if i + RunUsed(input[i]) > |input| then 0
    else if input[i] == 255 then LeAt(input, i + 1, 2)
    else if input[i] == 254 then LeAt(input, i + 1, 4)
    else 256 - input[i] as nat
  }

  /** Enough has come. */
  predicate Enough(limit: Option<nat>, n: nat) {
    limit.Some? && n >= limit.value
  }

  lemma Stops(rest: Bytes, limit: Option<nat>, out: Bytes)
    requires rest == [] || Enough(limit, |out|)
    ensures Before(out, UnpackedTo(rest, Still(limit, |out|))) == Some(out)
  {
    assert out + [] == out;
  }

  method UnpackPrefix(input: Bytes, limit: Option<nat>) returns (r: Option<Bytes>)
    ensures r == UnpackedTo(input, limit)
  {
    hide LeAt, Times, Before, UnpackedTo;
    var out: Bytes := [];
    var i := 0;
    NothingBefore(UnpackedTo(input, limit));
    assert input[0..] == input && Still(limit, 0) == limit;
    while i < |input|
      invariant i <= |input|
      invariant UnpackedTo(input, limit) == Before(out, UnpackedTo(input[i..], Still(limit, |out|)))
    {
      if Enough(limit, |out|) {
        break;
      }
      UnpackedAt(input, i, out, Still(limit, |out|));
      var control := input[i];
      i := i + 1;
      if control < 128 {
        var n := control as nat;
        if i + n > |input| {
          return None;
        }
        assert Still(Still(limit, |out|), n) == Still(limit, |out| + n);
        out := out + input[i..i + n];
        i := i + n;
      } else {
        var run;
        if control == 255 {
          if i + 2 > |input| {
            return None;
          }
          run := LeAt(input, i, 2);
          i := i + 2;
        } else if control == 254 {
          if i + 4 > |input| {
            return None;
          }
          run := LeAt(input, i, 4);
          i := i + 4;
        } else {
          run := 256 - control as nat;
        }
        if i >= |input| {
          return None;
        }
        assert Still(Still(limit, |out|), run) == Still(limit, |out| + run);
        out := out + Times(input[i], run);
        i := i + 1;
      }
    }
    Stops(input[i..], limit, out);
    r := Some(out);
  }

  /** The whole record: no record comes near the limit it passes. */
  method Unpack(input: Bytes) returns (r: Option<Bytes>)
    ensures r == Unpacked(input)
  {
    r := UnpackPrefix(input, None);
    WithoutLimit(input);
  }

  lemma LeAtSlice(b: Bytes, from: nat, at: nat, k: nat)
    requires from + at + k <= |b|
    ensures LeAt(b[from..], at, k) == LeAt(b, from + at, k)
  {
    assert b[from..][at..at + k] == b[from + at..from + at + k];
  }

  lemma NothingBefore(r: Option<Bytes>)
    ensures Before([], r) == r
  {
    if r.Some? {
      assert [] + r.value == r.value;
    }
  }

  lemma BeforeTwice(a: Bytes, b: Bytes, r: Option<Bytes>)
    ensures Before(a, Before(b, r)) == Before(a + b, r)
  {
    if r.Some? {
      assert a + (b + r.value) == a + b + r.value;
    }
  }

  lemma UnpackToken(t: Token, rest: Bytes)
    requires WellFormed(t)
    ensures Unpacked(Encode(t) + rest) == Before(Meaning(t), Unpacked(rest))
  {
    var input := Encode(t) + rest;
    match t
    case Literal(data) =>
      assert input[1..1 + |data|] == data && input[1 + |data|..] == rest;
    case Repeat(b, n) =>
      assert input[2..] == rest;
    case Long(b, n) =>
      hide Le, LeVal;
      Widths();
      LeRoundTrip(n, 2);
      assert input[1..3] == Le(n, 2);
      assert input[4..] == rest;
  }

  /** A stream of tokens unpacks to their meanings. */
  lemma {:induction false} UnpackTokens(ts: seq<Token>, rest: Bytes)
    requires AllWellFormed(ts)
    ensures Unpacked(EncodeAll(ts) + rest) == Before(MeaningAll(ts), Unpacked(rest))
  {
    if ts == [] {
      assert [] + rest == rest;
      NothingBefore(Unpacked(rest));
    } else {
      var front, t := ts[..|ts| - 1], ts[|ts| - 1];
      assert EncodeAll(ts) + rest == EncodeAll(front) + (Encode(t) + rest);
      UnpackTokens(front, Encode(t) + rest);
      UnpackToken(t, rest);
      BeforeTwice(MeaningAll(front), Meaning(t), Unpacked(rest));
    }
  }

  /** The four forms of the stream by their control byte: that many bytes as they are, below 128; the next
      byte 256 minus it times, up to 253; 254 and 255 with the count in the four or two bytes behind, least
      first. Nothing comes of a stream that is over too soon. */
  lemma StreamForms(s: Bytes)
    requires s != []
    ensures var c := s[0] as nat;
            && (c < 128 ==> Unpacked(s) == if |s| < 1 + c then None else Before(s[1..1 + c], Unpacked(s[1 + c..])))
            && (128 <= c < 254 ==> Unpacked(s) == if |s| < 2 then None else Before(Times(s[1], 256 - c), Unpacked(s[2..])))
            && (c == 254 ==> Unpacked(s) == if |s| < 6 then None else Before(Times(s[5], Word32(s, 1)), Unpacked(s[6..])))
            && (c == 255 ==> Unpacked(s) == if |s| < 4 then None else Before(Times(s[3], Word16(s, 1)), Unpacked(s[4..])))
            && Unpacked([]) == Some([])
  {
    hide LeAt, Word16, Word32, Times, Before;
    WordsAt(s, 1);
  }

  lemma BeforeIs(a: Bytes, r: Option<Bytes>)
    ensures Before(a, r) == if r == None then None else Some(a + r.value)
  {
  }

  // ------------------------------------------------------------------ packing

  /** The same byte 129 times from a position. */
  predicate LongRunAt(input: Bytes, p: nat) {
    p + 129 <= |input| && forall k :: p <= k < p + 129 ==> input[k] == input[p]
  }

  ghost predicate NoLongRun(input: Bytes) {
    forall p: nat :: !LongRunAt(input, p)
  }

  /** A run ends here. */
  predicate Boundary(input: Bytes, i: nat) {
    i == 0 || i >= |input| || input[i - 1] != input[i]
  }

  predicate Uniform(input: Bytes, from: nat, to: nat, b: u8)
    requires to <= |input|
  {
    forall k :: from <= k < to ==> input[k] == b
  }

  predicate NoTripleIn(input: Bytes, from: nat, to: nat)
    requires to <= |input|
  {
    forall k :: from <= k < to - 2 ==> !(input[k] == input[k + 1] == input[k + 2])
  }

  /** The tokens so far, and a byte that may follow them whatever form it is packed in. */
  predicate Open(ts: seq<Token>, next: Bytes)
    requires AllWellFormed(ts)
  {
    && Tidy(ts)
    && (ts != [] && next != [] ==>
          var t := ts[|ts| - 1];
          !t.Literal? && ((t.Long? && t.n == 0xffff) || Last(t) != next[0]))
  }

  lemma TidyPushed(ts: seq<Token>, t: Token)
    requires AllWellFormed(ts) && WellFormed(t) && AllWellFormed(ts + [t]) && Tidy(ts) && Neat(t)
    requires ts != [] ==> Follows(ts[|ts| - 1], t)
    ensures Tidy(ts + [t])
  {
    hide Follows, Neat;
    var all := ts + [t];
    forall i | 0 < i < |all| ensures Follows(all[i - 1], all[i]) {
      if i < |ts| {
        assert all[i - 1] == ts[i - 1] && all[i] == ts[i];
      }
    }
  }

  /** Literals from `from` to `s` have been put behind `ts`, in full pieces as long as there is more. */
  predicate Flushed(input: Bytes, from: nat, s: nat, to: nat, ts: seq<Token>, us: seq<Token>)
    requires from <= s <= to <= |input| && AllWellFormed(us)
  {
    && Tidy(us) && (s == from ==> us == ts) && (Plain(us) <==> Plain(ts))
    && (s > from ==> us != [] && us[|us| - 1].Literal? && Last(us[|us| - 1]) == input[s - 1])
    && (from < s < to ==> s - from >= 127 && us[|us| - 1] == Literal(input[s - 127..s]))
  }

  lemma PieceNeat(input: Bytes, from: nat, to: nat, s: nat, n: nat)
    requires from <= s && s + n <= to <= |input| && NoTripleIn(input, from, to)
    ensures NoTriple(input[s..s + n])
    ensures s - from >= 127 ==> NoTriple(input[s - 127..s] + input[s..s + n])
  {
    var one := input[s..s + n];
    assert forall k :: 0 <= k < n ==> one[k] == input[s + k];
    if s - from >= 127 {
      var two := input[s - 127..s] + input[s..s + n];
      assert forall k :: 0 <= k < |two| ==> two[k] == input[s - 127 + k];
    }
  }

  /** One piece of a literal, behind a run or behind a full piece. */
  lemma PiecePushed(input: Bytes, from: nat, s: nat, to: nat, n: nat, ts: seq<Token>, us: seq<Token>)
    requires from <= s < to <= |input| && AllWellFormed(ts) && AllWellFormed(us) && NoTripleIn(input, from, to)
    requires Open(ts, input[from..]) && Flushed(input, from, s, to, ts, us) && n == if to - s < 127 then to - s else 127
    ensures AllWellFormed(us + [Literal(input[s..s + n])]) && Flushed(input, from, s + n, to, ts, us + [Literal(input[s..s + n])])
  {
    hide NoTriple, NoTripleIn, Follows, Open, Tidy, Plain, AllWellFormed, EncodeAll, MeaningAll, Encode;
    var t := Literal(input[s..s + n]);
    Pushed(us, t);
    PieceNeat(input, from, to, s, n);
    if us != [] {
      PieceFollows(input, from, s, to, n, ts, us);
    }
    TidyPushed(us, t);
    assert Last(t) == input[s + n - 1];
    assert s + n < to ==> n == 127 && input[s + n - 127..s + n] == t.data;
  }

  lemma PieceFollows(input: Bytes, from: nat, s: nat, to: nat, n: nat, ts: seq<Token>, us: seq<Token>)
    requires from <= s < to <= |input| && AllWellFormed(ts) && AllWellFormed(us) && NoTripleIn(input, from, to)
    requires Open(ts, input[from..]) && Flushed(input, from, s, to, ts, us) && n == if to - s < 127 then to - s else 127
    requires us != []
    ensures Follows(us[|us| - 1], Literal(input[s..s + n]))
  {
    hide NoTriple, NoTripleIn, Tidy;
    PieceNeat(input, from, to, s, n);
    assert us[|us| - 1] in us;
    assert First(Literal(input[s..s + n])) == input[s];
    assert input[from..][0] == input[from];
  }

  method FlushLiterals(input: Bytes, from: nat, to: nat, out: Bytes, ghost ts: seq<Token>) returns (r: Bytes, ghost us: seq<Token>)
    requires from <= to <= |input| && AllWellFormed(ts) && out == EncodeAll(ts) && MeaningAll(ts) == input[..from]
    requires Open(ts, input[from..]) && NoTripleIn(input, from, to)
    ensures AllWellFormed(us) && r == EncodeAll(us) && MeaningAll(us) == input[..to] && Flushed(input, from, to, to, ts, us)
  {
    hide EncodeAll, MeaningAll, Tidy, Flushed, Open, NoTripleIn, AllWellFormed;
    r, us := out, ts;
    var s := from;
    NothingFlushed(input, from, to, ts);
    while s < to
      invariant from <= s <= to && AllWellFormed(us) && r == EncodeAll(us) && MeaningAll(us) == input[..s]
      invariant Flushed(input, from, s, to, ts, us)
    {
      var n := if to - s < 127 then to - s else 127;
      ghost var t := Literal(input[s..s + n]);
      PiecePushed(input, from, s, to, n, ts, us);
      Pushed(us, t);
      r := r + ([n as u8] + input[s..s + n]);
      us := us + [t];
      assert input[..s] + input[s..s + n] == input[..s + n];
      s := s + n;
    }
  }

  lemma NothingFlushed(input: Bytes, from: nat, to: nat, ts: seq<Token>)
    requires from <= to <= |input| && AllWellFormed(ts) && Open(ts, input[from..])
    ensures Flushed(input, from, from, to, ts, ts)
  {
  }

  lemma RunMeaning(input: Bytes, from: nat, n: nat, b: u8)
    requires from + n <= |input| && Uniform(input, from, from + n, b)
    ensures input[..from] + Times(b, n) == input[..from + n]
  {
  }

  lemma OneRunMore(input: Bytes, i: nat, run: nat)
    requires 0 < run && i + run <= |input| && Uniform(input, i, i + run, input[i]) && Boundary(input, i)
    requires NoLongRun(input[..i])
    ensures run <= 128 ==> NoLongRun(input[..i + run])
    ensures run > 128 ==> !NoLongRun(input)
  {
    if run <= 128 {
      var x := input[..i + run];
      forall p: nat ensures !LongRunAt(x, p) {
        if p + 129 <= i {
          assert !LongRunAt(input[..i], p);
          assert forall k :: p <= k < p + 129 ==> input[..i][k] == x[k];
        } else if 0 < i && p < i {
          assert x[i - 1] == input[i - 1] && x[i] == input[i];
        }
      }
    } else {
      assert LongRunAt(input, i);
    }
  }

  /** The tokens of a run, maximal in the input, behind what came before it. */
  predicate RunDone(ts: seq<Token>, b: u8, left: nat)
    requires AllWellFormed(ts)
  {
    && Tidy(ts) && ts != [] && !ts[|ts| - 1].Literal? && Last(ts[|ts| - 1]) == b
    && (left > 0 ==> ts[|ts| - 1].Long? && ts[|ts| - 1].n == 0xffff)
  }

  lemma RunPushed(ts: seq<Token>, t: Token, left: nat)
    requires AllWellFormed(ts) && WellFormed(t) && Tidy(ts) && !t.Literal?
    requires ts != [] ==> (ts[|ts| - 1].Long? && ts[|ts| - 1].n == 0xffff) || Last(ts[|ts| - 1]) != t.b
    requires left > 0 ==> t.Long? && t.n == 0xffff
    ensures AllWellFormed(ts + [t]) && RunDone(ts + [t], t.b, left)
  {
    Pushed(ts, t);
    TidyPushed(ts, t);
  }

  /** One maximal run of three bytes or more, as repeats and extended repeats; fewer than three are left. */
  method PackRun(input: Bytes, i: nat, run: nat, out: Bytes, ghost ts: seq<Token>)
    returns (r: Bytes, left: nat, ghost us: seq<Token>)
    requires 3 <= run && i + run <= |input| && Uniform(input, i, i + run, input[i])
    requires AllWellFormed(ts) && out == EncodeAll(ts) && MeaningAll(ts) == input[..i] && Tidy(ts)
    requires ts != [] ==> (ts[|ts| - 1].Long? && ts[|ts| - 1].n == 0xffff) || Last(ts[|ts| - 1]) != input[i]
    ensures left < 3 && AllWellFormed(us) && r == EncodeAll(us) && MeaningAll(us) == input[..i + run - left]
    ensures (Plain(us) <==> Plain(ts) && run <= 128) && RunDone(us, input[i], left)
  {
    hide EncodeAll, MeaningAll, Le, Tidy, RunDone;
    r, us, left := out, ts, run;
    var b := input[i];
    while left >= 3
      invariant left <= run && AllWellFormed(us) && r == EncodeAll(us) && MeaningAll(us) == input[..i + run - left]
      invariant left == run ==> us == ts
      invariant left < run ==> (Plain(us) <==> Plain(ts) && run <= 128) && RunDone(us, b, left)
    {
      var n := if left > 128 then (if left < 0xffff then left else 0xffff) else left;
      RunMeaning(input, i + run - left, n, b);
      ghost var t := if left > 128 then Long(b, n) else Repeat(b, n);
      if left < run {
        RunLeft(us, b, left);
      }
      Pushed(us, t);
      RunPushed(us, t, left - n);
      if left > 128 {
        r := r + ([255] + Le(n, 2) + [b]);
        left := left - n;
      } else {
        r := r + [(256 - left) as u8, b];
        left := 0;
      }
      us := us + [t];
    }
  }

  lemma RunLeft(ts: seq<Token>, b: u8, left: nat)
    requires AllWellFormed(ts) && RunDone(ts, b, left)
    ensures Tidy(ts) && ts != [] && (left > 0 ==> ts[|ts| - 1].Long? && ts[|ts| - 1].n == 0xffff)
  {
  }

  /** What a row may be packed as. */
  ghost predicate PackedAs(row: Bytes, ts: seq<Token>) {
    AllWellFormed(ts) && Tidy(ts) && MeaningAll(ts) == row && (Plain(ts) <==> NoLongRun(row))
  }

  /** Bytes that no run token has taken yet: none of them stands three times in a row. */
  predicate Loose(input: Bytes, from: nat, i: nat, ts: seq<Token>)
    requires from <= i <= |input| && AllWellFormed(ts)
  {
    NoTripleIn(input, from, i) && Open(ts, input[from..])
  }

  lemma LooseMore(input: Bytes, from: nat, i: nat, run: nat, ts: seq<Token>)
    requires 0 < run < 3 && from <= i && i + run <= |input| && AllWellFormed(ts) && Loose(input, from, i, ts) && Boundary(input, i)
    requires Boundary(input, i + run) && Uniform(input, i, i + run, input[i])
    ensures Loose(input, from, i + run, ts)
  {
  }

  lemma LooseAfterRun(input: Bytes, i: nat, run: nat, left: nat, ts: seq<Token>)
    requires left < 3 <= run && i + run <= |input| && AllWellFormed(ts) && RunDone(ts, input[i], left)
    requires Boundary(input, i + run) && Uniform(input, i, i + run, input[i])
    ensures Loose(input, i + run - left, i + run, ts)
  {
    var s := i + run - left;
    assert input[s..] != [] ==> input[s..][0] == input[s];
    assert left == 0 ==> input[s - 1] == input[i];
  }

  lemma MayRun(input: Bytes, from: nat, i: nat, ts: seq<Token>, us: seq<Token>)
    requires from <= i < |input| && AllWellFormed(ts) && AllWellFormed(us) && Loose(input, from, i, ts) && Boundary(input, i)
    requires Flushed(input, from, i, i, ts, us)
    ensures Tidy(us) && (us != [] ==> (us[|us| - 1].Long? && us[|us| - 1].n == 0xffff) || Last(us[|us| - 1]) != input[i])
  {
    assert input[from..][0] == input[from];
  }

  /** `pack`: it always unpacks to the input, and stays within literals and short repeats exactly when
      the input has no run of more than 128 equal bytes. */
  method Pack(input: Bytes) returns (out: Bytes, ghost ts: seq<Token>)
    ensures PackedAs(input, ts) && out == EncodeAll(ts)
    ensures Unpacked(out) == Some(input)
  {
    hide EncodeAll, MeaningAll, Tidy, Loose, Flushed, RunDone, Open, NoTripleIn, NoLongRun;
    out, ts := [], [];
    Empty();
    var i, literalStart := 0, 0;
    NoneLoose(input);
    while i < |input|
      invariant literalStart <= i <= |input| && Boundary(input, i)
      invariant AllWellFormed(ts) && out == EncodeAll(ts) && MeaningAll(ts) == input[..literalStart]
      invariant Loose(input, literalStart, i, ts)
      invariant Plain(ts) ==> NoLongRun(input[..i])
      invariant !Plain(ts) ==> !NoLongRun(input)
    {
      var b := input[i];
      var run := 1;
      while i + run < |input| && input[i + run] == b
        invariant 1 <= run && i + run <= |input| && Uniform(input, i, i + run, b)
        decreases |input| - run
      {
        run := run + 1;
      }
      if Plain(ts) {
        OneRunMore(input, i, run);
      }
      if run >= 3 {
        ghost var before := ts;
        LooseParts(input, literalStart, i, ts);
        out, ts := FlushLiterals(input, literalStart, i, out, ts);
        MayRun(input, literalStart, i, before, ts);
        FlushedPlain(input, literalStart, i, before, ts);
        var left;
        out, left, ts := PackRun(input, i, run, out, ts);
        LooseAfterRun(input, i, run, left, ts);
        i := i + (run - left);
        literalStart := i;
        i := i + left;
      } else {
        LooseMore(input, literalStart, i, run, ts);
        i := i + run;
      }
    }
    ghost var before := ts;
    LooseParts(input, literalStart, i, ts);
    out, ts := FlushLiterals(input, literalStart, |input|, out, ts);
    FlushedPlain(input, literalStart, |input|, before, ts);
    assert input[..|input|] == input;
    UnpackTokens(ts, []);
    assert out + [] == out && input + [] == input;
  }

  lemma LooseParts(input: Bytes, from: nat, i: nat, ts: seq<Token>)
    requires from <= i <= |input| && AllWellFormed(ts) && Loose(input, from, i, ts)
    ensures NoTripleIn(input, from, i) && Open(ts, input[from..])
  {
  }

  lemma FlushedPlain(input: Bytes, from: nat, to: nat, ts: seq<Token>, us: seq<Token>)
    requires from <= to <= |input| && AllWellFormed(us) && Flushed(input, from, to, to, ts, us)
    ensures Tidy(us) && (Plain(us) <==> Plain(ts))
  {
  }

  lemma NoneLoose(input: Bytes)
    ensures Loose(input, 0, 0, []) && NoLongRun(input[..0])
  {
    assert input[0..] == input;
  }

  lemma Empty()
    ensures EncodeAll([]) == [] && MeaningAll([]) == []
  {
  }

  // ------------------------------------------------------------------ the backup reader

  datatype Expansion = Row(data: Bytes, rest: Bytes) | Ended(reason: string)

  /** The reader's loop: tokens until `want` bytes have come. Any control byte from 128 on repeats the
      next byte; the extended form is not known. */
  function Expand(f: Bytes, want: nat, got: Bytes): Expansion
    decreases |f|
  {
    if |got| >= want then Row(got, f)
    else if f == [] then Ended("a data row ended mid-stream")
    else
      var c := f[0] as nat;
      if c < 128 then
        if 1 + c > |f| then Ended("a data row ended mid-run") else Expand(f[1 + c..], want, got + f[1..1 + c])
      else if |f| < 2 then Ended("a data row ended mid-repeat")
      else Expand(f[2..], want, got + Times(f[1], 256 - c))
  }

  /** One token of the file, seen from the middle of it. */
  lemma ExpandAt(f: Bytes, at: nat, want: nat, got: Bytes)
    requires at < |f| && |got| < want
    ensures f[at] < 128 ==>
              var c := f[at] as nat;
              Expand(f[at..], want, got)
              == if at + 1 + c > |f| then Ended("a data row ended mid-run") else Expand(f[at + 1 + c..], want, got + f[at + 1..at + 1 + c])
    ensures f[at] >= 128 ==>
              Expand(f[at..], want, got)
              == if at + 1 >= |f| then Ended("a data row ended mid-repeat") else Expand(f[at + 2..], want, got + Times(f[at + 1], 256 - f[at] as nat))
  {
    hide Times;
    var left, c := f[at..], f[at] as nat;
    if c < 128 && at + 1 + c <= |f| {
      assert left[1..1 + c] == f[at + 1..at + 1 + c] && left[1 + c..] == f[at + 1 + c..];
    }
    if c >= 128 && at + 1 < |f| {
      assert left[1] == f[at + 1] && left[2..] == f[at + 2..];
    }
  }

  method ExpandRow(f: Bytes, start: nat, want: nat) returns (r: Expansion)
    requires start <= |f|
    ensures r == Expand(f[start..], want, [])
  {
    hide Expand, Times;
    var at, xdr := start, [];
    while |xdr| < want
      invariant start <= at <= |f| && Expand(f[start..], want, []) == Expand(f[at..], want, xdr)
      decreases |f| - at
    {
      if at >= |f| {
        ExpandEnds(f[at..], want, xdr);
        return Ended("a data row ended mid-stream");
      }
      ExpandAt(f, at, want, xdr);
      var c := f[at] as nat;
      at := at + 1;
      if c < 128 {
        if at + c > |f| {
          return Ended("a data row ended mid-run");
        }
        xdr := xdr + f[at..at + c];
        at := at + c;
      } else {
        if at >= |f| {
          return Ended("a data row ended mid-repeat");
        }
        xdr := xdr + Times(f[at], 256 - c);
        at := at + 1;
      }
    }
    ExpandEnds(f[at..], want, xdr);
    r := Row(xdr, f[at..]);
  }

  lemma ExpandEnds(f: Bytes, want: nat, got: Bytes)
    ensures |got| >= want ==> Expand(f, want, got) == Row(got, f)
    ensures |got| < want && f == [] ==> Expand(f, want, got) == Ended("a data row ended mid-stream")
  {
  }

  /** The reader's two forms: below 128 that many bytes as they are, from 128 on - 254 and 255 included - the
      next byte 256 minus the control byte times. */
  lemma ExpandForms(f: Bytes, want: nat, got: Bytes)
    requires f != [] && |got| < want
    ensures var c := f[0] as nat;
            && (c < 128 && 1 + c <= |f| ==> Expand(f, want, got) == Expand(f[1 + c..], want, got + f[1..1 + c]))
            && (c < 128 && 1 + c > |f| ==> Expand(f, want, got) == Ended("a data row ended mid-run"))
            && (c >= 128 && |f| >= 2 ==> Expand(f, want, got) == Expand(f[2..], want, got + Times(f[1], 256 - c)))
            && (c >= 128 && |f| < 2 ==> Expand(f, want, got) == Ended("a data row ended mid-repeat"))
  {
    hide Times;
  }

  lemma ExpandToken(t: Token, rest: Bytes, want: nat, got: Bytes)
    requires WellFormed(t) && !t.Long? && |got| < want
    ensures Expand(Encode(t) + rest, want, got) == Expand(rest, want, got + Meaning(t))
  {
    var f := Encode(t) + rest;
    match t
    case Literal(data) =>
      assert f[1..1 + |data|] == data && f[1 + |data|..] == rest;
    case Repeat(b, n) =>
      assert f[2..] == rest;
  }

  /** Plain tokens are expanded one by one, and the reader stops exactly behind the last. */
  lemma {:induction false} ExpandTokens(ts: seq<Token>, rest: Bytes, want: nat)
    requires AllWellFormed(ts) && Plain(ts) && |MeaningAll(ts)| <= want
    ensures Expand(EncodeAll(ts) + rest, want, []) == Expand(rest, want, MeaningAll(ts))
  {
    if ts == [] {
      assert [] + rest == rest;
    } else {
      var front, t := ts[..|ts| - 1], ts[|ts| - 1];
      assert EncodeAll(ts) + rest == EncodeAll(front) + (Encode(t) + rest);
      ExpandTokens(front, Encode(t) + rest, want);
      ExpandToken(t, rest, want, MeaningAll(front));
    }
  }

  /** A row without long runs: what is packed is read back, and nothing behind it is touched. */
  lemma PackedRowReads(row: Bytes, ts: seq<Token>, rest: Bytes)
    requires AllWellFormed(ts) && MeaningAll(ts) == row && Plain(ts)
    ensures Expand(EncodeAll(ts) + rest, |row|, []) == Row(row, rest)
  {
    ExpandTokens(ts, rest, |row|);
  }

  lemma {:induction false} ExpandConsumes(f: Bytes, want: nat, got: Bytes)
    ensures Expand(f, want, got).Row? ==> |Expand(f, want, got).rest| <= |f|
    ensures Expand(f, want, got).Row? && |got| < want ==> |Expand(f, want, got).rest| < |f|
    decreases |f|
  {
    if |got| < want && f != [] {
      var c := f[0] as nat;
      if c < 128 {
        if 1 + c <= |f| {
          ExpandConsumes(f[1 + c..], want, got + f[1..1 + c]);
        }
      } else if |f| >= 2 {
        ExpandConsumes(f[2..], want, got + Times(f[1], 256 - c));
      }
    }
  }

  lemma TwoBytes(n: nat)
    requires n < 0x1_0000
    ensures Le(n, 2) == [(n % 256) as u8, (n / 256) as u8]
  {
    assert Le(n, 2) == [(n % 256) as u8] + Le(n / 256, 1);
    assert Le(n / 256, 1) == [(n / 256 % 256) as u8] + Le(n / 256 / 256, 0);
  }
}
