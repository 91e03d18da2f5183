/** Why a packed row with a long run never comes back: the backup reader, taken byte by byte, falls
    behind at the first extended run and cannot catch up before the row's bytes are over. */
module LongRuns {
  import opened Words
  import opened Power
  import opened ByteStrings
  import opened LittleEndian
  import opened RunLength

  // ------------------------------------------------------------------ the reader, byte by byte

  /** What the next byte of the stream is to the reader: a control byte, one of the literal bytes still
      to be copied, or the byte to repeat. */
  datatype Mode = Control | Copy(left: nat) | Fill(count: nat)

  /** How often the next byte is put out. */
  function Now(m: Mode): (n: nat)
  {
    if m.Control? then 0 else if m.Copy? then 1 else m.count
  }

  function Copying(left: nat): Mode {
    if left == 0 then Control else Copy(left)
  }

  function Next(m: Mode, x: u8): Mode {
    if m.Control? then (if x < 128 then Copying(x as nat) else Fill(256 - x as nat))
    else if m.Copy? && m.left > 1 then Copy(m.left - 1)
    else Control
  }

  predicate Sane(m: Mode) {
    (m.Copy? ==> 1 <= m.left <= 127) && (m.Fill? ==> 1 <= m.count <= 128)
  }

  /** From mode `m` the reader takes all of `s` and puts out exactly `o`, ending before a control byte. */
  predicate Reads(m: Mode, s: Bytes, o: Bytes)
    decreases |s|
  {
    if s == [] then m.Control? && o == []
    else |o| >= Now(m) && o[..Now(m)] == Times(s[0], Now(m)) && Reads(Next(m, s[0]), s[1..], o[Now(m)..])
  }

  lemma {:induction false} CopiesRead(lit: Bytes, s: Bytes, o: Bytes)
    requires 0 < |lit|
    ensures Reads(Copy(|lit|), lit + s, lit + o) <==> Reads(Control, s, o)
    decreases |lit|
  {
    var f, p := lit + s, lit + o;
    assert f[0] == lit[0] && p[..1] == Times(lit[0], 1);
    assert f[1..] == lit[1..] + s && p[1..] == lit[1..] + o;
    if |lit| > 1 {
      CopiesRead(lit[1..], s, o);
    } else {
      assert lit[1..] + s == s && lit[1..] + o == o;
    }
  }

  lemma FirstByte(m: Mode, s: Bytes, o: Bytes)
    requires s != []
    ensures Reads(m, s, o) <==> |o| >= Now(m) && o[..Now(m)] == Times(s[0], Now(m)) && Reads(Next(m, s[0]), s[1..], o[Now(m)..])
  {
  }

  lemma LiteralReads(lit: Bytes, s: Bytes, o: Bytes)
    requires |lit| < 128 && Reads(Control, s, o)
    ensures Reads(Control, [|lit| as u8] + (lit + s), lit + o)
  {
    hide Reads;
    var f := [|lit| as u8] + (lit + s);
    assert f[1..] == lit + s && (lit + o)[0..] == lit + o && (lit + o)[..0] == Times(f[0], 0);
    FirstByte(Control, f, lit + o);
    if lit == [] {
      assert lit + s == s && lit + o == o;
    } else {
      CopiesRead(lit, s, o);
    }
  }

  lemma RepeatReads(c: u8, x: u8, s: Bytes, o: Bytes)
    requires 128 <= c && Reads(Control, s, o)
    ensures Reads(Control, [c, x] + s, Times(x, 256 - c as nat) + o)
  {
    hide Reads;
    var n := 256 - c as nat;
    var f, p := [c, x] + s, Times(x, n) + o;
    assert f[1..] == [x] + s && p[0..] == p && p[..0] == Times(f[0], 0);
    FirstByte(Control, f, p);
    assert f[1..][1..] == s && p[..n] == Times(x, n) && p[n..] == o;
    FirstByte(Fill(n), f[1..], p);
  }

  /** A row the loop returns, as the bytes it took for it and what it put out for them. */
  ghost predicate Took(f: Bytes, got: Bytes, data: Bytes, rest: Bytes, s: Bytes, o: Bytes) {
    f == s + rest && data == got + o && Reads(Control, s, o)
  }

  lemma TookLiteral(f: Bytes, got: Bytes, data: Bytes, rest: Bytes, s: Bytes, o: Bytes)
    requires f != [] && f[0] < 128 && 1 + f[0] as nat <= |f|
    requires var c := f[0] as nat; Took(f[1 + c..], got + f[1..1 + c], data, rest, s, o)
    ensures var lit := f[1..1 + f[0] as nat]; Took(f, got, data, rest, [f[0]] + (lit + s), lit + o)
  {
    hide Reads;
    var lit := f[1..1 + f[0] as nat];
    LiteralReads(lit, s, o);
    assert f == [f[0]] + lit + f[1 + |lit|..];
    assert got + lit + o == got + (lit + o);
  }

  lemma TookRepeat(f: Bytes, got: Bytes, data: Bytes, rest: Bytes, s: Bytes, o: Bytes)
    requires |f| >= 2 && f[0] >= 128
    requires Took(f[2..], got + Times(f[1], 256 - f[0] as nat), data, rest, s, o)
    ensures Took(f, got, data, rest, [f[0], f[1]] + s, Times(f[1], 256 - f[0] as nat) + o)
  {
    hide Reads, Times;
    var fill := Times(f[1], 256 - f[0] as nat);
    RepeatReads(f[0], f[1], s, o);
    assert f == [f[0], f[1]] + f[2..];
    assert got + fill + o == got + (fill + o);
  }

  /** The reader's loop is this machine: a row it returns is what the machine puts out for the bytes
      between the start and the rest. */
  lemma {:induction false} ExpandReads(f: Bytes, want: nat, got: Bytes) returns (s: Bytes, o: Bytes)
    requires Expand(f, want, got).Row?
    ensures var r := Expand(f, want, got); Took(f, got, r.data, r.rest, s, o)
    decreases |f|
  {
    hide Took, Times;
    var r := Expand(f, want, got);
    if |got| >= want {
      NothingTook(f, got);
      return [], [];
    }
    var c := f[0] as nat;
    if c < 128 {
      s, o := ExpandReads(f[1 + c..], want, got + f[1..1 + c]);
      TookLiteral(f, got, r.data, r.rest, s, o);
      s, o := [f[0]] + (f[1..1 + c] + s), f[1..1 + c] + o;
    } else {
      s, o := ExpandReads(f[2..], want, got + Times(f[1], 256 - c));
      TookRepeat(f, got, r.data, r.rest, s, o);
      s, o := [f[0], f[1]] + s, Times(f[1], 256 - c) + o;
    }
  }

  lemma NothingTook(f: Bytes, got: Bytes)
    ensures Took(f, got, got, f, [], [])
  {
    assert f == [] + f && got == got + [];
  }

  // ------------------------------------------------------------------ falling behind

  predicate Same(p: Bytes) {
    forall k :: 0 <= k < |p| ==> p[k] == p[0]
  }

  /** The reader owes `p`, and the next byte alone cannot pay it off. */
  predicate Lags(m: Mode, p: Bytes) {
    |p| > Now(m) || !Same(p)
  }

  lemma Taken(m: Mode, x: u8, s: Bytes, o: Bytes)
    requires Sane(m) && Reads(m, [x] + s, o)
    ensures |o| >= Now(m) && o[..Now(m)] == Times(x, Now(m)) && Reads(Next(m, x), s, o[Now(m)..]) && Sane(Next(m, x))
  {
    assert ([x] + s)[1..] == s;
  }

  /** A lagging reader takes one byte and still owes something. */
  lemma StillOwes(m: Mode, x: u8, s: Bytes, p: Bytes, q: Bytes)
    requires Sane(m) && Lags(m, p) && Reads(m, [x] + s, p + q)
    ensures Now(m) < |p| && p[..Now(m)] == Times(x, Now(m)) && Sane(Next(m, x))
    ensures Reads(Next(m, x), s, p[Now(m)..] + q)
  {
    hide Reads;
    Taken(m, x, s, p + q);
    var n := Now(m);
    if |p| <= n {
      forall k | 0 <= k < |p| ensures p[k] == x {
        assert (p + q)[..n][k] == p[k] && Times(x, n)[k] == x;
      }
      assert false;
    }
    assert (p + q)[..n] == p[..n] && (p + q)[n..] == p[n..] + q;
  }

  lemma AllAre(o: Bytes, n: nat, x: u8)
    requires n <= |o| && o[..n] == Times(x, n)
    ensures forall k :: 0 <= k < n ==> o[k] == x
  {
    assert forall k :: 0 <= k < n ==> o[k] == o[..n][k];
  }

  /** However it goes, a byte pays off at most 128. */
  lemma {:induction false} Pays(m: Mode, s: Bytes, more: Bytes, o: Bytes) returns (m2: Mode, used: nat)
    requires Sane(m) && Reads(m, s + more, o)
    ensures Sane(m2) && used <= 128 * |s| && used <= |o| && Reads(m2, more, o[used..])
    decreases |s|
  {
    hide Reads;
    if s == [] {
      assert s + more == more && o[0..] == o;
      return m, 0;
    }
    assert s + more == [s[0]] + (s[1..] + more);
    Taken(m, s[0], s[1..] + more, o);
    var n := Now(m);
    m2, used := Pays(Next(m, s[0]), s[1..], more, o[n..]);
    assert o[n..][used..] == o[n + used..];
    used := n + used;
  }

  /** Two states a literal can leave the reader in although it no longer lags, about to repeat or to copy
      what the next control byte is not: that byte shows that it has gone astray. */
  predicate Jammed(m: Mode, p: Bytes) {
    m.Fill? && m.count >= 2 && |p| == 2 && p[0] == p[1] && p[0] as nat + m.count == 256
  }

  predicate Dry(m: Mode, p: Bytes) {
    m.Copy? && |p| == 1 && p[0] < 128
  }

  /** Owing two bytes in the middle of a literal, one of them is the count the literal began with. */
  predicate Held(m: Mode, p: Bytes) {
    m.Copy? && |p| == 2 ==> m.left <= p[0] as nat < 128 || m.left <= p[1] as nat < 128
  }

  /** What the reader owes behind the token `t`. */
  predicate Behind(t: Token, m: Mode, p: Bytes)
    requires WellFormed(t)
  {
    && Sane(m) && p != [] && p[|p| - 1] == Last(t)
    && (t.Long? && t.n == 0xffff ==> |p| > 65000)
    && (Lags(m, p) || (t.Literal? && Jammed(m, p)) || (t.Literal? && |t.data| < 127 && Dry(m, p)))
    && (t.Literal? && |t.data| == 127 ==> Held(m, p) && (|p| >= 2 ==> p[|p| - 2] == t.data[125]))
  }

  /** Behind the longest extended run the debt outlasts any token. */
  lemma AnyStep(m: Mode, p: Bytes, u: Token, s: Bytes, q: Bytes) returns (m2: Mode, p2: Bytes)
    requires WellFormed(u) && Sane(m) && Reads(m, Encode(u) + s, p + (Meaning(u) + q))
    requires |p| > 65000 || (u.Long? && u.n > 640)
    ensures Behind(u, m2, p2) && Reads(m2, s, p2 + q)
  {
    hide Reads, Le;
    var used;
    m2, used := Pays(m, Encode(u), s, p + (Meaning(u) + q));
    var all := p + Meaning(u);
    assert p + (Meaning(u) + q) == all + q;
    p2 := all[used..];
    assert (all + q)[used..] == p2 + q;
    Widths();
  }

  lemma RepeatStep(t: Token, m: Mode, p: Bytes, u: Token, s: Bytes, q: Bytes) returns (m2: Mode, p2: Bytes)
    requires WellFormed(t) && WellFormed(u) && u.Repeat? && Behind(t, m, p) && Last(t) != First(u)
    requires Reads(m, Encode(u) + s, p + (Meaning(u) + q))
    ensures Behind(u, m2, p2) && Reads(m2, s, p2 + q)
  {
    hide Reads, Lags;
    var c, z, o := (256 - u.n) as u8, u.b, Meaning(u) + q;
    assert Encode(u) + s == [c] + ([z] + s);
    NotAstray(t, m, p, c, [z] + s, o, u);
    StillOwes(m, c, [z] + s, p, o);
    m2, p2 := RunByte(Next(m, c), p[Now(m)..], z, u.n, s, q);
  }

  /** The byte of a run cannot pay off what is owed from before: that ends in another byte. */
  lemma RunByte(m: Mode, p: Bytes, z: u8, k: nat, s: Bytes, q: Bytes) returns (m2: Mode, p2: Bytes)
    requires Sane(m) && p != [] && p[|p| - 1] != z && k > 0 && Reads(m, [z] + s, p + (Times(z, k) + q))
    ensures Sane(m2) && p2 != [] && p2[|p2| - 1] == z && Lags(m2, p2) && Reads(m2, s, p2 + q)
  {
    hide Reads;
    var run, n, last := Times(z, k), Now(m), |p| - 1;
    Taken(m, z, s, p + (run + q));
    AllAre(p + (run + q), n, z);
    assert (p + (run + q))[last] == p[last];
    m2, p2 := Next(m, z), p[n..] + run;
    assert (p + (run + q))[n..] == p2 + q;
    assert p2[last - n] == p[last] && p2[|p2| - 1] == z;
  }

  /** Behind an incomplete literal stands a run, and its control byte shows a reader that went astray. */
  lemma NotAstray(t: Token, m: Mode, p: Bytes, c: u8, s: Bytes, q: Bytes, u: Token)
    requires WellFormed(t) && WellFormed(u) && Behind(t, m, p) && Last(t) != First(u) && !u.Literal?
    requires c == Encode(u)[0] && Reads(m, [c] + s, p + q) && q != [] && q[0] == First(u)
    ensures Lags(m, p)
  {
    hide Reads, Le;
    Taken(m, c, s, p + q);
    var n := Now(m);
    assert forall k :: 0 <= k < n ==> (p + q)[..n][k] == (p + q)[k] && Times(c, n)[k] == c;
    assert (p + q)[0] == p[0] && (p + q)[|p|] == q[0];
  }

  // ------------------------------------------------------------------ extended runs

  /** An extended run of at most 640 bytes, behind its first control byte. */
  lemma LongTail(m: Mode, p: Bytes, b: u8, n: nat, s: Bytes, q: Bytes) returns (m2: Mode, p2: Bytes)
    requires 128 < n <= 640 && Sane(m) && (m.Fill? ==> m.count == 1)
    requires if p == [] then m == Fill(1) else p[|p| - 1] != b
    requires Reads(m, [(n % 256) as u8, (n / 256) as u8, b] + s, p + (Times(b, n) + q))
    ensures Sane(m2) && p2 != [] && p2[|p2| - 1] == b && Lags(m2, p2) && Reads(m2, s, p2 + q)
  {
    hide Reads, Times, Lags, Next;
    var lo, hi := (n % 256) as u8, (n / 256) as u8;
    var all := p + Times(b, n);
    assert p + (Times(b, n) + q) == all + q && |all| == |p| + n;
    FewTaken(m, p, n, lo, hi);
    m2, p2 := ThreeBytes(m, lo, hi, b, s, all, q);
    FewEaten(m, p, b, n, all);
    TimesEnd(b, n);
    assert all[|all| - 1] == b;
    MuchLeft(m2, p2);
  }

  lemma ThreeBytes(m: Mode, x: u8, y: u8, z: u8, s: Bytes, all: Bytes, q: Bytes) returns (m2: Mode, p2: Bytes)
    requires Sane(m) && Reads(m, [x, y, z] + s, all + q)
    requires Now(m) + Now(Next(m, x)) + Now(Next(Next(m, x), y)) <= |all|
    ensures Sane(m2) && m2 == Next(Next(Next(m, x), y), z) && Reads(m2, s, p2 + q)
    ensures all[..Now(m)] == Times(x, Now(m)) && all[Now(m)..][..Now(Next(m, x))] == Times(y, Now(Next(m, x)))
    ensures p2 == all[Now(m) + Now(Next(m, x)) + Now(Next(Next(m, x), y))..]
  {
    hide Reads, Times, Next, Now;
    assert [x, y, z] + s == [x] + ([y, z] + s) && [y, z] + s == [y] + ([z] + s);
    var m1, o1 := OneOf(m, x, [y, z] + s, all, q);
    var m3, o3 := OneOf(m1, y, [z] + s, o1, q);
    m2, p2 := OneOf(m3, z, s, o3, q);
    var n0, n1, n3 := Now(m), Now(m1), Now(m3);
    assert p2 == all[n0..][n1..][n3..] == all[n0 + n1 + n3..];
  }

  lemma MuchLeft(m: Mode, p: Bytes)
    requires |p| > Now(m)
    ensures Lags(m, p)
  {
  }

  lemma FewTaken(m: Mode, p: Bytes, n: nat, lo: u8, hi: u8)
    requires 128 < n && hi <= 2 && Sane(m) && (m.Fill? ==> m.count == 1)
    ensures Now(m) + Now(Next(m, lo)) + Now(Next(Next(m, lo), hi)) <= |p| + n
  {
  }

  lemma TimesEnd(b: u8, n: nat)
    requires n > 0
    ensures Times(b, n)[0] == Times(b, n)[n - 1] == b
  {
  }

  /** Its count bytes take so little of the run that much of it stays owed. */
  lemma FewEaten(m: Mode, p: Bytes, b: u8, n: nat, all: Bytes)
    requires 128 < n <= 640 && Sane(m) && (m.Fill? ==> m.count == 1) && all == p + Times(b, n)
    requires if p == [] then m == Fill(1) else p[|p| - 1] != b
    requires var lo := (n % 256) as u8; all[..Now(m)] == Times(lo, Now(m))
    requires var lo, hi := (n % 256) as u8, (n / 256) as u8;
             var m1 := Next(m, lo);
             Now(m) + Now(m1) <= |all| && all[Now(m)..][..Now(m1)] == Times(hi, Now(m1))
    ensures var m1 := Next(m, (n % 256) as u8);
            var m3 := Next(m1, (n / 256) as u8);
            var left := |all| - Now(m) - Now(m1) - Now(m3);
            left > 0 && left > Now(Next(m3, b))
  {
    var lo, hi := (n % 256) as u8, (n / 256) as u8;
    var m1 := Next(m, lo);
    var n0, n1 := Now(m), Now(m1);
    AllAre(all, n0, lo);
    AllAre(all[n0..], n1, hi);
    assert all[|p|] == b && (p != [] ==> all[|p| - 1] == p[|p| - 1]);
    assert |p| >= n0 ==> all[n0..][|p| - n0] == all[|p|];
    assert |p| > n0 ==> all[n0..][|p| - n0 - 1] == all[|p| - 1];
  }

  /** A byte out of a debt that covers it. */
  lemma OneOf(m: Mode, x: u8, s: Bytes, all: Bytes, q: Bytes) returns (m2: Mode, p2: Bytes)
    requires Sane(m) && Reads(m, [x] + s, all + q) && |all| >= Now(m)
    ensures Sane(m2) && m2 == Next(m, x) && Reads(m2, s, p2 + q)
    ensures all[..Now(m)] == Times(x, Now(m)) && p2 == all[Now(m)..]
  {
    hide Reads, Times;
    Taken(m, x, s, all + q);
    m2, p2 := Next(m, x), all[Now(m)..];
    assert (all + q)[..Now(m)] == all[..Now(m)] && (all + q)[Now(m)..] == p2 + q;
  }

  lemma LongStep(t: Token, m: Mode, p: Bytes, u: Token, s: Bytes, q: Bytes) returns (m2: Mode, p2: Bytes)
    requires WellFormed(t) && WellFormed(u) && u.Long? && Behind(t, m, p) && Last(t) != First(u)
    requires Reads(m, Encode(u) + s, p + (Meaning(u) + q))
    ensures Behind(u, m2, p2) && Reads(m2, s, p2 + q)
  {
    hide Reads, Lags, Le;
    if u.n > 640 {
      m2, p2 := AnyStep(m, p, u, s, q);
    } else {
      var code := [(u.n % 256) as u8, (u.n / 256) as u8, u.b];
      TwoBytes(u.n);
      assert Encode(u) + s == [255] + (code + s);
      NotAstray(t, m, p, 255, code + s, Meaning(u) + q, u);
      StillOwes(m, 255, code + s, p, Meaning(u) + q);
      m2, p2 := LongTail(Next(m, 255), p[Now(m)..], u.b, u.n, s, q);
    }
  }

  /** The first extended run, met by a reader that owes nothing. */
  lemma FirstLong(u: Token, s: Bytes, q: Bytes) returns (m2: Mode, p2: Bytes)
    requires WellFormed(u) && u.Long? && Reads(Control, Encode(u) + s, Meaning(u) + q)
    ensures Behind(u, m2, p2) && Reads(m2, s, p2 + q)
  {
    hide Reads, Lags, Le;
    var o := Meaning(u) + q;
    assert [] + o == o;
    if u.n > 640 {
      m2, p2 := AnyStep(Control, [], u, s, q);
    } else {
      var code := [(u.n % 256) as u8, (u.n / 256) as u8, u.b];
      TwoBytes(u.n);
      assert Encode(u) + s == [255] + (code + s);
      Taken(Control, 255, code + s, o);
      assert o[0..] == o;
      m2, p2 := LongTail(Fill(1), [], u.b, u.n, s, q);
    }
  }

  // ------------------------------------------------------------------ literals

  /** In a literal, `i` bytes into `d`; the literal itself began at `base`, and before it `d` has what the
      stream put out last. */
  predicate InLiteral(d: Bytes, i: nat, base: nat, m: Mode, p: Bytes) {
    && 0 < i <= |d| && base <= i && NoTriple(d) && (i == 1 ==> |d| > 1 && d[0] != d[1])
    && Sane(m) && p != [] && p[|p| - 1] == d[i - 1] && (|p| >= 2 && i >= 2 ==> p[|p| - 2] == d[i - 2])
    && (Lags(m, p) || (Jammed(m, p) && i >= 2))
    && (m.Copy? && |p| == 2 ==> m.left + (i - base) <= 127 || Held(m, p))
  }

  lemma LiteralByte(d: Bytes, i: nat, base: nat, m: Mode, p: Bytes, s: Bytes, q: Bytes) returns (m2: Mode, p2: Bytes)
    requires InLiteral(d, i, base, m, p) && i < |d| && Reads(m, [d[i]] + s, p + ([d[i]] + q))
    ensures InLiteral(d, i + 1, base, m2, p2) && Reads(m2, s, p2 + q)
  {
    hide Reads;
    var x := d[i];
    Taken(m, x, s, p + ([x] + q));
    AllAre(p + ([x] + q), Now(m), x);
    assert (p + ([x] + q))[0] == p[0];
    assert Lags(m, p);
    StillOwes(m, x, s, p, [x] + q);
    var n := Now(m);
    m2, p2 := Next(m, x), p[n..] + [x];
    assert p[n..] + ([x] + q) == p2 + q;
    assert p2[|p2| - 2] == p[|p| - 1];
    if m.Control? && x >= 128 {
      assert p2 == p + [x];
      if |p| >= 2 {
        assert p2[|p| - 2] == p[|p| - 2] && p2[|p|] == x;
        assert !Same(p2);
      }
    }
  }

  lemma {:induction false} LiteralRest(d: Bytes, i: nat, base: nat, m: Mode, p: Bytes, s: Bytes, q: Bytes) returns (m2: Mode, p2: Bytes)
    requires i <= |d| && InLiteral(d, i, base, m, p) && Reads(m, d[i..] + s, p + (d[i..] + q))
    ensures InLiteral(d, |d|, base, m2, p2) && Reads(m2, s, p2 + q)
    decreases |d| - i
  {
    hide Reads, InLiteral;
    if i == |d| {
      assert d[i..] + s == s && d[i..] + q == q;
      return m, p;
    }
    assert d[i..] + s == [d[i]] + (d[i + 1..] + s) && d[i..] + q == [d[i]] + (d[i + 1..] + q);
    m2, p2 := LiteralByte(d, i, base, m, p, d[i + 1..] + s, d[i + 1..] + q);
    m2, p2 := LiteralRest(d, i + 1, base, m2, p2, s, q);
  }

  lemma LiteralEnds(d: Bytes, base: nat, u: Token, m: Mode, p: Bytes)
    requires WellFormed(u) && u.Literal? && base + |u.data| == |d| && d[base..] == u.data && InLiteral(d, |d|, base, m, p)
    ensures Behind(u, m, p)
  {
    hide Lags, Same;
    assert u.data[|u.data| - 1] == d[|d| - 1];
    assert |u.data| == 127 ==> u.data[125] == d[|d| - 2];
  }

  /** The count of a literal: the reader has more to give than that one byte. */
  lemma CountByte(t: Token, m: Mode, p: Bytes, u: Token, s: Bytes, q: Bytes) returns (m1: Mode, p1: Bytes)
    requires WellFormed(t) && WellFormed(u) && u.Literal? && Behind(t, m, p) && (t.Literal? ==> |t.data| == 127)
    requires Reads(m, Encode(u) + s, p + q)
    ensures Sane(m1) && Reads(m1, u.data + s, p1 + q) && p1 != [] && p1[|p1| - 1] == Last(t) && !m1.Fill?
    ensures |p1| <= |p| && (|p1| >= 2 ==> p1[|p1| - 2] == p[|p| - 2])
    ensures m1.Copy? && |p1| == 1 ==> m1.left == |u.data| || (p == [|u.data| as u8] + p1 && m == Copy(m1.left + 1))
  {
    hide Reads;
    var c := |u.data| as u8;
    assert Encode(u) + s == [c] + (u.data + s);
    Taken(m, c, u.data + s, p + q);
    AllAre(p + q, Now(m), c);
    assert (p + q)[0] == p[0];
    assert Lags(m, p);
    StillOwes(m, c, u.data + s, p, q);
    m1, p1 := Next(m, c), p[Now(m)..];
    AllAre(p, Now(m), c);
  }

  /** Another byte than the last: it cannot be what the reader is about to copy. */
  lemma LiteralBegins(t: Token, m1: Mode, p1: Bytes, u: Token, s: Bytes, q: Bytes) returns (m2: Mode, p2: Bytes)
    requires WellFormed(t) && WellFormed(u) && u.Literal? && Neat(u) && Last(t) != First(u)
    requires Sane(m1) && p1 != [] && p1[|p1| - 1] == Last(t) && !m1.Fill?
    requires Reads(m1, u.data + s, p1 + (u.data + q))
    ensures Behind(u, m2, p2) && Reads(m2, s, p2 + q)
  {
    hide Reads;
    var y, d := Last(t), [Last(t)] + u.data;
    assert d[1..] == u.data && d[1] == First(u);
    assert u.data + s == [u.data[0]] + (u.data[1..] + s);
    Taken(m1, u.data[0], u.data[1..] + s, p1 + (u.data + q));
    AllAre(p1 + (u.data + q), Now(m1), u.data[0]);
    assert (p1 + (u.data + q))[0] == p1[0];
    assert NoTriple(d) by {
      assert forall k :: 1 <= k < |d| ==> d[k] == u.data[k - 1];
    }
    m2, p2 := LiteralRest(d, 1, 1, m1, p1, s, q);
    LiteralEnds(d, 1, u, m2, p2);
  }

  /** A second literal that goes on with the byte the full one ended with. */
  lemma LiteralGoesOn(t: Token, m: Mode, p: Bytes, m1: Mode, p1: Bytes, u: Token, s: Bytes, q: Bytes) returns (m2: Mode, p2: Bytes)
    requires WellFormed(t) && WellFormed(u) && t.Literal? && u.Literal? && Follows(t, u) && Last(t) == First(u) && Behind(t, m, p)
    requires Sane(m1) && p1 != [] && p1[|p1| - 1] == Last(t) && !m1.Fill?
    requires |p1| <= |p| && (|p1| >= 2 ==> p1[|p1| - 2] == p[|p| - 2])
    requires m1.Copy? && |p1| == 1 ==> m1.left == |u.data| || (p == [|u.data| as u8] + p1 && m == Copy(m1.left + 1))
    requires Reads(m1, u.data + s, p1 + (u.data + q))
    ensures Behind(u, m2, p2) && Reads(m2, s, p2 + q)
  {
    hide Reads, NoTriple;
    var d := t.data + u.data;
    assert d[127..] == u.data && d[126] == Last(t) && d[125] == t.data[125];
    if m1.Control? || |p1| >= 2 {
      m2, p2 := LiteralRest(d, 127, 127, m1, p1, s, q);
      LiteralEnds(d, 127, u, m2, p2);
    } else {
      m2, p2 := LiteralDries(t, m, p, m1, p1, u, s, q);
    }
  }

  /** ... by a reader that owes just that byte and copies it at once. */
  lemma LiteralDries(t: Token, m: Mode, p: Bytes, m1: Mode, p1: Bytes, u: Token, s: Bytes, q: Bytes) returns (m2: Mode, p2: Bytes)
    requires WellFormed(t) && WellFormed(u) && t.Literal? && u.Literal? && Follows(t, u) && Last(t) == First(u) && Behind(t, m, p)
    requires Sane(m1) && m1.Copy? && p1 == [Last(t)]
    requires m1.left == |u.data| || (p == [|u.data| as u8] + p1 && m == Copy(m1.left + 1))
    requires Reads(m1, u.data + s, p1 + (u.data + q))
    ensures Behind(u, m2, p2) && Reads(m2, s, p2 + q)
  {
    hide Reads;
    var y, s1, q1 := Last(t), u.data[1..] + s, u.data[1..] + q;
    assert u.data + s == [y] + s1 && p1 + (u.data + q) == [y] + ([y] + q1);
    Taken(m1, y, s1, [y] + ([y] + q1));
    m2, p2 := Next(m1, y), [y];
    assert ([y] + ([y] + q1))[1..] == p2 + q1;
    if m2.Control? {
      m2, p2 := LiteralGoesOnDry(t, u, s, q);
    } else if |u.data| == 1 {
      assert s1 == s && q1 == q && u.data == [y];
    } else {
      TripleBlocks(t, u, m2, s, q1);
    }
  }

  lemma LiteralGoesOnDry(t: Token, u: Token, s: Bytes, q: Bytes) returns (m2: Mode, p2: Bytes)
    requires WellFormed(t) && WellFormed(u) && t.Literal? && u.Literal? && Follows(t, u) && Last(t) == First(u)
    requires Reads(Control, u.data[1..] + s, [Last(t)] + (u.data[1..] + q))
    ensures Behind(u, m2, p2) && Reads(m2, s, p2 + q)
  {
    hide Reads, NoTriple;
    var d := t.data + u.data;
    assert d[127..] == u.data && d[128..] == u.data[1..] && d[126] == d[127] == Last(t);
    m2, p2 := LiteralRest(d, 128, 127, Control, [Last(t)], s, q);
    LiteralEnds(d, 127, u, m2, p2);
  }

  lemma TripleBlocks(t: Token, u: Token, m: Mode, s: Bytes, q: Bytes)
    requires WellFormed(t) && WellFormed(u) && t.Literal? && u.Literal? && Follows(t, u) && Last(t) == First(u) && |u.data| > 1
    requires m.Copy? && Sane(m)
    ensures !Reads(m, u.data[1..] + s, [Last(t)] + q)
  {
    hide Reads;
    var d := t.data + u.data;
    assert d[126] == d[127] == Last(t) && d[128] == u.data[1];
    assert u.data[1..] + s == [d[128]] + (u.data[2..] + s);
    assert ([Last(t)] + q)[0] == Last(t) != d[128];
    if Reads(m, u.data[1..] + s, [Last(t)] + q) {
      Taken(m, d[128], u.data[2..] + s, [Last(t)] + q);
    }
  }

  lemma LiteralStep(t: Token, m: Mode, p: Bytes, u: Token, s: Bytes, q: Bytes) returns (m2: Mode, p2: Bytes)
    requires WellFormed(t) && WellFormed(u) && u.Literal? && Neat(u) && Behind(t, m, p) && Follows(t, u)
    requires Reads(m, Encode(u) + s, p + (Meaning(u) + q))
    ensures Behind(u, m2, p2) && Reads(m2, s, p2 + q)
  {
    hide Reads, Lags, NoTriple;
    if t.Long? && t.n == 0xffff {
      m2, p2 := AnyStep(m, p, u, s, q);
    } else {
      var m1, p1 := CountByte(t, m, p, u, s, u.data + q);
      if Last(t) != First(u) {
        m2, p2 := LiteralBegins(t, m1, p1, u, s, q);
      } else {
        m2, p2 := LiteralGoesOn(t, m, p, m1, p1, u, s, q);
      }
    }
  }

  // ------------------------------------------------------------------ whole rows

  lemma OneStep(t: Token, m: Mode, p: Bytes, u: Token, s: Bytes, q: Bytes) returns (m2: Mode, p2: Bytes)
    requires WellFormed(t) && WellFormed(u) && Neat(u) && Behind(t, m, p) && Follows(t, u)
    requires Reads(m, Encode(u) + s, p + (Meaning(u) + q))
    ensures Behind(u, m2, p2) && Reads(m2, s, p2 + q)
  {
    hide Reads, Lags, NoTriple, Encode, Meaning;
    if t.Long? && t.n == 0xffff {
      m2, p2 := AnyStep(m, p, u, s, q);
    } else if u.Literal? {
      m2, p2 := LiteralStep(t, m, p, u, s, q);
    } else if u.Repeat? {
      m2, p2 := RepeatStep(t, m, p, u, s, q);
    } else {
      m2, p2 := LongStep(t, m, p, u, s, q);
    }
  }

  lemma {:induction false} Joined(a: seq<Token>, b: seq<Token>)
    requires AllWellFormed(a) && AllWellFormed(b)
    ensures AllWellFormed(a + b) && EncodeAll(a + b) == EncodeAll(a) + EncodeAll(b) && MeaningAll(a + b) == MeaningAll(a) + MeaningAll(b)
  {
    hide Encode, Meaning;
    if b == [] {
      assert a + b == a;
      Empty();
      assert EncodeAll(a) + [] == EncodeAll(a) && MeaningAll(a) + [] == MeaningAll(a);
    } else {
      var n := |b| - 1;
      Joined(a, b[..n]);
      assert (a + b)[..|a| + n] == a + b[..n] && (a + b)[|a| + n] == b[n];
      assert EncodeAll(a) + EncodeAll(b[..n]) + Encode(b[n]) == EncodeAll(a) + (EncodeAll(b[..n]) + Encode(b[n]));
      assert MeaningAll(a) + MeaningAll(b[..n]) + Meaning(b[n]) == MeaningAll(a) + (MeaningAll(b[..n]) + Meaning(b[n]));
    }
  }

  lemma OneToken(t: Token)
    requires WellFormed(t)
    ensures AllWellFormed([t]) && EncodeAll([t]) == Encode(t) && MeaningAll([t]) == Meaning(t)
  {
    hide Encode, Meaning, EncodeAll, MeaningAll;
    Empty();
    Pushed([], t);
    assert [] + [t] == [t] && [] + Encode(t) == Encode(t) && [] + Meaning(t) == Meaning(t);
  }

  /** A reader that has fallen behind stays behind to the end of any tidy stream. */
  lemma {:induction false} NeverCatchesUp(t: Token, ts: seq<Token>, m: Mode, p: Bytes)
    requires WellFormed(t) && AllWellFormed(ts) && AllWellFormed([t] + ts) && Tidy([t] + ts) && Behind(t, m, p)
    ensures !Reads(m, EncodeAll(ts), p + MeaningAll(ts))
    decreases |ts|
  {
    hide Follows, Neat, Behind, Encode, Meaning, EncodeAll, MeaningAll, Reads;
    if ts == [] {
      Empty();
      assert p + [] == p;
      NothingLeft(t, m, p);
    } else {
      var u, more := ts[0], ts[1..];
      assert ts == [u] + more;
      Joined([u], more);
      OneToken(u);
      var s, q := EncodeAll(more), MeaningAll(more);
      var all := [t] + ts;
      assert Follows(all[0], all[1]) && all[1] in all;
      assert forall i :: 0 <= i < |ts| ==> ts[i] == all[i + 1] && ts[i] in all;
      if Reads(m, EncodeAll(ts), p + MeaningAll(ts)) {
        var m2, p2 := OneStep(t, m, p, u, s, q);
        NeverCatchesUp(u, more, m2, p2);
      }
    }
  }

  lemma NothingLeft(t: Token, m: Mode, p: Bytes)
    requires WellFormed(t) && Behind(t, m, p)
    ensures !Reads(m, [], p)
  {
  }

  /** An extended run behind plain tokens: whatever stands behind it, the reader does not return the
      row and stop where the row's bytes end. */
  lemma LongRowIsLost(front: seq<Token>, u: Token, more: seq<Token>, rest: Bytes)
    requires AllWellFormed(front) && Plain(front) && WellFormed(u) && u.Long? && AllWellFormed(more)
    requires AllWellFormed([u] + more) && Tidy([u] + more)
    ensures var ts := front + ([u] + more);
            && AllWellFormed(ts)
            && Expand(EncodeAll(ts) + rest, |MeaningAll(ts)|, []) != Row(MeaningAll(ts), rest)
  {
    hide Reads, Expand, Encode, Meaning, EncodeAll, MeaningAll, Follows, Neat, Behind;
    var ts := front + ([u] + more);
    Joined(front, [u] + more);
    Joined([u], more);
    OneToken(u);
    var row, lead, tail := MeaningAll(ts), MeaningAll(front), EncodeAll([u] + more);
    assert EncodeAll(ts) + rest == EncodeAll(front) + (tail + rest);
    ExpandTokens(front, tail + rest, |row|);
    if Expand(tail + rest, |row|, lead) == Row(row, rest) {
      var s, o := ExpandReads(tail + rest, |row|, lead);
      SameFront(tail, s, rest);
      SameBack(lead, o, MeaningAll([u] + more));
      var m, p := FirstLong(u, EncodeAll(more), MeaningAll(more));
      NeverCatchesUp(u, more, m, p);
    }
  }

  lemma SameFront(a: Bytes, b: Bytes, rest: Bytes)
    requires a + rest == b + rest
    ensures a == b
  {
    assert |a| == |b|;
    assert a == (a + rest)[..|a|] == (b + rest)[..|a|];
  }

  lemma SameBack(front: Bytes, a: Bytes, b: Bytes)
    requires front + a == front + b
    ensures a == b
  {
    assert a == (front + a)[|front|..] && b == (front + b)[|front|..];
  }

  /** The first extended run of a list. */
  lemma {:induction false} FirstRun(ts: seq<Token>) returns (i: nat)
    requires AllWellFormed(ts) && !Plain(ts)
    ensures i < |ts| && ts[i].Long? && Plain(ts[..i])
  {
    i := 0;
    while !ts[i].Long?
      invariant i < |ts| && Plain(ts[..i]) && exists k :: i <= k < |ts| && ts[k].Long?
      decreases |ts| - i
    {
      assert ts[..i + 1] == ts[..i] + [ts[i]];
      i := i + 1;
    }
  }

  /** A packed row comes back from the backup reader, with nothing behind it touched, exactly when it
      was packed without the extended form. */
  lemma ReadsExactly(ts: seq<Token>, rest: Bytes)
    requires AllWellFormed(ts) && Tidy(ts)
    ensures Expand(EncodeAll(ts) + rest, |MeaningAll(ts)|, []) == Row(MeaningAll(ts), rest) <==> Plain(ts)
  {
    hide Expand, EncodeAll, MeaningAll, Follows, Neat;
    if Plain(ts) {
      PackedRowReads(MeaningAll(ts), ts, rest);
    } else {
      var i := FirstRun(ts);
      var front, more := ts[..i], ts[i + 1..];
      var back := [ts[i]] + more;
      assert ts == front + back;
      assert forall k :: 0 <= k < |back| ==> back[k] == ts[i + k];
      LongRowIsLost(front, ts[i], more, rest);
    }
  }

  /** The same for a row and what it was packed as: it comes back exactly when it has no run of more
      than 128 equal bytes. */
  lemma RowReadsExactly(row: Bytes, ts: seq<Token>, rest: Bytes)
    requires PackedAs(row, ts)
    ensures Expand(EncodeAll(ts) + rest, |row|, []) == Row(row, rest) <==> NoLongRun(row)
  {
    hide Expand, EncodeAll, MeaningAll, NoLongRun, Tidy, AllWellFormed, Plain;
    ReadsExactly(ts, rest);
  }
}
