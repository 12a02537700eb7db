/** Shift registers in general: what iterating a reversible step does, and when
    input that enters late can be folded in at the start.  Both CRC routines of the
    application are instances. */
module Register {

  function Iter<T>(f: T -> T, x: T, n: nat): T
    decreases n
  {
    if n == 0 then x else Iter(f, f(x), n - 1)
  }

  lemma Once<T>(f: T -> T, x: T)
    ensures Iter(f, x, 1) == f(x)
  {
    assert Iter(f, x, 1) == Iter(f, f(x), 0);
  }

  lemma Eight<T>(f: T -> T, x: T)
    ensures Iter(f, x, 8) == f(f(f(f(f(f(f(f(x))))))))
  {
  }

  ghost predicate Injective<T(!new)>(f: T -> T) {
    forall a, b {:trigger f(a), f(b)} :: f(a) == f(b) ==> a == b
  }

  ghost predicate Cancels<T(!new)>(op: (T, T) -> T) {
    forall a, b, x {:trigger op(a, x), op(b, x)} :: op(a, x) == op(b, x) ==> a == b
  }

  lemma {:induction false} IterInjective<T(!new)>(f: T -> T, a: T, b: T, n: nat)
    requires Injective(f) && Iter(f, a, n) == Iter(f, b, n)
    ensures a == b
    decreases n
  {
    if n > 0 {
      IterInjective(f, f(a), f(b), n - 1);
    }
  }

  lemma {:induction false} IterAdd<T>(f: T -> T, x: T, m: nat, n: nat)
    ensures Iter(f, Iter(f, x, m), n) == Iter(f, x, m + n)
    decreases m
  {
    if m > 0 {
      IterAdd(f, f(x), m - 1, n);
    }
  }

  /** Adding v before m turns is adding u after them. */
  ghost predicate Carries<T(!new)>(f: T -> T, op: (T, T) -> T, v: T, u: T, m: nat) {
    forall x {:trigger op(x, v)} :: Iter(f, op(x, v), m) == op(Iter(f, x, m), u)
  }

  lemma {:induction false} CarriesOn<T(!new)>(f: T -> T, op: (T, T) -> T, v: T, w: T, u: T, m: nat, k: nat)
    requires Carries(f, op, v, w, m) && Carries(f, op, w, u, k)
    ensures Carries(f, op, v, u, m + k)
  {
    forall x
      ensures Iter(f, op(x, v), m + k) == op(Iter(f, x, m + k), u)
    {
      IterAdd(f, op(x, v), m, k);
      IterAdd(f, x, m, k);
      assert Iter(f, op(Iter(f, x, m), w), k) == op(Iter(f, Iter(f, x, m), k), u);
    }
  }

  /** Feeding one input: add it to the register, then turn n times. */
  function Absorb<T>(f: T -> T, op: (T, T) -> T, n: nat, c: T, b: T): T {
    Iter(f, op(c, b), n)
  }

  function Run<T>(f: T -> T, op: (T, T) -> T, n: nat, c: T, data: seq<T>): T
    decreases |data|
  {
    if data == [] then c else Run(f, op, n, Absorb(f, op, n, c, data[0]), data[1..])
  }

  /** Different registers stay different however the input goes on. */
  lemma {:induction false} RunInjective<T(!new)>(f: T -> T, op: (T, T) -> T, n: nat, c: T, d: T, data: seq<T>)
    requires Injective(f) && Cancels(op)
    requires Run(f, op, n, c, data) == Run(f, op, n, d, data)
    ensures c == d
    decreases |data|
  {
    if data != [] {
      RunInjective(f, op, n, Absorb(f, op, n, c, data[0]), Absorb(f, op, n, d, data[0]), data[1..]);
      IterInjective(f, op(c, data[0]), op(d, data[0]), n);
    }
  }

  lemma {:induction false} RunConcat<T>(f: T -> T, op: (T, T) -> T, n: nat, c: T, a: seq<T>, b: seq<T>)
    ensures Run(f, op, n, c, a + b) == Run(f, op, n, Run(f, op, n, c, a), b)
    decreases |a|
  {
    if a == [] {
      assert a + b == b;
    } else {
      assert (a + b)[1..] == a[1..] + b;
      RunConcat(f, op, n, Absorb(f, op, n, c, a[0]), a[1..], b);
    }
  }

  /** An input that enters after m turns is one added before them. */
  lemma {:induction false} RunExtends<T(!new)>(
    f: T -> T, op: (T, T) -> T, n: nat, c: T, data: seq<T>, x: T, m: nat, v: T, b: T)
    requires Run(f, op, n, c, data) == Iter(f, x, m) && Carries(f, op, v, b, m)
    ensures Run(f, op, n, c, data + [b]) == Iter(f, op(x, v), m + n)
  {
    RunConcat(f, op, n, c, data, [b]);
    assert Run(f, op, n, c, data + [b]) == Absorb(f, op, n, Iter(f, x, m), b);
    IterAdd(f, op(x, v), m, n);
  }

  lemma {:induction false} RunTwo<T(!new)>(f: T -> T, op: (T, T) -> T, n: nat, c: T, b0: T, b1: T, v1: T)
    requires Carries(f, op, v1, b1, n)
    ensures Run(f, op, n, c, [b0, b1]) == Iter(f, op(op(c, b0), v1), n + n)
  {
    assert Run(f, op, n, c, [b0]) == Run(f, op, n, Absorb(f, op, n, c, b0), []);
    RunExtends(f, op, n, c, [b0], op(c, b0), n, v1, b1);
    assert [b0] + [b1] == [b0, b1];
  }

  lemma {:induction false} RunFour<T(!new)>(
    f: T -> T, op: (T, T) -> T, n: nat, c: T, b0: T, b1: T, b2: T, b3: T, v1: T, v2: T, v3: T)
    requires Carries(f, op, v1, b1, n) && Carries(f, op, v2, b2, n + n) && Carries(f, op, v3, b3, n + n + n)
    ensures Run(f, op, n, c, [b0, b1, b2, b3]) == Iter(f, op(op(op(op(c, b0), v1), v2), v3), 4 * n)
  {
    var x0 := op(c, b0);
    var x1 := op(x0, v1);
    var x2 := op(x1, v2);
    assert Run(f, op, n, c, [b0]) == Run(f, op, n, Absorb(f, op, n, c, b0), []);
    RunExtends(f, op, n, c, [b0], x0, n, v1, b1);
    assert [b0] + [b1] == [b0, b1];
    RunExtends(f, op, n, c, [b0, b1], x1, n + n, v2, b2);
    assert [b0, b1] + [b2] == [b0, b1, b2];
    RunExtends(f, op, n, c, [b0, b1, b2], x2, n + n + n, v3, b3);
    assert [b0, b1, b2] + [b3] == [b0, b1, b2, b3];
  }

  /** Eight inputs that enter one turn after the other can all be added at the start. */
  lemma {:induction false} RunEight<T(!new)>(
    f: T -> T, op: (T, T) -> T, c: T,
    b0: T, b1: T, b2: T, b3: T, b4: T, b5: T, b6: T, b7: T,
    v1: T, v2: T, v3: T, v4: T, v5: T, v6: T, v7: T)
    requires Carries(f, op, v1, b1, 1) && Carries(f, op, v2, b2, 2) && Carries(f, op, v3, b3, 3) && Carries(f, op, v4, b4, 4)
    requires Carries(f, op, v5, b5, 5) && Carries(f, op, v6, b6, 6) && Carries(f, op, v7, b7, 7)
    ensures Run(f, op, 1, c, [b0, b1, b2, b3, b4, b5, b6, b7]) ==
      Iter(f, op(op(op(op(op(op(op(op(c, b0), v1), v2), v3), v4), v5), v6), v7), 8)
  {
    hide Run, Iter, Carries;
    var x3 := op(op(op(op(c, b0), v1), v2), v3);
    var x4 := op(x3, v4);
    var x5 := op(x4, v5);
    var x6 := op(x5, v6);
    RunFour(f, op, 1, c, b0, b1, b2, b3, v1, v2, v3);
    RunExtends(f, op, 1, c, [b0, b1, b2, b3], x3, 4, v4, b4);
    assert [b0, b1, b2, b3] + [b4] == [b0, b1, b2, b3, b4];
    RunExtends(f, op, 1, c, [b0, b1, b2, b3, b4], x4, 5, v5, b5);
    assert [b0, b1, b2, b3, b4] + [b5] == [b0, b1, b2, b3, b4, b5];
    RunExtends(f, op, 1, c, [b0, b1, b2, b3, b4, b5], x5, 6, v6, b6);
    assert [b0, b1, b2, b3, b4, b5] + [b6] == [b0, b1, b2, b3, b4, b5, b6];
    RunExtends(f, op, 1, c, [b0, b1, b2, b3, b4, b5, b6], x6, 7, v7, b7);
    assert [b0, b1, b2, b3, b4, b5, b6] + [b7] == [b0, b1, b2, b3, b4, b5, b6, b7];
  }

  // ----- Messages

  function Mapped<S, T>(g: S -> T, s: seq<S>): (r: seq<T>)
    ensures |r| == |s| && forall i | 0 <= i < |s| :: r[i] == g(s[i])
  {
    if s == [] then [] else [g(s[0])] + Mapped(g, s[1..])
  }

  lemma MappedTwo<S, T>(g: S -> T, a: S, b: S)
    ensures Mapped(g, [a, b]) == [g(a), g(b)]
  {
  }

  lemma MappedFour<S, T>(g: S -> T, a: S, b: S, c: S, d: S)
    ensures Mapped(g, [a, b, c, d]) == [g(a), g(b), g(c), g(d)]
  {
  }

  lemma MappedEight<S, T>(g: S -> T, a: S, b: S, c: S, d: S, p: S, q: S, r: S, s: S)
    ensures Mapped(g, [a, b, c, d, p, q, r, s]) == [g(a), g(b), g(c), g(d), g(p), g(q), g(r), g(s)]
  {
  }

  /** The register after a message, each of its symbols fed as g makes it. */
  function RunOver<S, T>(f: T -> T, op: (T, T) -> T, n: nat, g: S -> T, c: T, s: seq<S>): T {
    Run(f, op, n, c, Mapped(g, s))
  }

  /** A symbol w that adds up what eight bits add one turn after the other. */
  lemma {:induction false} SymbolIsSerial<T(!new)>(
    f: T -> T, op: (T, T) -> T, lone: bool -> T, c: T, w: T,
    b0: bool, b1: bool, b2: bool, b3: bool, b4: bool, b5: bool, b6: bool, b7: bool,
    v0: T, v1: T, v2: T, v3: T, v4: T, v5: T, v6: T, v7: T)
    requires v0 == lone(b0)
    requires Carries(f, op, v1, lone(b1), 1) && Carries(f, op, v2, lone(b2), 2) && Carries(f, op, v3, lone(b3), 3)
    requires Carries(f, op, v4, lone(b4), 4) && Carries(f, op, v5, lone(b5), 5) && Carries(f, op, v6, lone(b6), 6)
    requires Carries(f, op, v7, lone(b7), 7)
    requires op(op(op(op(op(op(op(op(c, v0), v1), v2), v3), v4), v5), v6), v7) == op(c, w)
    ensures Absorb(f, op, 8, c, w) == RunOver(f, op, 1, lone, c, [b0, b1, b2, b3, b4, b5, b6, b7])
  {
    hide Run, Iter, Carries, Mapped;
    RunEight(f, op, c, lone(b0), lone(b1), lone(b2), lone(b3), lone(b4), lone(b5), lone(b6), lone(b7), v1, v2, v3, v4, v5, v6, v7);
    MappedEight(lone, b0, b1, b2, b3, b4, b5, b6, b7);
  }

  lemma {:induction false} MappedConcat<S, T>(g: S -> T, s: seq<S>, t: seq<S>)
    ensures Mapped(g, s + t) == Mapped(g, s) + Mapped(g, t)
  {
    if s == [] {
      assert s + t == t;
    } else {
      assert (s + t)[1..] == s[1..] + t;
      MappedConcat(g, s[1..], t);
    }
  }

  /** A message may be fed in pieces. */
  lemma RunOverConcat<S, T>(f: T -> T, op: (T, T) -> T, n: nat, g: S -> T, c: T, s: seq<S>, t: seq<S>)
    ensures RunOver(f, op, n, g, c, s + t) == RunOver(f, op, n, g, RunOver(f, op, n, g, c, s), t)
  {
    MappedConcat(g, s, t);
    RunConcat(f, op, n, c, Mapped(g, s), Mapped(g, t));
  }

  lemma RunOverSplit<S, T>(f: T -> T, op: (T, T) -> T, n: nat, g: S -> T, c: T, s: seq<S>, k: nat, m: nat)
    requires k <= m <= |s|
    ensures RunOver(f, op, n, g, c, s) ==
      RunOver(f, op, n, g, RunOver(f, op, n, g, RunOver(f, op, n, g, c, s[..k]), s[k..m]), s[m..])
  {
    hide RunOver;
    assert s == s[..k] + (s[k..m] + s[m..]);
    RunOverConcat(f, op, n, g, c, s[..k], s[k..m] + s[m..]);
    RunOverConcat(f, op, n, g, RunOver(f, op, n, g, c, s[..k]), s[k..m], s[m..]);
  }

  /** The register tells messages of up to w symbols apart. */
  ghost predicate Tells<S(!new), T(!new)>(f: T -> T, op: (T, T) -> T, n: nat, g: S -> T, w: nat) {
    forall c: T, s: seq<S>, t: seq<S> {:trigger RunOver(f, op, n, g, c, s), RunOver(f, op, n, g, c, t)} |
      |s| == |t| <= w && RunOver(f, op, n, g, c, s) == RunOver(f, op, n, g, c, t) :: s == t
  }

  // ----- Messages that differ in one place only

  /** s and t agree except possibly at the w positions from k on. */
  ghost predicate AgreeBeside<S>(s: seq<S>, t: seq<S>, k: nat, w: nat) {
    |s| == |t| && forall i | 0 <= i < |s| :: k <= i < k + w || s[i] == t[i]
  }

  function WindowEnd(n: nat, k: nat, w: nat): (m: nat)
    requires k <= n
    ensures k <= m <= n && m <= k + w
  {
    if k + w <= n then k + w else n
  }

  lemma WindowDecides<S>(s: seq<S>, t: seq<S>, k: nat, w: nat)
    requires AgreeBeside(s, t, k, w) && k <= |s|
    ensures var m := WindowEnd(|s|, k, w);
      s[..k] == t[..k] && s[m..] == t[m..] && (s[k..m] == t[k..m] ==> s == t)
  {
    var m := WindowEnd(|s|, k, w);
    if s[k..m] == t[k..m] {
      assert s == s[..k] + s[k..m] + s[m..] && t == t[..k] + t[k..m] + t[m..];
    }
  }

  /** A reversible register that tells w symbols apart shows every change within w
      consecutive symbols of a message, wherever it is. */
  lemma {:induction false} ChangeShows<S(!new), T(!new)>(
    f: T -> T, op: (T, T) -> T, n: nat, g: S -> T, w: nat, c: T, s: seq<S>, t: seq<S>, k: nat)
    requires Injective(f) && Cancels(op) && Tells(f, op, n, g, w) && AgreeBeside(s, t, k, w)
    requires RunOver(f, op, n, g, c, s) == RunOver(f, op, n, g, c, t)
    ensures s == t
  {
    if k < |s| {
      var m := WindowEnd(|s|, k, w);
      WindowDecides(s, t, k, w);
      RunOverSplit(f, op, n, g, c, s, k, m);
      RunOverSplit(f, op, n, g, c, t, k, m);
      var d := RunOver(f, op, n, g, c, s[..k]);
      RunInjective(f, op, n, RunOver(f, op, n, g, d, s[k..m]), RunOver(f, op, n, g, d, t[k..m]), Mapped(g, s[m..]));
    }
  }

  // ----- Messages as bits

  /** The bits of a message in the order in which they reach the register. */
  function BitsOf<S>(bits: S -> seq<bool>, s: seq<S>): seq<bool> {
    if s == [] then [] else bits(s[0]) + BitsOf(bits, s[1..])
  }

  /** A symbol has b bits and every b bits are a symbol. */
  ghost predicate Codes<S(!new)>(bits: S -> seq<bool>, sym: seq<bool> -> S, b: nat) {
    && b > 0
    && (forall x :: |bits(x)| == b && sym(bits(x)) == x)
    && (forall t | |t| == b :: bits(sym(t)) == t)
  }

  /** Feeding a symbol is feeding its bits, one turn each. */
  ghost predicate Serial<S(!new), T(!new)>(
    f: T -> T, op: (T, T) -> T, n: nat, g: S -> T, lone: bool -> T, bits: S -> seq<bool>)
  {
    forall c, x :: Absorb(f, op, n, c, g(x)) == RunOver(f, op, 1, lone, c, bits(x))
  }

  lemma {:induction false} RunIsSerial<S(!new), T(!new)>(
    f: T -> T, op: (T, T) -> T, n: nat, g: S -> T, lone: bool -> T, bits: S -> seq<bool>, c: T, s: seq<S>)
    requires Serial(f, op, n, g, lone, bits)
    ensures RunOver(f, op, n, g, c, s) == RunOver(f, op, 1, lone, c, BitsOf(bits, s))
    decreases |s|
  {
    if s != [] {
      var d := Absorb(f, op, n, c, g(s[0]));
      assert Mapped(g, s) == [g(s[0])] + Mapped(g, s[1..]);
      RunIsSerial(f, op, n, g, lone, bits, d, s[1..]);
      RunOverConcat(f, op, 1, lone, c, bits(s[0]), BitsOf(bits, s[1..]));
    }
  }

  lemma {:induction false} BitsLength<S(!new)>(bits: S -> seq<bool>, sym: seq<bool> -> S, b: nat, s: seq<S>)
    requires Codes(bits, sym, b)
    ensures |BitsOf(bits, s)| == |s| * b
    decreases |s|
  {
    if s != [] {
      BitsLength(bits, sym, b, s[1..]);
    }
  }

  lemma {:induction false} BitsFix<S(!new)>(bits: S -> seq<bool>, sym: seq<bool> -> S, b: nat, s: seq<S>, t: seq<S>)
    requires Codes(bits, sym, b) && BitsOf(bits, s) == BitsOf(bits, t)
    ensures s == t
    decreases |s|
  {
    BitsLength(bits, sym, b, s);
    BitsLength(bits, sym, b, t);
    if s != [] && t != [] {
      var u := BitsOf(bits, s);
      assert bits(s[0]) == u[..b] == bits(t[0]);
      assert BitsOf(bits, s[1..]) == u[b..] == BitsOf(bits, t[1..]);
      BitsFix(bits, sym, b, s[1..], t[1..]);
      assert sym(bits(s[0])) == s[0] && sym(bits(t[0])) == t[0];
    }
  }

  /** Any w symbols' worth of bits are w symbols. */
  lemma {:induction false} SymbolsOf<S(!new)>(bits: S -> seq<bool>, sym: seq<bool> -> S, b: nat, w: nat, t: seq<bool>)
    returns (s: seq<S>)
    requires Codes(bits, sym, b) && |t| == w * b
    ensures |s| == w && BitsOf(bits, s) == t
    decreases w
  {
    if w == 0 {
      return [];
    }
    assert |t[b..]| == (w - 1) * b;
    var rest := SymbolsOf(bits, sym, b, w - 1, t[b..]);
    s := [sym(t[..b])] + rest;
    assert s[1..] == rest && t == t[..b] + t[b..];
  }

  /** A register that tells w symbols apart tells their bits apart, wherever they start. */
  lemma TellsBits<S(!new), T(!new)>(
    f: T -> T, op: (T, T) -> T, n: nat, g: S -> T, lone: bool -> T, bits: S -> seq<bool>, sym: seq<bool> -> S, b: nat, w: nat)
    requires Tells(f, op, n, g, w) && Codes(bits, sym, b) && Serial(f, op, n, g, lone, bits)
    ensures Tells(f, op, 1, lone, w * b)
  {
    forall c: T, s: seq<bool>, t: seq<bool> |
      |s| == |t| <= w * b && RunOver(f, op, 1, lone, c, s) == RunOver(f, op, 1, lone, c, t)
      ensures s == t
    {
      BitsTold(f, op, n, g, lone, bits, sym, b, w, c, s, t);
    }
  }

  lemma BitsTold<S(!new), T(!new)>(
    f: T -> T, op: (T, T) -> T, n: nat, g: S -> T, lone: bool -> T, bits: S -> seq<bool>, sym: seq<bool> -> S, b: nat, w: nat,
    c: T, s: seq<bool>, t: seq<bool>)
    requires Tells(f, op, n, g, w) && Codes(bits, sym, b) && Serial(f, op, n, g, lone, bits)
    requires |s| == |t| <= w * b && RunOver(f, op, 1, lone, c, s) == RunOver(f, op, 1, lone, c, t)
    ensures s == t
  {
    var pad := seq(w * b - |s|, i => false);
    RunOverConcat(f, op, 1, lone, c, s, pad);
    RunOverConcat(f, op, 1, lone, c, t, pad);
    var x := SymbolsOf(bits, sym, b, w, s + pad);
    var y := SymbolsOf(bits, sym, b, w, t + pad);
    RunIsSerial(f, op, n, g, lone, bits, c, x);
    RunIsSerial(f, op, n, g, lone, bits, c, y);
    assert x == y;
    assert s == (s + pad)[..|s|] && t == (t + pad)[..|s|];
  }

  /** A reversible register that tells w symbols of b bits apart shows every change within
      w * b consecutive bits of a message, wherever in a symbol they start. */
  lemma {:induction false} BurstShows<S(!new), T(!new)>(
    f: T -> T, op: (T, T) -> T, n: nat, g: S -> T, lone: bool -> T, bits: S -> seq<bool>, sym: seq<bool> -> S, b: nat, w: nat,
    c: T, s: seq<S>, t: seq<S>, k: nat)
    requires Injective(f) && Cancels(op) && Tells(f, op, n, g, w)
    requires Codes(bits, sym, b) && Serial(f, op, n, g, lone, bits)
    requires AgreeBeside(BitsOf(bits, s), BitsOf(bits, t), k, w * b)
    requires RunOver(f, op, n, g, c, s) == RunOver(f, op, n, g, c, t)
    ensures s == t
  {
    hide Injective, Cancels, Tells, Codes, Serial;
    TellsBits(f, op, n, g, lone, bits, sym, b, w);
    RunIsSerial(f, op, n, g, lone, bits, c, s);
    RunIsSerial(f, op, n, g, lone, bits, c, t);
    ChangeShows(f, op, 1, lone, w * b, c, BitsOf(bits, s), BitsOf(bits, t), k);
    BitsFix(bits, sym, b, s, t);
  }
}
