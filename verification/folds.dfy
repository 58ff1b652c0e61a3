/** Iterating a step and folding a message, over any type of state, and what carries over from one step to a whole run. */
module Folds {

  function Iterate<S>(f: S -> S, x: S, n: nat): S
    decreases n, x
  {
    if n == 0 then x else Iterate(f, f(x), n - 1)
  }

  function Fold<S, B>(g: (S, B) -> S, s: S, msg: seq<B>): S
    decreases |msg|
  {
    if msg == [] then s else Fold(g, g(s, msg[0]), msg[1..])
  }

  function Map<A, B>(h: A -> B, a: seq<A>): (r: seq<B>)
    ensures |r| == |a|
    ensures forall i :: 0 <= i < |a| ==> r[i] == h(a[i])
  {
    seq(|a|, i requires 0 <= i < |a| => h(a[i]))
  }

  function Zip<B>(op: (B, B) -> B, a: seq<B>, b: seq<B>): (r: seq<B>)
    requires |a| == |b|
    ensures |r| == |a|
    ensures forall i :: 0 <= i < |a| ==> r[i] == op(a[i], b[i])
  {
    seq(|a|, i requires 0 <= i < |a| => op(a[i], b[i]))
  }

  lemma {:induction false} IterateAdd<S>(f: S -> S, x: S, m: nat, n: nat)
    ensures Iterate(f, Iterate(f, x, m), n) == Iterate(f, x, m + n)
    decreases m
  {
    if m > 0 {
      IterateAdd(f, f(x), m - 1, n);
    }
  }

  /** A step that respects `op` makes every iteration respect it. */
  lemma {:induction false} IterateLinear<S(!new)>(f: S -> S, op: (S, S) -> S, x: S, y: S, n: nat)
    requires forall u, v :: f(op(u, v)) == op(f(u), f(v))
    ensures Iterate(f, op(x, y), n) == op(Iterate(f, x, n), Iterate(f, y, n))
    decreases n
  {
    if n > 0 {
      IterateLinear(f, op, f(x), f(y), n - 1);
    }
  }

  lemma {:induction false} IterateInjective<S(!new)>(f: S -> S, x: S, y: S, n: nat)
    requires forall u, v :: f(u) == f(v) ==> u == v
    requires Iterate(f, x, n) == Iterate(f, y, n)
    ensures x == y
    decreases n
  {
    if n > 0 {
      IterateInjective(f, f(x), f(y), n - 1);
    }
  }

  /** `h` translates runs of `f` into runs of `g` when it translates single steps. */
  lemma {:induction false} IterateSimulation<S(!new), T>(f: S -> S, g: T -> T, h: S -> T, x: S, n: nat)
    requires forall u :: h(f(u)) == g(h(u))
    ensures h(Iterate(f, x, n)) == Iterate(g, h(x), n)
    decreases n
  {
    if n > 0 {
      IterateSimulation(f, g, h, f(x), n - 1);
    }
  }

  lemma FoldOne<S, B>(g: (S, B) -> S, s: S, b: B)
    ensures Fold(g, s, [b]) == g(s, b)
  {
    assert [b][1..] == [];
  }

  lemma FoldNext<S, B>(g: (S, B) -> S, s: S, msg: seq<B>, i: nat)
    requires i < |msg|
    ensures Fold(g, s, msg[i..]) == Fold(g, g(s, msg[i]), msg[i + 1..])
  {
    assert msg[i..][1..] == msg[i + 1..];
  }

  lemma {:induction false} FoldSplit<S, B>(g: (S, B) -> S, s: S, a: seq<B>, b: seq<B>)
    ensures Fold(g, s, a + b) == Fold(g, Fold(g, s, a), b)
    decreases |a|
  {
    if a == [] {
      assert a + b == b;
    } else {
      assert (a + b)[1..] == a[1..] + b;
      FoldSplit(g, g(s, a[0]), a[1..], b);
    }
  }

  lemma FoldFour<S, B>(g: (S, B) -> S, s: S, a: B, b: B, c: B, d: B)
    ensures Fold(g, s, [a, b, c, d]) == g(g(g(g(s, a), b), c), d)
  {
    calc {
      Fold(g, s, [a, b, c, d]);
      { assert [a, b, c, d][1..] == [b, c, d]; }
      Fold(g, g(s, a), [b, c, d]);
      { assert [b, c, d][1..] == [c, d]; }
      Fold(g, g(g(s, a), b), [c, d]);
      { assert [c, d][1..] == [d]; }
      Fold(g, g(g(g(s, a), b), c), [d]);
      { assert [d][1..] == []; }
      g(g(g(g(s, a), b), c), d);
    }
  }

  lemma FoldLast<S, B>(g: (S, B) -> S, s: S, msg: seq<B>, b: B)
    ensures Fold(g, s, msg + [b]) == g(Fold(g, s, msg), b)
  {
    FoldSplit(g, s, msg, [b]);
    FoldOne(g, Fold(g, s, msg), b);
  }

  lemma {:induction false} FoldLinear<S(!new), B(!new)>(
      g: (S, B) -> S, opS: (S, S) -> S, opB: (B, B) -> B, x: S, y: S, a: seq<B>, b: seq<B>)
    requires forall u, v, c, d :: g(opS(u, v), opB(c, d)) == opS(g(u, c), g(v, d))
    requires |a| == |b|
    ensures Fold(g, opS(x, y), Zip(opB, a, b)) == opS(Fold(g, x, a), Fold(g, y, b))
    decreases |a|
  {
    if |a| > 0 {
      assert Zip(opB, a, b)[1..] == Zip(opB, a[1..], b[1..]);
      FoldLinear(g, opS, opB, g(x, a[0]), g(y, b[0]), a[1..], b[1..]);
    }
  }

  lemma {:induction false} FoldInjective<S(!new), B(!new)>(g: (S, B) -> S, x: S, y: S, a: seq<B>)
    requires forall u, v, c :: g(u, c) == g(v, c) ==> u == v
    requires Fold(g, x, a) == Fold(g, y, a)
    ensures x == y
    decreases |a|
  {
    if a != [] {
      FoldInjective(g, g(x, a[0]), g(y, a[0]), a[1..]);
    }
  }

  lemma {:induction false} FoldSimulation<S(!new), T(!new), B(!new), C(!new)>(
      g: (S, B) -> S, g': (T, C) -> T, h: S -> T, k: B -> C, s: S, a: seq<B>)
    requires forall u, b :: h(g(u, b)) == g'(h(u), k(b))
    ensures h(Fold(g, s, a)) == Fold(g', h(s), Map(k, a))
    decreases |a|
  {
    if a != [] {
      assert Map(k, a)[1..] == Map(k, a[1..]);
      FoldSimulation(g, g', h, k, g(s, a[0]), a[1..]);
    }
  }

  /** The first n digits that `out` reads off the states reached by `next`. */
  function Emit<S, B>(out: S -> B, next: S -> S, s: S, n: nat): seq<B>
    decreases n, s
  {
    if n == 0 then [] else [out(s)] + Emit(out, next, next(s), n - 1)
  }

  lemma {:induction false} FoldEmit<S(!new), B>(g: (S, B) -> S, out: S -> B, next: S -> S, s: S, n: nat)
    requires forall u :: g(u, out(u)) == next(u)
    ensures Fold(g, s, Emit(out, next, s, n)) == Iterate(next, s, n)
    decreases n
  {
    if n > 0 {
      assert Emit(out, next, s, n)[1..] == Emit(out, next, next(s), n - 1);
      FoldEmit(g, out, next, next(s), n - 1);
    }
  }

  lemma EmitFour<S, B>(out: S -> B, next: S -> S, s: S)
    ensures Emit(out, next, s, 4) == [out(s), out(next(s)), out(next(next(s))), out(next(next(next(s))))]
    ensures Iterate(next, s, 4) == next(next(next(next(s))))
  {
    calc {
      Emit(out, next, s, 4);
      [out(s)] + Emit(out, next, next(s), 3);
      [out(s)] + ([out(next(s))] + Emit(out, next, next(next(s)), 2));
      [out(s)] + ([out(next(s))] + ([out(next(next(s)))] + Emit(out, next, next(next(next(s))), 1)));
      [out(s), out(next(s)), out(next(next(s))), out(next(next(next(s))))];
    }
    calc {
      Iterate(next, s, 4);
      Iterate(next, next(s), 3);
      Iterate(next, next(next(s)), 2);
      Iterate(next, next(next(next(s))), 1);
      next(next(next(next(s))));
    }
  }

  lemma {:induction false} EmitLength<S, B>(out: S -> B, next: S -> S, s: S, n: nat)
    ensures |Emit(out, next, s, n)| == n
    decreases n
  {
    if n > 0 {
      EmitLength(out, next, next(s), n - 1);
    }
  }

  lemma {:induction false} EmitLast<S, B>(out: S -> B, next: S -> S, s: S, n: nat)
    ensures Emit(out, next, s, n + 1) == Emit(out, next, s, n) + [out(Iterate(next, s, n))]
    decreases n
  {
    if n > 0 {
      EmitLast(out, next, next(s), n - 1);
    }
  }

  lemma {:induction false} EmitLinear<S(!new), B>(
      out: S -> B, next: S -> S, opS: (S, S) -> S, opB: (B, B) -> B, x: S, y: S, n: nat)
    requires forall u, v :: out(opS(u, v)) == opB(out(u), out(v))
    requires forall u, v :: next(opS(u, v)) == opS(next(u), next(v))
    ensures |Emit(out, next, x, n)| == |Emit(out, next, y, n)| == n
    ensures Emit(out, next, opS(x, y), n) == Zip(opB, Emit(out, next, x, n), Emit(out, next, y, n))
    decreases n
  {
    if n > 0 {
      EmitLinear(out, next, opS, opB, next(x), next(y), n - 1);
    }
  }

  /** Merging n digits of a word one at a time, or the whole word at once and then idling n times. */
  lemma {:induction false} AbsorbWord<S(!new), B>(
      idle: S -> S, g: (S, B) -> S, op: (S, S) -> S, out: S -> B, next: S -> S, c: S, w: S, n: nat)
    requires forall u, v :: idle(op(u, v)) == op(g(u, out(v)), next(v))
    ensures Iterate(idle, op(c, w), n) == op(Fold(g, c, Emit(out, next, w, n)), Iterate(next, w, n))
    decreases n
  {
    if n > 0 {
      assert Emit(out, next, w, n)[1..] == Emit(out, next, next(w), n - 1);
      AbsorbWord(idle, g, op, out, next, g(c, out(w)), next(w), n - 1);
    }
  }

  /** Digits gathered into one state, the first on top. */
  function Gather<S, D>(push: (D, S) -> S, zero: S, w: seq<D>): S
    decreases |w|
  {
    if w == [] then zero else push(w[0], Gather(push, zero, w[1..]))
  }

  lemma GatherEight<S, D>(push: (D, S) -> S, zero: S, w: seq<D>)
    requires |w| == 8
    ensures Gather(push, zero, w)
         == push(w[0], push(w[1], push(w[2], push(w[3], push(w[4], push(w[5], push(w[6], push(w[7], zero))))))))
  {
    GatherFour(push, Gather(push, zero, w[4..]), w[..4]);
    GatherFour(push, zero, w[4..]);
    GatherSplit(push, zero, w[..4], w[4..]);
    assert w == w[..4] + w[4..];
  }

  lemma GatherFour<S, D>(push: (D, S) -> S, zero: S, w: seq<D>)
    requires |w| == 4
    ensures Gather(push, zero, w) == push(w[0], push(w[1], push(w[2], push(w[3], zero))))
  {
    calc {
      Gather(push, zero, w);
      push(w[0], Gather(push, zero, w[1..]));
      { assert w[1..][1..] == w[2..]; }
      push(w[0], push(w[1], Gather(push, zero, w[2..])));
      { assert w[2..][1..] == w[3..]; }
      push(w[0], push(w[1], push(w[2], Gather(push, zero, w[3..]))));
      { assert w[3..][1..] == []; }
      push(w[0], push(w[1], push(w[2], push(w[3], zero))));
    }
  }

  lemma {:induction false} GatherSplit<S, D>(push: (D, S) -> S, zero: S, v: seq<D>, w: seq<D>)
    ensures Gather(push, zero, v + w) == Gather(push, Gather(push, zero, w), v)
    decreases |v|
  {
    if v == [] {
      assert v + w == w;
    } else {
      assert (v + w)[1..] == v[1..] + w;
      GatherSplit(push, zero, v[1..], w);
    }
  }

  lemma {:induction false} GatherFits<S(!new), D(!new)>(push: (D, S) -> S, zero: S, fits: (nat, S) -> bool, w: seq<D>)
    requires fits(0, zero)
    requires forall n: nat, d, p :: fits(n, p) ==> fits(n + 1, push(d, p))
    ensures fits(|w|, Gather(push, zero, w))
    decreases |w|
  {
    if w != [] {
      GatherFits(push, zero, fits, w[1..]);
    }
  }

  /**
    Merging digits one at a time, with a step after each, is merging the
    gathered digits first and stepping afterwards.
   */
  lemma {:induction false} MergeFirst<S(!new), D(!new)>(
      merge: (S, D) -> S, step: S -> S, op: (S, S) -> S,
      push: (D, S) -> S, zero: S, fits: (nat, S) -> bool, limit: nat, c: S, w: seq<D>)
    requires fits(0, zero)
    requires forall n: nat, d, p :: fits(n, p) ==> fits(n + 1, push(d, p))
    requires forall u :: op(u, zero) == u
    requires forall n: nat, u, d, p :: n < limit && fits(n, p) ==> step(op(u, push(d, p))) == op(merge(u, d), p)
    requires |w| <= limit
    ensures Fold(merge, c, w) == Iterate(step, op(c, Gather(push, zero, w)), |w|)
    decreases |w|
  {
    if w != [] {
      GatherFits(push, zero, fits, w[1..]);
      MergeFirst(merge, step, op, push, zero, fits, limit, merge(c, w[0]), w[1..]);
    }
  }

  lemma {:induction false} GatherInjective<S(!new), D(!new)>(
      push: (D, S) -> S, zero: S, fits: (nat, S) -> bool, limit: nat, v: seq<D>, w: seq<D>)
    requires fits(0, zero)
    requires forall n: nat, d, p :: fits(n, p) ==> fits(n + 1, push(d, p))
    requires forall n: nat, d, d', p, p' ::
               n < limit && fits(n, p) && fits(n, p') && push(d, p) == push(d', p') ==> d == d' && p == p'
    requires |v| == |w| <= limit
    requires Gather(push, zero, v) == Gather(push, zero, w)
    ensures v == w
    decreases |v|
  {
    if v != [] {
      GatherFits(push, zero, fits, v[1..]);
      GatherFits(push, zero, fits, w[1..]);
      assert fits(|v| - 1, Gather(push, zero, v[1..])) && fits(|v| - 1, Gather(push, zero, w[1..]));
      GatherInjective(push, zero, fits, limit, v[1..], w[1..]);
      assert v == [v[0]] + v[1..] && w == [w[0]] + w[1..];
    }
  }

  /** Folding bytes is folding the digits each byte spells. */
  function Spell<B, D>(digits: B -> seq<D>, msg: seq<B>): seq<D>
    decreases |msg|
  {
    if msg == [] then [] else digits(msg[0]) + Spell(digits, msg[1..])
  }

  lemma {:induction false} FoldSpell<S(!new), B(!new), D>(
      g: (S, B) -> S, step: (S, D) -> S, digits: B -> seq<D>, s: S, a: seq<B>)
    requires forall u, b :: g(u, b) == Fold(step, u, digits(b))
    ensures Fold(g, s, a) == Fold(step, s, Spell(digits, a))
    decreases |a|
  {
    if a != [] {
      FoldSplit(step, s, digits(a[0]), Spell(digits, a[1..]));
      FoldSpell(g, step, digits, g(s, a[0]), a[1..]);
    }
  }

  /** At most the first n. */
  function Cropped<A>(s: seq<A>, n: nat): seq<A> {
    if |s| <= n then s else s[..n]
  }
}
