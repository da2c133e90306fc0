/**
 Check registers in general: inputs are combined into a register by an
 exclusive-or, and after each the register takes m reversible steps that
 distribute over the exclusive-or. Changes confined to four consecutive inputs
 always change the register.
 */
module LinearSteps {

  function Iterate<W>(step: W -> W, n: nat, x: W): W {
    if n == 0 then x else step(Iterate(step, n - 1, x))
  }

  /** A register of type W over inputs of type B. */
  datatype Machine<!W, !B> = Machine(
    step: W -> W,
    back: W -> W,           // undoes step
    xor: (W, W) -> W,
    wide: B -> W,           // an input as a register value
    up: (B, nat) -> W,      // the register value that becomes the input after so many rounds
    m: nat,                 // steps in a round
    zero: B)

  function Rounds<W, B>(M: Machine<W, B>, k: nat, x: W): W { Iterate(M.step, k * M.m, x) }

  /** Four inputs combined as if they had all been there at the start. */
  function Pack<W, B>(M: Machine<W, B>, s: W, a: B, b: B, c: B, d: B): W {
    M.xor(M.xor(M.xor(M.xor(s, M.wide(a)), M.up(b, 1)), M.up(c, 2)), M.up(d, 3))
  }

  ghost predicate Linear<W(!new), B(!new)>(M: Machine<W, B>) {
    && (forall a, b :: M.step(M.xor(a, b)) == M.xor(M.step(a), M.step(b)))
    && (forall a :: M.back(M.step(a)) == a)
    && (forall a, b, x :: M.xor(a, x) == M.xor(b, x) ==> a == b)
    && (forall b, k :: 1 <= k <= 3 ==> Rounds(M, k, M.up(b, k)) == M.wide(b))
  }

  ghost predicate PackInjective<W(!new), B(!new)>(M: Machine<W, B>) {
    forall s, a, b, c, d, a', b', c', d' ::
      Pack(M, s, a, b, c, d) == Pack(M, s, a', b', c', d') ==> a == a' && b == b' && c == c' && d == d'
  }

  lemma {:induction false} StepsDistribute<W(!new), B(!new)>(M: Machine<W, B>, n: nat, a: W, b: W)
    requires Linear(M)
    ensures Iterate(M.step, n, M.xor(a, b)) == M.xor(Iterate(M.step, n, a), Iterate(M.step, n, b))
  {
    if n > 0 {
      StepsDistribute(M, n - 1, a, b);
    }
  }

  lemma {:induction false} StepsInjective<W(!new), B(!new)>(M: Machine<W, B>, n: nat, a: W, b: W)
    requires Linear(M) && Iterate(M.step, n, a) == Iterate(M.step, n, b)
    ensures a == b
  {
    if n > 0 {
      assert M.back(Iterate(M.step, n, a)) == Iterate(M.step, n - 1, a);
      assert M.back(Iterate(M.step, n, b)) == Iterate(M.step, n - 1, b);
      StepsInjective(M, n - 1, a, b);
    }
  }

  lemma {:induction false} StepsCompose<W>(step: W -> W, m: nat, n: nat, x: W)
    ensures Iterate(step, m + n, x) == Iterate(step, m, Iterate(step, n, x))
  {
    if m > 0 {
      StepsCompose(step, m - 1, n, x);
    }
  }

  // ---- feeding inputs ----

  function Take<W, B>(M: Machine<W, B>, c: W, b: B): W { Rounds(M, 1, M.xor(c, M.wide(b))) }

  function Feed<W, B>(M: Machine<W, B>, c: W, s: seq<B>): W {
    if s == [] then c else Take(M, Feed(M, c, s[..|s| - 1]), s[|s| - 1])
  }

  lemma {:induction false} FeedAppend<W, B>(M: Machine<W, B>, c: W, s: seq<B>, t: seq<B>)
    ensures Feed(M, c, s + t) == Feed(M, Feed(M, c, s), t)
  {
    if t == [] {
      assert s + t == s;
    } else {
      FeedAppend(M, c, s, t[..|t| - 1]);
      assert (s + t)[..|s + t| - 1] == s + t[..|t| - 1];
    }
  }

  /** Equal inputs from unequal registers never make the registers meet. */
  lemma {:induction false} FeedInjective<W(!new), B(!new)>(M: Machine<W, B>, c: W, d: W, s: seq<B>)
    requires Linear(M) && Feed(M, c, s) == Feed(M, d, s)
    ensures c == d
  {
    if s != [] {
      var x, y := Feed(M, c, s[..|s| - 1]), Feed(M, d, s[..|s| - 1]);
      var b := M.wide(s[|s| - 1]);
      StepsInjective(M, 1 * M.m, M.xor(x, b), M.xor(y, b));
      FeedInjective(M, c, d, s[..|s| - 1]);
    }
  }

  /** Taking an input in after k rounds is taking in its raised form before them. */
  lemma {:induction false} TakeEarly<W(!new), B(!new)>(M: Machine<W, B>, k: nat, x: W, b: B)
    requires Linear(M) && 1 <= k <= 3
    ensures Take(M, Rounds(M, k, x), b) == Rounds(M, k + 1, M.xor(x, M.up(b, k)))
  {
    StepsDistribute(M, k * M.m, x, M.up(b, k));
    StepsCompose(M.step, 1 * M.m, k * M.m, M.xor(x, M.up(b, k)));
    assert 1 * M.m + k * M.m == (k + 1) * M.m;
  }

  /** A register split into two parts may be stepped part by part. */
  lemma {:induction false} TakeSplit<W(!new), B(!new)>(M: Machine<W, B>, c: W, b: B, low: W, high: W, shifted: W)
    requires Linear(M) && M.xor(c, M.wide(b)) == M.xor(low, high) && Rounds(M, 1, high) == shifted
    ensures Take(M, c, b) == M.xor(Rounds(M, 1, low), shifted)
  {
    StepsDistribute(M, 1 * M.m, low, high);
  }

  lemma {:induction false} FeedFour<W(!new), B(!new)>(M: Machine<W, B>, s: W, a: B, b: B, c: B, d: B)
    requires Linear(M)
    ensures Feed(M, s, [a, b, c, d]) == Rounds(M, 4, Pack(M, s, a, b, c, d))
  {
    assert [a][..0] == [] && [a, b][..1] == [a] && [a, b, c][..2] == [a, b] && [a, b, c, d][..3] == [a, b, c];
    assert Feed(M, s, [a]) == Take(M, s, a);
    var x0 := M.xor(s, M.wide(a));
    var x1 := M.xor(x0, M.up(b, 1));
    TakeEarly(M, 1, x0, b);
    assert Feed(M, s, [a, b]) == Rounds(M, 2, x1);
    TakeEarly(M, 2, x1, c);
    TakeEarly(M, 3, M.xor(x1, M.up(c, 2)), d);
  }

  // ---- bursts ----

  /** Up to four inputs from one register: different inputs give different registers. */
  lemma {:induction false} BlockInjective<W(!new), B(!new)>(M: Machine<W, B>, s: W, u: seq<B>, v: seq<B>)
    requires Linear(M) && PackInjective(M)
    requires |u| == |v| <= 4 && Feed(M, s, u) == Feed(M, s, v)
    ensures u == v
    decreases 4 - |u|
  {
    if |u| < 4 {
      FeedAppend(M, s, u, [M.zero]);
      FeedAppend(M, s, v, [M.zero]);
      BlockInjective(M, s, u + [M.zero], v + [M.zero]);
      assert u == (u + [M.zero])[..|u|] && v == (v + [M.zero])[..|v|];
    } else {
      assert u == [u[0], u[1], u[2], u[3]] && v == [v[0], v[1], v[2], v[3]];
      FeedFour(M, s, u[0], u[1], u[2], u[3]);
      FeedFour(M, s, v[0], v[1], v[2], v[3]);
      StepsInjective(M, 4 * M.m, Pack(M, s, u[0], u[1], u[2], u[3]), Pack(M, s, v[0], v[1], v[2], v[3]));
    }
  }

  /** p and q agree outside the four positions from i on. */
  predicate WithinBurst<B(==)>(p: seq<B>, q: seq<B>, i: nat) {
    |p| == |q| && forall k :: 0 <= k < |p| && !(i <= k < i + 4) ==> p[k] == q[k]
  }

  /** Inputs that differ only within four consecutive positions, and do differ, end in different registers. */
  lemma {:induction false} BurstChanges<W(!new), B(!new)>(M: Machine<W, B>, c: W, p: seq<B>, q: seq<B>, i: nat)
    requires Linear(M) && PackInjective(M)
    requires WithinBurst(p, q, i) && Feed(M, c, p) == Feed(M, c, q)
    ensures p == q
  {
    var lo := if i <= |p| then i else |p|;
    var hi := if i + 4 <= |p| then i + 4 else |p|;
    BurstOutside(p, q, i, lo, hi);
    FeedParts(M, c, p, lo, hi);
    FeedParts(M, c, q, lo, hi);
    var before := Feed(M, c, p[..lo]);
    FeedInjective(M, Feed(M, before, p[lo..hi]), Feed(M, before, q[lo..hi]), p[hi..]);
    BlockInjective(M, before, p[lo..hi], q[lo..hi]);
    SamePieces(p, q, lo, hi);
  }

  lemma {:induction false} SamePieces<B>(p: seq<B>, q: seq<B>, lo: nat, hi: nat)
    requires |p| == |q| && lo <= hi <= |p| && p[..lo] == q[..lo] && p[lo..hi] == q[lo..hi] && p[hi..] == q[hi..]
    ensures p == q
  {
    assert p == p[..lo] + p[lo..hi] + p[hi..] && q == q[..lo] + q[lo..hi] + q[hi..];
  }

  lemma {:induction false} BurstOutside<B>(p: seq<B>, q: seq<B>, i: nat, lo: nat, hi: nat)
    requires WithinBurst(p, q, i) && lo <= hi <= |p| && lo <= i && (hi == |p| || hi >= i + 4)
    ensures p[..lo] == q[..lo] && p[hi..] == q[hi..]
  {
    assert forall k :: 0 <= k < lo ==> p[k] == q[k];
    assert forall k :: hi <= k < |p| ==> p[k] == q[k];
  }

  lemma {:induction false} FeedParts<W, B>(M: Machine<W, B>, c: W, p: seq<B>, lo: nat, hi: nat)
    requires lo <= hi <= |p|
    ensures Feed(M, c, p) == Feed(M, Feed(M, Feed(M, c, p[..lo]), p[lo..hi]), p[hi..])
  {
    assert p == p[..lo] + p[lo..hi] + p[hi..];
    FeedAppend(M, c, p[..lo] + p[lo..hi], p[hi..]);
    FeedAppend(M, c, p[..lo], p[lo..hi]);
  }
}
