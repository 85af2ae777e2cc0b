/**
 * The 7-bag randomizer: a stack of piece kinds, refilled with a Fisher-Yates shuffle of all
 * seven kinds, popped by `Next` and inspected by `PeekQueue`.
 */
module Randomizer {
  import opened Pieces

  /**
   * The random source, reduced to the swap partners it yields: `rng(k, i)` is
   * `Math.floor(rng() * (i + 1))` for the source's k-th value, when the shuffle is at index `i`.
   * A value in [0, 1) gives an index in [0, i], which is all the shuffle relies on.
   */
  type Source = f: (nat, nat) -> nat | forall k: nat, i: nat :: f(k, i) <= i
    witness (k: nat, i: nat) => 0

  /** `s` with the elements at `i` and `j` exchanged. */
  function Swap(s: seq<Kind>, i: nat, j: nat): (t: seq<Kind>)
    requires i < |s| && j < |s|
    ensures |t| == |s|
  {
    s[i := s[j]][j := s[i]]
  }

  /**
   * The Fisher-Yates loop from index `i` down to 1 over `s`, its k-th swap partner drawn with
   * the source's value number `d + k`.
   */
  function ShuffleDown(rng: Source, d: nat, s: seq<Kind>, i: nat): (t: seq<Kind>)
    requires i < |s|
    ensures |t| == |s|
    decreases i
  {
    if i == 0 then s
    else ShuffleDown(rng, d + 1, Swap(s, i, rng(d, i)), i - 1)
  }

  /** The permutation `refill` pushes when the source's next value is its d-th one. */
  function Shuffle(rng: Source, d: nat): (t: seq<Kind>)
    ensures |t| == 7
  {
    ShuffleDown(rng, d, AllKinds, 6)
  }

  /** A swap only reorders. */
  lemma SwapPermutes(s: seq<Kind>, i: nat, j: nat)
    requires i < |s| && j < |s|
    ensures multiset(Swap(s, i, j)) == multiset(s)
  {
    var t := s[i := s[j]];
    assert multiset(t) == multiset(s) - multiset{s[i]} + multiset{s[j]};
    assert multiset(t[j := s[i]]) == multiset(t) - multiset{t[j]} + multiset{s[i]};
  }

  /** The Fisher-Yates loop only reorders. */
  lemma {:induction false} ShuffleDownPermutes(rng: Source, d: nat, s: seq<Kind>, i: nat)
    requires i < |s|
    ensures multiset(ShuffleDown(rng, d, s, i)) == multiset(s)
    decreases i
  {
    if i > 0 {
      var j := rng(d, i);
      SwapPermutes(s, i, j);
      ShuffleDownPermutes(rng, d + 1, Swap(s, i, j), i - 1);
    }
  }

  /** Pairwise distinct elements. */
  predicate Distinct(s: seq<Kind>)
  {
    forall a, b :: 0 <= a < b < |s| ==> s[a] != s[b]
  }

  /** A swap keeps the elements distinct. */
  lemma SwapDistinct(s: seq<Kind>, i: nat, j: nat)
    requires i < |s| && j < |s| && Distinct(s)
    ensures Distinct(Swap(s, i, j))
  {
    var t := Swap(s, i, j);
    forall a, b | 0 <= a < b < |t|
      ensures t[a] != t[b]
    {
      var a' := if a == i then j else if a == j then i else a;
      var b' := if b == i then j else if b == j then i else b;
      assert t[a] == s[a'] && t[b] == s[b'];
      assert a' != b';
    }
  }

  /** The Fisher-Yates loop keeps the elements distinct. */
  lemma {:induction false} ShuffleDownDistinct(rng: Source, d: nat, s: seq<Kind>, i: nat)
    requires i < |s| && Distinct(s)
    ensures Distinct(ShuffleDown(rng, d, s, i))
    decreases i
  {
    if i > 0 {
      var j := rng(d, i);
      SwapDistinct(s, i, j);
      ShuffleDownDistinct(rng, d + 1, Swap(s, i, j), i - 1);
    }
  }

  /**
   * Each refill holds every kind exactly once, whatever values the source returns: it is a
   * permutation of the seven kinds, it contains each kind and no kind twice.
   */
  lemma ShuffleIsPermutation(rng: Source, d: nat)
    ensures multiset(Shuffle(rng, d)) == multiset(AllKinds)
    ensures forall k: Kind :: k in Shuffle(rng, d)
    ensures Distinct(Shuffle(rng, d))
  {
    AllKindsDistinct();
    assert Distinct(AllKinds);
    ShuffleDownPermutes(rng, d, AllKinds, 6);
    ShuffleDownDistinct(rng, d, AllKinds, 6);
    forall k: Kind
      ensures k in Shuffle(rng, d)
    {
      SameElements(Shuffle(rng, d), AllKinds, k);
    }
  }

  /** Sequences with the same multiset have the same elements. */
  lemma SameElements(a: seq<Kind>, b: seq<Kind>, k: Kind)
    requires multiset(a) == multiset(b) && k in b
    ensures k in a
  {
    assert k in multiset(b);
  }

  /** `s` back to front, as `Array.prototype.reverse` leaves it. */
  function Reverse(s: seq<Kind>): (r: seq<Kind>)
    ensures |r| == |s|
  {
    if s == [] then [] else [s[|s| - 1]] + Reverse(s[..|s| - 1])
  }

  lemma {:induction false} ReversePermutes(s: seq<Kind>)
    ensures multiset(Reverse(s)) == multiset(s)
  {
    if s != [] {
      ReversePermutes(s[..|s| - 1]);
      assert s == s[..|s| - 1] + [s[|s| - 1]];
    }
  }

  /**
   * `Array.prototype.slice(start)`: a negative `start` counts from the end (clamped at 0), any
   * other is clamped at the length. `-0` is `0`, so `slice(-0)` is the whole array.
   */
  function JsSlice(s: seq<Kind>, start: int): (r: seq<Kind>)
    ensures start < 0 && -start <= |s| ==> r == s[|s| + start..]
    ensures start == 0 ==> r == s
  {
    if start < 0 then s[(if |s| + start < 0 then 0 else |s| + start)..]
    else s[(if start < |s| then start else |s|)..]
  }

  /** The randomizer's state: the stack (its top at the end) and how many values it has drawn. */
  datatype BagState = BagState(bag: seq<Kind>, draws: nat)

  /** `refill`: a fresh permutation pushed on top, using the next six values of the source. */
  function Refilled(rng: Source, s: BagState): BagState
  {
    BagState(s.bag + Shuffle(rng, s.draws), s.draws + 6)
  }

  /** `next`: refill if the stack is empty, then pop its top. */
  function NextOf(rng: Source, s: BagState): (kt: (Kind, BagState))
  {
    var t := if s.bag == [] then Refilled(rng, s) else s;
    (t.bag[|t.bag| - 1], BagState(t.bag[..|t.bag| - 1], t.draws))
  }

  /** `m` calls of `next` in a row: the kinds they return, in order, and the final state. */
  function Run(rng: Source, s: BagState, m: nat): (ks: (seq<Kind>, BagState))
    ensures |ks.0| == m
    decreases m
  {
    if m == 0 then ([], s)
    else
      var (k, t) := NextOf(rng, s);
      var (rest, u) := Run(rng, t, m - 1);
      ([k] + rest, u)
  }

  /** `peekQueue`'s loop: refill (pushing on top) while the stack holds fewer than `n` kinds. */
  function TopUp(rng: Source, s: BagState, n: int): (t: BagState)
    decreases n - |s.bag|
  {
    if |s.bag| >= n then s else TopUp(rng, Refilled(rng, s), n)
  }

  /** `peekQueue(n)`: top up, then the last `n` (by `slice(-n)`) reversed, so in pop order. */
  function PeekOf(rng: Source, s: BagState, n: int): (rt: (seq<Kind>, BagState))
  {
    var t := TopUp(rng, s, n);
    (Reverse(JsSlice(t.bag, -n)), t)
  }

  /** `next` pops one kind from the stack as it is after the refill, if one was needed. */
  lemma NextPops(rng: Source, s: BagState)
    ensures var (k, t) := NextOf(rng, s);
      var full := if s.bag == [] then s.bag + Shuffle(rng, s.draws) else s.bag;
      full == t.bag + [k] &&
      t.draws == (if s.bag == [] then s.draws + 6 else s.draws)
  {
    var full := if s.bag == [] then s.bag + Shuffle(rng, s.draws) else s.bag;
    LastSplit(full);
  }

  /** A non-empty sequence is its front followed by its last element. */
  lemma LastSplit(s: seq<Kind>)
    requires s != []
    ensures s == s[..|s| - 1] + [s[|s| - 1]]
  {
  }

  /** While the stack holds at least `m` kinds, `m` calls of `next` pop them without refilling. */
  lemma {:induction false} RunPops(rng: Source, s: BagState, m: nat)
    requires m <= |s.bag|
    ensures Run(rng, s, m) == (Reverse(s.bag[|s.bag| - m..]), BagState(s.bag[..|s.bag| - m], s.draws))
    decreases m
  {
    if m == 0 {
      assert s.bag[..|s.bag|] == s.bag;
    } else {
      var n := |s.bag|;
      var t := BagState(s.bag[..n - 1], s.draws);
      assert NextOf(rng, s) == (s.bag[n - 1], t);
      assert Run(rng, s, m) == ([s.bag[n - 1]] + Run(rng, t, m - 1).0, Run(rng, t, m - 1).1);
      RunPops(rng, t, m - 1);
      assert t.bag[..|t.bag| - (m - 1)] == s.bag[..n - m];
      var top := s.bag[n - m..];
      assert top[|top| - 1] == s.bag[n - 1];
      assert top[..|top| - 1] == t.bag[|t.bag| - (m - 1)..];
      assert Reverse(top) == [top[|top| - 1]] + Reverse(top[..|top| - 1]);
    }
  }

  /** Runs compose: `a + b` calls are `a` calls followed by `b` more from where they left off. */
  lemma {:induction false} RunSplit(rng: Source, s: BagState, a: nat, b: nat)
    ensures Run(rng, s, a + b).0 == Run(rng, s, a).0 + Run(rng, Run(rng, s, a).1, b).0
    ensures Run(rng, s, a + b).1 == Run(rng, Run(rng, s, a).1, b).1
    decreases a
  {
    if a > 0 {
      var (k, t) := NextOf(rng, s);
      RunSplit(rng, t, a - 1, b);
    }
  }

  /** Seven calls of `next` on an empty stack refill once and pop that whole permutation. */
  lemma SevenFromEmpty(rng: Source, d: nat)
    ensures Run(rng, BagState([], d), 7) == (Reverse(Shuffle(rng, d)), BagState([], d + 6))
  {
    var s := BagState([], d);
    var p := Shuffle(rng, d);
    var t := BagState(p[..6], d + 6);
    assert Refilled(rng, s).bag == p;
    assert NextOf(rng, s) == (p[6], t);
    assert Run(rng, s, 7) == ([p[6]] + Run(rng, t, 6).0, Run(rng, t, 6).1);
    RunPops(rng, t, 6);
    assert t.bag[6 - 6..] == p[..6];
    assert Reverse(p) == [p[6]] + Reverse(p[..6]);
  }

  /** A new randomizer has drawn nothing and holds nothing. */
  const Fresh := BagState([], 0)

  /** From a fresh randomizer, `7k` calls of `next` leave the stack empty after `6k` values. */
  lemma {:induction false} WholeBags(rng: Source, k: nat)
    ensures Run(rng, Fresh, 7 * k).1 == BagState([], 6 * k)
  {
    if k > 0 {
      var a, d := 7 * (k - 1), 6 * (k - 1);
      WholeBags(rng, k - 1);
      assert Run(rng, Fresh, a).1 == BagState([], d);
      RunSplit(rng, Fresh, a, 7);
      SevenFromEmpty(rng, d);
      assert a + 7 == 7 * k && d + 6 == 6 * k;
    }
  }

  /**
   * Draws 7k to 7k+6 of a fresh randomizer that is only ever asked for `next` are the seven
   * kinds, each exactly once.
   */
  lemma SevenBagWindows(rng: Source, k: nat)
    ensures var ks := Run(rng, Fresh, 7 * k + 7).0[7 * k..];
      multiset(ks) == multiset(AllKinds) && (forall kind: Kind :: kind in ks) && Distinct(ks)
  {
    WholeBags(rng, k);
    RunSplit(rng, Fresh, 7 * k, 7);
    SevenFromEmpty(rng, 6 * k);
    var p := Shuffle(rng, 6 * k);
    ShuffleIsPermutation(rng, 6 * k);
    ReversePermutes(p);
    ReverseDistinct(p);
    var ks := Run(rng, Fresh, 7 * k + 7).0[7 * k..];
    assert ks == Reverse(p);
    forall kind: Kind
      ensures kind in ks
    {
      SameElements(ks, p, kind);
    }
  }

  /** Element `i` of the reversal is element `|s| - 1 - i` of the original. */
  lemma {:induction false} ReverseIndex(s: seq<Kind>, i: nat)
    requires i < |s|
    ensures Reverse(s)[i] == s[|s| - 1 - i]
  {
    if i > 0 {
      ReverseIndex(s[..|s| - 1], i - 1);
    }
  }

  lemma ReverseDistinct(s: seq<Kind>)
    requires Distinct(s)
    ensures Distinct(Reverse(s))
  {
    var r := Reverse(s);
    forall a, b | 0 <= a < b < |r|
      ensures r[a] != r[b]
    {
      ReverseIndex(s, a);
      ReverseIndex(s, b);
    }
  }

  /** After `TopUp` the stack holds at least `n` kinds. */
  lemma {:induction false} TopUpFills(rng: Source, s: BagState, n: int)
    ensures |TopUp(rng, s, n).bag| >= n
    decreases n - |s.bag|
  {
    if |s.bag| < n {
      TopUpFills(rng, Refilled(rng, s), n);
    }
  }

  /** How many refills `peekQueue(n)` performs on a stack of `len` kinds. */
  function RefillsNeeded(len: nat, n: int): nat
  {
    if len >= n then 0 else (n - len + 6) / 7
  }

  /** `m` refills in a row. */
  function Pushed(rng: Source, s: BagState, m: nat): BagState
    decreases m
  {
    if m == 0 then s else Pushed(rng, Refilled(rng, s), m - 1)
  }

  /** `m` consecutive permutations, the first drawn from the source's d-th value on. */
  function Blocks(rng: Source, d: nat, m: nat): (b: seq<Kind>)
    ensures |b| == 7 * m
    decreases m
  {
    if m == 0 then [] else Shuffle(rng, d) + Blocks(rng, d + 6, m - 1)
  }

  /** Refills only push: `m` of them append `m` permutations and use `6m` values. */
  lemma {:induction false} PushedAppends(rng: Source, s: BagState, m: nat)
    ensures Pushed(rng, s, m).bag == s.bag + Blocks(rng, s.draws, m)
    ensures Pushed(rng, s, m).draws == s.draws + 6 * m
    decreases m
  {
    if m > 0 {
      var r := Refilled(rng, s);
      PushedAppends(rng, r, m - 1);
      var p, rest := Shuffle(rng, s.draws), Blocks(rng, s.draws + 6, m - 1);
      assert Pushed(rng, s, m) == Pushed(rng, r, m - 1);
      assert Blocks(rng, s.draws, m) == p + rest;
      assert r.bag + rest == s.bag + (p + rest);
    } else {
      assert s.bag + [] == s.bag;
    }
  }

  /** `TopUp` performs exactly `RefillsNeeded` refills: the fewest whole bags that reach `n`. */
  lemma {:induction false} TopUpIsPushed(rng: Source, s: BagState, n: int)
    ensures TopUp(rng, s, n) == Pushed(rng, s, RefillsNeeded(|s.bag|, n))
    decreases n - |s.bag|
  {
    if |s.bag| < n {
      var t := Refilled(rng, s);
      TopUpIsPushed(rng, t, n);
      assert |t.bag| == |s.bag| + 7;
      assert RefillsNeeded(|t.bag|, n) + 1 == RefillsNeeded(|s.bag|, n);
    }
  }

  /**
   * `peekQueue` never removes or reorders what is on the stack: it pushes zero or more whole
   * permutations on top, as few as reach `n`.
   */
  lemma PeekOnlyPushes(rng: Source, s: BagState, n: int)
    ensures var t := PeekOf(rng, s, n).1;
      var m := RefillsNeeded(|s.bag|, n);
      t == BagState(s.bag + Blocks(rng, s.draws, m), s.draws + 6 * m) &&
      s.bag <= t.bag
  {
    TopUpIsPushed(rng, s, n);
    PushedAppends(rng, s, RefillsNeeded(|s.bag|, n));
  }

  /** For `n >= 1`, `peekQueue(n)` returns exactly `n` kinds and leaves at least `n` stacked. */
  lemma PeekLength(rng: Source, s: BagState, n: int)
    requires n >= 1
    ensures |PeekOf(rng, s, n).0| == n && |PeekOf(rng, s, n).1.bag| >= n
  {
    TopUpFills(rng, s, n);
  }

  /** For `n >= 1`, the next `n` calls of `next` after `peekQueue(n)` return the peeked kinds. */
  lemma PeekThenNext(rng: Source, s: BagState, n: int)
    requires n >= 1
    ensures Run(rng, PeekOf(rng, s, n).1, n).0 == PeekOf(rng, s, n).0
  {
    var t := PeekOf(rng, s, n).1;
    TopUpFills(rng, s, n);
    RunPops(rng, t, n);
  }

  /** Peeking twice gives the same kinds, and the second peek does not refill. */
  lemma PeekIdempotent(rng: Source, s: BagState, n: int)
    ensures PeekOf(rng, PeekOf(rng, s, n).1, n) == PeekOf(rng, s, n)
  {
    TopUpFills(rng, s, n);
  }

  /** `peekQueue(0)` returns the whole stack in pop order instead of nothing (`slice(-0)`). */
  lemma PeekZeroReturnsAll(rng: Source, s: BagState)
    ensures PeekOf(rng, s, 0) == (Reverse(s.bag), s)
    ensures s.bag != [] ==> PeekOf(rng, s, 0).0 != []
  {
  }

  /** A source whose every value is 0 (as `() => 0`): each swap partner is index 0. */
  function ZeroSource(): Source
  {
    (k: nat, i: nat) => 0
  }

  /** With the all-zero source, every refill is the same permutation. */
  lemma ZeroShuffle(d: nat)
    ensures Shuffle(ZeroSource(), d) == [O, T, S, Z, J, L, I]
  {
    var z := ZeroSource();
    var s1 := Swap(AllKinds, 6, 0);
    assert s1 == [L, O, T, S, Z, J, I];
    var s2 := Swap(s1, 5, 0);
    assert s2 == [J, O, T, S, Z, L, I];
    var s3 := Swap(s2, 4, 0);
    assert s3 == [Z, O, T, S, J, L, I];
    var s4 := Swap(s3, 3, 0);
    assert s4 == [S, O, T, Z, J, L, I];
    var s5 := Swap(s4, 2, 0);
    assert s5 == [T, O, S, Z, J, L, I];
    var s6 := Swap(s5, 1, 0);
    assert s6 == [O, T, S, Z, J, L, I];
    assert ShuffleDown(z, d + 5, s5, 1) == ShuffleDown(z, d + 6, s6, 0);
    assert ShuffleDown(z, d + 4, s4, 2) == ShuffleDown(z, d + 5, s5, 1);
    assert ShuffleDown(z, d + 3, s3, 3) == ShuffleDown(z, d + 4, s4, 2);
    assert ShuffleDown(z, d + 2, s2, 4) == ShuffleDown(z, d + 3, s3, 3);
    assert ShuffleDown(z, d + 1, s1, 5) == ShuffleDown(z, d + 2, s2, 4);
  }

  /**
   * With the all-zero source, a fresh randomizer's first draw is I, six draws leave O alone on
   * the stack, and the seventh draw is that O.
   */
  lemma ZeroFirstDraws()
    ensures Run(ZeroSource(), Fresh, 6).0[0] == I
    ensures Run(ZeroSource(), Fresh, 6).1 == BagState([O], 6)
    ensures Run(ZeroSource(), Fresh, 7).0[6] == O
  {
    var z := ZeroSource();
    var p := [O, T, S, Z, J, L, I];
    ZeroShuffle(0);
    var s1 := BagState(p[..6], 6);
    assert Refilled(z, Fresh).bag == p;
    assert NextOf(z, Fresh) == (I, s1);
    assert Run(z, Fresh, 6) == ([I] + Run(z, s1, 5).0, Run(z, s1, 5).1);
    RunPops(z, s1, 5);
    assert s1.bag[..6 - 5] == [O];
    var s6 := BagState([O], 6);
    RunSplit(z, Fresh, 6, 1);
    assert NextOf(z, s6) == (O, BagState([], 6));
  }

  /**
   * With the all-zero source: after six calls of `next`, `peekQueue(2)` refills on top of the
   * one leftover kind O, so the seventh call returns I, as the first did, where without the peek
   * it returns O: the first seven draws are no longer seven distinct kinds.
   */
  lemma PeekBreaksSevenBag()
    ensures var z := ZeroSource();
      var (six, s6) := Run(z, Fresh, 6);
      var seventh := NextOf(z, PeekOf(z, s6, 2).1).0;
      s6.bag == [O] && seventh == I && six[0] == seventh && Run(z, Fresh, 7).0[6] == O &&
      !Distinct(six + [seventh])
  {
    var z := ZeroSource();
    ZeroFirstDraws();
    ZeroShuffle(6);
    var s6 := BagState([O], 6);
    assert TopUp(z, s6, 2) == BagState([O, O, T, S, Z, J, L, I], 12);
    var six := Run(z, Fresh, 6).0;
    var seven := six + [I];
    assert seven[0] == seven[6];
  }

  /** The corrected refill: a fresh permutation goes *under* what is already stacked. */
  function RefilledUnder(rng: Source, s: BagState): BagState
  {
    BagState(Shuffle(rng, s.draws) + s.bag, s.draws + 6)
  }

  function IntendedTopUp(rng: Source, s: BagState, n: int): (t: BagState)
    ensures |t.bag| >= n
    decreases n - |s.bag|
  {
    if |s.bag| >= n then s else IntendedTopUp(rng, RefilledUnder(rng, s), n)
  }

  /** The corrected `peekQueue(n)`: nothing for `n <= 0`, otherwise the top `n` in pop order. */
  function IntendedPeek(rng: Source, s: BagState, n: int): (rt: (seq<Kind>, BagState))
  {
    if n <= 0 then ([], s)
    else
      var t := IntendedTopUp(rng, s, n);
      (Reverse(t.bag[|t.bag| - n..]), t)
  }

  /** Refilling underneath changes nothing about what any number of `next` calls return. */
  lemma {:induction false} RefillUnderKeepsDraws(rng: Source, s: BagState, m: nat)
    ensures Run(rng, RefilledUnder(rng, s), m).0 == Run(rng, s, m).0
    decreases m
  {
    if m > 0 {
      if s.bag == [] {
        assert RefilledUnder(rng, s) == Refilled(rng, s);
        assert NextOf(rng, RefilledUnder(rng, s)) == NextOf(rng, s);
      } else {
        var n := |s.bag|;
        var t := BagState(s.bag[..n - 1], s.draws);
        var u := RefilledUnder(rng, s);
        assert u.bag[..|u.bag| - 1] == Shuffle(rng, s.draws) + s.bag[..n - 1];
        assert NextOf(rng, u) == (s.bag[n - 1], RefilledUnder(rng, t));
        assert NextOf(rng, s) == (s.bag[n - 1], t);
        RefillUnderKeepsDraws(rng, t, m - 1);
      }
    }
  }

  lemma {:induction false} IntendedTopUpKeepsDraws(rng: Source, s: BagState, n: int, m: nat)
    ensures Run(rng, IntendedTopUp(rng, s, n), m).0 == Run(rng, s, m).0
    decreases n - |s.bag|
  {
    if |s.bag| < n {
      IntendedTopUpKeepsDraws(rng, RefilledUnder(rng, s), n, m);
      RefillUnderKeepsDraws(rng, s, m);
    }
  }

  /**
   * The corrected peek neither changes the draw order nor misreports it: every later run of
   * `next` returns what it would have without the peek, and the peeked kinds are exactly the
   * next `n` draws (none for `n <= 0`).
   */
  lemma IntendedPeekKeepsDrawOrder(rng: Source, s: BagState, n: int, m: nat)
    ensures Run(rng, IntendedPeek(rng, s, n).1, m).0 == Run(rng, s, m).0
    ensures IntendedPeek(rng, s, n).0 == Run(rng, s, if n <= 0 then 0 else n).0
  {
    if n > 0 {
      IntendedTopUpKeepsDraws(rng, s, n, m);
      IntendedTopUpKeepsDraws(rng, s, n, n);
      RunPops(rng, IntendedTopUp(rng, s, n), n);
    }
  }

  class Bag7 {
    /** The stack of upcoming kinds; its top (the next to be drawn) is the last element. */
    var bag: seq<Kind>
    /** How many values have been taken from the random source so far. */
    var draws: nat
    const rng: Source

    function State(): BagState
      reads this
    {
      BagState(bag, draws)
    }

    /** An empty bag over the given random source. */
    constructor (rng: Source)
      ensures State() == Fresh && this.rng == rng
    {
      this.rng := rng;
      bag := [];
      draws := 0;
    }

    /** Shuffles the seven kinds (Fisher-Yates, from the last index down) and pushes them. */
    method Refill()
      modifies this
      ensures State() == Refilled(rng, old(State()))
    {
      var kinds := new Kind[7][I, O, T, S, Z, J, L];
      assert kinds[..] == AllKinds;
      ghost var d0 := draws;
      var i := 6;
      while i > 0
        invariant 0 <= i <= 6 && draws == d0 + (6 - i) && bag == old(bag)
        invariant ShuffleDown(rng, draws, kinds[..], i) == Shuffle(rng, d0)
      {
        var j := rng(draws, i);
        draws := draws + 1;
        ghost var before := kinds[..];
        kinds[i], kinds[j] := kinds[j], kinds[i];
        assert kinds[..] == Swap(before, i, j);
        i := i - 1;
      }
      ghost var shuffled := kinds[..];
      assert shuffled == Shuffle(rng, d0);
      for k := 0 to 7
        invariant kinds[..] == shuffled && draws == d0 + 6
        invariant bag == old(bag) + kinds[..k]
      {
        bag := bag + [kinds[k]];
      }
      assert kinds[..7] == shuffled;
    }

    /** The next kind: refills first when the stack is empty, then pops its top. */
    method Next() returns (k: Kind)
      modifies this
      ensures (k, State()) == NextOf(rng, old(State()))
    {
      if |bag| == 0 {
        Refill();
      }
      k := bag[|bag| - 1];
      bag := bag[..|bag| - 1];
    }

    /** The next `n` kinds in draw order, refilling on top until the stack holds `n`. */
    method PeekQueue(n: int) returns (r: seq<Kind>)
      modifies this
      ensures (r, State()) == PeekOf(rng, old(State()), n)
    {
      while |bag| < n
        invariant TopUp(rng, State(), n) == TopUp(rng, old(State()), n)
        decreases n - |bag|
      {
        Refill();
      }
      r := Reverse(JsSlice(bag, -n));
    }
  }
}
