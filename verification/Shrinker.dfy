/** Subsequences: what is left of a sequence after dropping elements. */
module Subsequences {

  ghost predicate IsSubsequence<T>(a: seq<T>, b: seq<T>) {
    || a == []
    || (b != [] && a[0] == b[0] && IsSubsequence(a[1..], b[1..]))
    || (b != [] && IsSubsequence(a, b[1..]))
  }

  /** `s` without the `count` elements that start at `index`. */
  function Delete<T>(s: seq<T>, index: nat, count: nat): (r: seq<T>)
    requires index + count <= |s|
    ensures |r| == |s| - count
  {
    s[..index] + s[index + count..]
  }

  lemma {:induction false} SuffixIsSubsequence<T>(s: seq<T>, k: nat)
    requires k <= |s|
    ensures IsSubsequence(s[k..], s)
  {
    if k > 0 {
      SuffixIsSubsequence(s[1..], k - 1);
      assert s[1..][k - 1..] == s[k..];
    } else if s != [] {
      SuffixIsSubsequence(s[1..], 0);
      assert s[0..] == s && s[1..][0..] == s[1..];
    }
  }

  lemma {:induction false} DeleteIsSubsequence<T>(s: seq<T>, index: nat, count: nat)
    requires index + count <= |s|
    ensures IsSubsequence(Delete(s, index, count), s)
  {
    if index == 0 {
      SuffixIsSubsequence(s, count);
      assert Delete(s, 0, count) == s[count..];
    } else {
      DeleteIsSubsequence(s[1..], index - 1, count);
      var d := Delete(s, index, count);
      assert d[0] == s[0] && d[1..] == Delete(s[1..], index - 1, count);
    }
  }

  lemma {:induction false} SubsequenceTransitive<T>(a: seq<T>, b: seq<T>, c: seq<T>)
    requires IsSubsequence(a, b) && IsSubsequence(b, c)
    ensures IsSubsequence(a, c)
    decreases |b| + |c|
  {
    if a == [] {
    } else if c != [] && b[0] == c[0] && IsSubsequence(b[1..], c[1..]) {
      if a[0] == b[0] && IsSubsequence(a[1..], b[1..]) {
        SubsequenceTransitive(a[1..], b[1..], c[1..]);
      } else {
        SubsequenceTransitive(a, b[1..], c[1..]);
      }
    } else {
      SubsequenceTransitive(a, b, c[1..]);
    }
  }
}

/** The byte-range shrinker of the fuzz harness (fuzz/src/driver.rs). */
module Shrinker {
  import opened Arithmetic
  import opened Subsequences

  const SHRINK_BUDGET: nat := 20_000

  /** A candidate together with the oracle calls still allowed. */
  datatype Progress<T> = Progress(best: seq<T>, budget: nat)

  /** One pass at block size `size`, from position `index` on. */
  function Pass<T>(crash: seq<T> -> bool, best: seq<T>, size: nat, index: nat, budget: nat): Progress<T>
    requires 0 < size && index <= |best|
    decreases |best| - index
  {
    if index + size <= |best| && budget > 0 then
      var candidate := Delete(best, index, size);
      if crash(candidate) then Pass(crash, candidate, size, index, budget - 1)
      else Pass(crash, best, size, index + size, budget - 1)
    else
      Progress(best, budget)
  }

  /** All passes, halving the block size. */
  function Passes<T>(crash: seq<T> -> bool, best: seq<T>, size: nat, budget: nat): Progress<T>
    decreases size
  {
    if size > 0 && budget > 0 then
      var p := Pass(crash, best, size, 0, budget);
      Passes(crash, p.best, size / 2, p.budget)
    else
      Progress(best, budget)
  }

  function Shrunk<T>(crash: seq<T> -> bool, input: seq<T>): Progress<T> {
    Passes(crash, input, |input| / 2, SHRINK_BUDGET)
  }

  method Shrink<T>(input: seq<T>, crash: seq<T> -> bool) returns (best: seq<T>, budget: nat)
    ensures Progress(best, budget) == Shrunk(crash, input)
  {
    best := input;
    budget := SHRINK_BUDGET;
    var size: nat := |best| / 2;
    while size > 0 && budget > 0
      invariant Passes(crash, best, size, budget) == Shrunk(crash, input)
      decreases size
    {
      ghost var after := Pass(crash, best, size, 0, budget);
      var index := 0;
      while index + size <= |best| && budget > 0
        invariant index <= |best|
        invariant Pass(crash, best, size, index, budget) == after
        decreases |best| - index
      {
        var candidate := Delete(best, index, size);
        budget := budget - 1;
        if crash(candidate) {
          best := candidate;
        } else {
          index := index + size;
        }
      }
      size := size / 2;
    }
  }

  // --- Every oracle: nothing is invented and the crash is kept. ---

  lemma {:induction false} PassKeepsCrash<T>(
    crash: seq<T> -> bool, best: seq<T>, size: nat, index: nat, budget: nat)
    requires 0 < size && index <= |best|
    ensures var r := Pass(crash, best, size, index, budget).best;
            IsSubsequence(r, best) && (r == best || crash(r))
    decreases |best| - index
  {
    if index + size <= |best| && budget > 0 {
      var candidate := Delete(best, index, size);
      if crash(candidate) {
        PassKeepsCrash(crash, candidate, size, index, budget - 1);
        DeleteIsSubsequence(best, index, size);
        SubsequenceTransitive(Pass(crash, candidate, size, index, budget - 1).best, candidate, best);
      } else {
        PassKeepsCrash(crash, best, size, index + size, budget - 1);
      }
    } else {
      SuffixIsSubsequence(best, 0);
      assert best[0..] == best;
    }
  }

  lemma {:induction false} PassesKeepCrash<T>(crash: seq<T> -> bool, best: seq<T>, size: nat, budget: nat)
    ensures var r := Passes(crash, best, size, budget).best;
            IsSubsequence(r, best) && (r == best || crash(r))
    decreases size
  {
    if size > 0 && budget > 0 {
      var p := Pass(crash, best, size, 0, budget);
      PassKeepsCrash(crash, best, size, 0, budget);
      PassesKeepCrash(crash, p.best, size / 2, p.budget);
      SubsequenceTransitive(Passes(crash, p.best, size / 2, p.budget).best, p.best, best);
    } else {
      SuffixIsSubsequence(best, 0);
      assert best[0..] == best;
    }
  }

  /** For any oracle: the result only drops bytes and still crashes if the input did. */
  lemma ShrinkKeepsCrash<T>(crash: seq<T> -> bool, input: seq<T>)
    ensures IsSubsequence(Shrunk(crash, input).best, input)
    ensures crash(input) ==> crash(Shrunk(crash, input).best)
  {
    PassesKeepCrash(crash, input, |input| / 2, SHRINK_BUDGET);
  }

  // --- Minimality. ---

  /** Adding bytes never makes a crash disappear. */
  ghost predicate Monotone<T(!new)>(crash: seq<T> -> bool) {
    forall a: seq<T>, b: seq<T> :: IsSubsequence(a, b) && crash(a) ==> crash(b)
  }

  /** No byte before `end` can be deleted on its own. */
  ghost predicate MinimalBefore<T>(crash: seq<T> -> bool, s: seq<T>, end: nat)
    requires end <= |s|
  {
    forall i: nat :: i < end ==> !crash(Delete(s, i, 1))
  }

  ghost predicate OneMinimal<T>(crash: seq<T> -> bool, s: seq<T>) {
    MinimalBefore(crash, s, |s|)
  }

  lemma DeletionKeepsMinimalBefore<T(!new)>(crash: seq<T> -> bool, s: seq<T>, index: nat)
    requires Monotone(crash) && index < |s| && MinimalBefore(crash, s, index)
    ensures MinimalBefore(crash, Delete(s, index, 1), index)
  {
    var d := Delete(s, index, 1);
    forall i: nat | i < index ensures !crash(Delete(d, i, 1)) {
      var e := Delete(s, i, 1);
      assert Delete(d, i, 1) == Delete(e, index - 1, 1);
      DeleteIsSubsequence(e, index - 1, 1);
      assert !crash(e);
    }
  }

  lemma {:induction false} UnitPassIsMinimal<T(!new)>(
    crash: seq<T> -> bool, best: seq<T>, index: nat, budget: nat)
    requires Monotone(crash) && index <= |best| && MinimalBefore(crash, best, index)
    ensures var p := Pass(crash, best, 1, index, budget);
            p.budget > 0 ==> OneMinimal(crash, p.best)
    decreases |best| - index
  {
    if index + 1 <= |best| && budget > 0 {
      var candidate := Delete(best, index, 1);
      if crash(candidate) {
        DeletionKeepsMinimalBefore(crash, best, index);
        UnitPassIsMinimal(crash, candidate, index, budget - 1);
      } else {
        UnitPassIsMinimal(crash, best, index + 1, budget - 1);
      }
    }
  }

  lemma {:induction false} PassesReachMinimal<T(!new)>(
    crash: seq<T> -> bool, best: seq<T>, size: nat, budget: nat)
    requires Monotone(crash) && size > 0
    ensures var p := Passes(crash, best, size, budget);
            p.budget > 0 ==> OneMinimal(crash, p.best)
    decreases size
  {
    if budget > 0 {
      var p := Pass(crash, best, size, 0, budget);
      if size == 1 {
        UnitPassIsMinimal(crash, best, 0, budget);
      } else {
        PassesReachMinimal(crash, p.best, size / 2, p.budget);
      }
    }
  }

  // --- Cost. ---

  /** A pass costs exactly one call per whole block of the text it was entered with. */
  lemma {:induction false} PassCost<T>(
    crash: seq<T> -> bool, best: seq<T>, size: nat, index: nat, budget: nat)
    requires 0 < size && index <= |best|
    ensures var p := Pass(crash, best, size, index, budget);
            && budget - p.budget == Min(budget, (|best| - index) / size)
            && |p.best| <= |best|
    decreases |best| - index
  {
    if index + size <= |best| {
      DropBlock(|best| - index, size);
      if budget > 0 {
        var candidate := Delete(best, index, size);
        if crash(candidate) {
          PassCost(crash, candidate, size, index, budget - 1);
        } else {
          PassCost(crash, best, size, index + size, budget - 1);
        }
      }
    } else {
      SmallQuotient(|best| - index, size);
    }
  }

  /** Calls when every candidate is rejected: the length never drops below `n`. */
  function WorstCase(n: nat, size: nat): nat
    decreases size
  {
    if size == 0 then 0 else n / size + WorstCase(n, size / 2)
  }

  lemma {:induction false} PassesCost<T>(crash: seq<T> -> bool, best: seq<T>, size: nat, budget: nat, n: nat)
    requires |best| <= n
    ensures var p := Passes(crash, best, size, budget);
            p.budget <= budget && budget - p.budget <= WorstCase(n, size)
    decreases size
  {
    if size > 0 && budget > 0 {
      var p := Pass(crash, best, size, 0, budget);
      PassCost(crash, best, size, 0, budget);
      QuotientMonotone(|best|, n, size);
      PassesCost(crash, p.best, size / 2, p.budget, n);
    }
  }

  lemma {:induction false} RejectedPass<T>(best: seq<T>, size: nat, index: nat, budget: nat)
    requires 0 < size && index <= |best|
    ensures Pass((_: seq<T>) => false, best, size, index, budget).best == best
    decreases |best| - index
  {
    if index + size <= |best| && budget > 0 {
      RejectedPass(best, size, index + size, budget - 1);
    }
  }

  /** An oracle that rejects every candidate costs exactly the worst case. */
  lemma {:induction false} RejectedPassesCost<T>(best: seq<T>, size: nat, budget: nat)
    ensures var p := Passes((_: seq<T>) => false, best, size, budget);
            budget - p.budget == Min(budget, WorstCase(|best|, size))
    decreases size
  {
    if size > 0 && budget > 0 {
      var never := (_: seq<T>) => false;
      PassCost(never, best, size, 0, budget);
      RejectedPass(best, size, 0, budget);
      RejectedPassesCost(best, size / 2, Pass(never, best, size, 0, budget).budget);
    }
  }

  /** The largest power of two not above `size`. */
  function PowerBelow(size: nat): (p: nat)
    requires size > 0
    ensures 0 < p <= size
  {
    if size == 1 then 1 else 2 * PowerBelow(size / 2)
  }

  /** `calls` stays below twice `n` by at least `n / p`, free of division. */
  ghost predicate Within(n: nat, calls: nat, p: nat) {
    calls * p <= 2 * (n * p) - n
  }

  lemma FirstBlocks(n: nat)
    ensures Within(n, n, 1)
  {}

  lemma BlocksFit(n: nat, size: nat, part: nat)
    requires 0 < size && part <= size
    ensures (n / size) * part <= n
  {
    var q := n / size;
    assert n == size * q + n % size;
    Distribute(q, part, size - part);
    assert q * size == q * part + q * (size - part);
  }

  lemma TwiceHalf(q: nat, rest: nat, half: nat)
    ensures (q + rest) * (2 * half) == q * (2 * half) + 2 * (rest * half)
  {}

  lemma NextBlocks(n: nat, size: nat, rest: nat, half: nat)
    requires 0 < size && 2 * half <= size && Within(n, rest, half)
    ensures Within(n, n / size + rest, 2 * half)
  {
    BlocksFit(n, size, 2 * half);
    TwiceHalf(n / size, rest, half);
    TwiceHalf(0, n, half);
  }

  lemma {:induction false} WorstCaseScaled(n: nat, size: nat)
    requires size > 0
    ensures Within(n, WorstCase(n, size), PowerBelow(size))
  {
    if size == 1 {
      FirstBlocks(n);
      assert WorstCase(n, 1) == n / 1 + WorstCase(n, 0) == n;
    } else {
      WorstCaseScaled(n, size / 2);
      NextBlocks(n, size, WorstCase(n, size / 2), PowerBelow(size / 2));
    }
  }

  /** Fewer than two oracle calls per input byte. */
  lemma WorstCaseBound(n: nat, size: nat)
    requires size > 0 && n > 0
    ensures WorstCase(n, size) < 2 * n
  {
    WorstCaseScaled(n, size);
    BelowTwice(n, WorstCase(n, size), PowerBelow(size));
  }

  lemma BelowTwice(n: nat, calls: nat, p: nat)
    requires n > 0 && Within(n, calls, p)
    ensures calls < 2 * n
  {
    assert 2 * (n * p) == (2 * n) * p;
    Cancel(calls, 2 * n, p);
  }

  lemma Cancel(a: nat, b: nat, p: nat)
    requires a * p < b * p
    ensures a < b
  {}

  // --- Main results. ---

  lemma ShrinkCost<T>(crash: seq<T> -> bool, input: seq<T>)
    requires |input| >= 2
    ensures SHRINK_BUDGET - Shrunk(crash, input).budget < 2 * |input|
  {
    PassesCost(crash, input, |input| / 2, SHRINK_BUDGET, |input|);
    WorstCaseBound(|input|, |input| / 2);
  }

  /** The budget outlives every oracle exactly when the worst case of this length fits in it. */
  lemma BudgetSufficesExactly<T>(input: seq<T>)
    ensures (forall crash: seq<T> -> bool :: Shrunk(crash, input).budget > 0)
       <==> WorstCase(|input|, |input| / 2) < SHRINK_BUDGET
  {
    var size := |input| / 2;
    if WorstCase(|input|, size) < SHRINK_BUDGET {
      forall crash: seq<T> -> bool ensures Shrunk(crash, input).budget > 0 {
        PassesCost(crash, input, size, SHRINK_BUDGET, |input|);
      }
    } else {
      RejectedPassesCost(input, size, SHRINK_BUDGET);
      assert Shrunk((_: seq<T>) => false, input).budget == 0;
    }
  }

  /** If budget remains, a monotone oracle gets a result no single byte can leave. */
  lemma ShrinkIsMinimal<T(!new)>(crash: seq<T> -> bool, input: seq<T>)
    requires Monotone(crash) && |input| >= 2
    ensures Shrunk(crash, input).budget > 0 ==> OneMinimal(crash, Shrunk(crash, input).best)
  {
    PassesReachMinimal(crash, input, |input| / 2, SHRINK_BUDGET);
  }

  /** Up to 10,000 bytes the budget never runs out, so minimality needs no proviso. */
  lemma ShrinkIsMinimalWithinBudget<T(!new)>(crash: seq<T> -> bool, input: seq<T>)
    requires Monotone(crash) && 2 <= |input| <= 10_000
    ensures OneMinimal(crash, Shrunk(crash, input).best)
  {
    ShrinkCost(crash, input);
    ShrinkIsMinimal(crash, input);
  }

  /**
   * Inputs of at most one byte are returned untried, whatever the oracle says.
   * Such a result is minimal exactly when it is empty or the empty input does
   * not crash.
   */
  lemma ShortInputIsNotTried<T>(crash: seq<T> -> bool, input: seq<T>)
    ensures |input| < 2 <==> Shrunk(crash, input) == Progress(input, SHRINK_BUDGET)
    ensures |input| < 2 ==>
      (OneMinimal(crash, Shrunk(crash, input).best) <==> input == [] || !crash([]))
  {
    if |input| == 1 {
      assert Delete(input, 0, 1) == [];
    }
    if |input| >= 2 {
      var size := |input| / 2;
      var p := Pass(crash, input, size, 0, SHRINK_BUDGET);
      PassCost(crash, input, size, 0, SHRINK_BUDGET);
      PassesCost(crash, p.best, size / 2, p.budget, |p.best|);
      assert |input| / size >= 1 by {
        assert |input| >= size;
        QuotientMonotone(size, |input|, size);
      }
    }
  }

  /** Without monotonicity the result can still lose a byte. */
  lemma NonMonotoneCounterexample()
    ensures exists crash: seq<nat> -> bool ::
              var p := Shrunk(crash, [1, 2]);
              crash([1, 2]) && p.budget > 0 && !OneMinimal(crash, p.best)
  {
    var crash := (s: seq<nat>) => s != [2];
    var input: seq<nat> := [1, 2];
    assert Delete(input, 0, 1) == [2];
    assert Delete(input, 1, 1) == [1];
    assert Pass(crash, [1], 1, 1, SHRINK_BUDGET - 2) == Progress([1], SHRINK_BUDGET - 2);
    assert Pass(crash, input, 1, 1, SHRINK_BUDGET - 1) == Progress([1], SHRINK_BUDGET - 2);
    assert Pass(crash, input, 1, 0, SHRINK_BUDGET) == Progress([1], SHRINK_BUDGET - 2);
    assert Passes(crash, [1], 0, SHRINK_BUDGET - 2) == Progress([1], SHRINK_BUDGET - 2);
    assert Shrunk(crash, input) == Progress([1], SHRINK_BUDGET - 2);
    assert Delete([1], 0, 1) == [];
    assert crash(Delete([1], 0, 1));
  }
}
