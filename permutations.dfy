/** Permutations of alphabet indices written in cycle notation, "(AB)(CDE)":
    each parenthesised group is one cycle, and an index in no cycle is a
    fixed point. */
module Permutations {
  import opened Results
  import opened Alphabets
  import Seqs

  // ---------------------------------------------------------------------
  // Integer arithmetic as the source's `int` does it
  // ---------------------------------------------------------------------

  lemma {:induction false} MulBounds(d: int, n: int)
    requires n > 0
    ensures d >= 1 ==> d * n >= n
    ensures d <= -1 ==> d * n <= -n
  {
    if d >= 1 {
      var e := d - 1;
      assert d * n == e * n + n;
    } else if d <= -1 {
      var e := -d - 1;
      assert d * n == -(e * n) - n;
    }
  }

  /** Euclidean remainder is determined by any decomposition x == q*n + r. */
  lemma {:induction false} ModUnique(x: int, q: int, r: int, n: int)
    requires n > 0 && 0 <= r < n && x == q * n + r
    ensures x % n == r
  {
    var q', r' := x / n, x % n;
    var d := q - q';
    assert d * n == r' - r by {
      assert q * n - q' * n == (q - q') * n;
    }
    MulBounds(d, n);
  }

  /** Adding after reducing is adding before reducing. */
  lemma {:induction false} ModShift(a: int, b: int, n: int)
    requires n > 0
    ensures (a % n + b) % n == (a + b) % n
  {
    var q := (a + b) / n;
    var r := (a + b) % n;
    assert a == (a / n) * n + a % n;
    assert a % n + b == (q - a / n) * n + r by {
      assert (q - a / n) * n == q * n - (a / n) * n;
    }
    ModUnique(a % n + b, q - a / n, r, n);
  }

  /** Java's `p % n` for n > 0: the remainder truncated toward zero, which
      takes the sign of `p`.  Written as repeated subtraction (or addition)
      of `n`, which is what truncation toward zero amounts to. */
  function TruncRem(p: int, n: int): (r: int)
    requires n > 0
    ensures p >= 0 ==> 0 <= r < n
    ensures p < 0 ==> -n < r <= 0
    decreases if p >= 0 then p else -p
  {
    if p >= n then TruncRem(p - n, n)
    else if p <= -n then TruncRem(p + n, n)
    else p
  }

  /** The remainder corrected by one `n` when negative is the Euclidean
      remainder. */
  lemma {:induction false} TruncRemCorrected(p: int, n: int)
    requires n > 0
    ensures (if TruncRem(p, n) < 0 then TruncRem(p, n) + n else TruncRem(p, n)) == p % n
    decreases if p >= 0 then p else -p
  {
    if p >= n {
      TruncRemCorrected(p - n, n);
      ModShift(p - n, n, n);
      ModUnique(n, 1, 0, n);
      assert (p - n) % n + n == ((p - n) % n + 0) + 1 * n;
      ModUnique((p - n) % n + n, 1, (p - n) % n, n);
    } else if p <= -n {
      TruncRemCorrected(p + n, n);
      ModShift(p, n, n);
      ModUnique(p % n + n, 1, p % n, n);
    } else if p < 0 {
      ModUnique(p, -1, p + n, n);
    } else {
      ModUnique(p, 0, p, n);
    }
  }

  // ---------------------------------------------------------------------
  // Scanning the cycles
  // ---------------------------------------------------------------------

  /** Every index occurs at most once in all the cycles together (so the
      cycles are pairwise disjoint and none repeats an entry). */
  predicate Disjoint(cycles: seq<seq<int>>) {
    forall k1, i1, k2, i2 |
      0 <= k1 < |cycles| && 0 <= i1 < |cycles[k1]| &&
      0 <= k2 < |cycles| && 0 <= i2 < |cycles[k2]| &&
      cycles[k1][i1] == cycles[k2][i2]
      :: k1 == k2 && i1 == i2
  }

  /** The entry after position i of cycle c, taken cyclically. */
  function After(c: seq<int>, i: int): int
    requires 0 <= i < |c|
  {
    c[(i + 1) % |c|]
  }

  /** The entry before position i of cycle c, taken cyclically. */
  function Before(c: seq<int>, i: int): int
    requires 0 <= i < |c|
  {
    c[(i - 1 + |c|) % |c|]
  }

  /** The successor of `r` in the first cycle holding it; `r` itself when no
      cycle holds it.  Models the early-return loop of `permute`. */
  function Successor(cycles: seq<seq<int>>, r: int): int
    decreases |cycles|, 1
  {
    if |cycles| == 0 then r else SuccessorFrom(cycles, r)
  }

  /** One round of the `permute` loop: look for `r` in the first cycle,
      and go on with the rest when it is not there. */
  function SuccessorFrom(cycles: seq<seq<int>>, r: int): int
    requires |cycles| > 0
    decreases |cycles|, 0
  {
    var index := Seqs.IndexOf(cycles[0], r);
    if index == -1 then Successor(cycles[1..], r) else After(cycles[0], index)
  }

  /** The predecessor of `r` in the first cycle holding it; `r` itself when
      no cycle holds it.  Models the loop of `invert`. */
  function Predecessor(cycles: seq<seq<int>>, r: int): int
    decreases |cycles|, 1
  {
    if |cycles| == 0 then r else PredecessorFrom(cycles, r)
  }

  /** One round of the `invert` loop. */
  function PredecessorFrom(cycles: seq<seq<int>>, r: int): int
    requires |cycles| > 0
    decreases |cycles|, 0
  {
    var index := Seqs.IndexOf(cycles[0], r);
    if index == -1 then Predecessor(cycles[1..], r) else Before(cycles[0], index)
  }

  /** The scan of `permute` returns `r` when no cycle holds it, and the
      successor of `r` in the first cycle that does otherwise. */
  lemma {:induction false} SuccessorFirstHolding(cycles: seq<seq<int>>, r: int)
    ensures (forall k | 0 <= k < |cycles| :: r !in cycles[k]) ==> Successor(cycles, r) == r
    ensures forall k | 0 <= k < |cycles| && r in cycles[k] && (forall j | 0 <= j < k :: r !in cycles[j]) ::
              Successor(cycles, r) == After(cycles[k], Seqs.IndexOf(cycles[k], r))
  {
    if |cycles| > 0 && r !in cycles[0] {
      assert Successor(cycles, r) == Successor(cycles[1..], r);
      SuccessorFirstHolding(cycles[1..], r);
      assert forall k | 1 <= k < |cycles| :: cycles[1..][k - 1] == cycles[k];
    }
  }

  /** The scan of `invert` returns `r` when no cycle holds it, and the
      predecessor of `r` in the first cycle that does otherwise. */
  lemma {:induction false} PredecessorFirstHolding(cycles: seq<seq<int>>, r: int)
    ensures (forall k | 0 <= k < |cycles| :: r !in cycles[k]) ==> Predecessor(cycles, r) == r
    ensures forall k | 0 <= k < |cycles| && r in cycles[k] && (forall j | 0 <= j < k :: r !in cycles[j]) ::
              Predecessor(cycles, r) == Before(cycles[k], Seqs.IndexOf(cycles[k], r))
  {
    if |cycles| > 0 && r !in cycles[0] {
      assert Predecessor(cycles, r) == Predecessor(cycles[1..], r);
      PredecessorFirstHolding(cycles[1..], r);
      assert forall k | 1 <= k < |cycles| :: cycles[1..][k - 1] == cycles[k];
    }
  }

  /** When every cycle entry lies in [0, n), so do the results of both
      scans for an r in [0, n). */
  lemma {:induction false} ScansStayInRange(cycles: seq<seq<int>>, r: int, n: int)
    requires 0 <= r < n
    ensures (forall k, i | 0 <= k < |cycles| && 0 <= i < |cycles[k]| :: 0 <= cycles[k][i] < n) ==>
              0 <= Successor(cycles, r) < n && 0 <= Predecessor(cycles, r) < n
    decreases |cycles|
  {
    if |cycles| > 0 {
      assert forall k | 1 <= k < |cycles| :: cycles[1..][k - 1] == cycles[k];
      ScansStayInRange(cycles[1..], r, n);
    }
  }

  /** In disjoint cycles, the entry at position i of cycle k steps to the next
      and to the previous position of the same cycle. */
  lemma {:induction false} StepsWithinCycle(cycles: seq<seq<int>>, k: int, i: int)
    requires Disjoint(cycles)
    requires 0 <= k < |cycles| && 0 <= i < |cycles[k]|
    ensures Successor(cycles, cycles[k][i]) == After(cycles[k], i)
    ensures Predecessor(cycles, cycles[k][i]) == Before(cycles[k], i)
  {
    var x := cycles[k][i];
    SuccessorFirstHolding(cycles, x);
    PredecessorFirstHolding(cycles, x);
    assert Seqs.Distinct(cycles[k]);
    Seqs.IndexOfDistinct(cycles[k], i);
    forall j | 0 <= j < k ensures x !in cycles[j] {
    }
    assert x in cycles[k];
  }

  lemma {:induction false} NextThenPrevious(i: int, n: int)
    requires 0 <= i < n
    ensures ((i + 1) % n - 1 + n) % n == i
    ensures ((i - 1 + n) % n + 1) % n == i
  {
    if i + 1 < n {
      ModUnique(i + 1, 0, i + 1, n);
      ModUnique(i + n, 1, i, n);
    } else {
      ModUnique(i + 1, 1, 0, n);
      ModUnique(n - 1, 0, n - 1, n);
    }
    if i == 0 {
      ModUnique(n - 1, 0, n - 1, n);
      ModUnique(n, 1, 0, n);
    } else {
      ModUnique(i - 1 + n, 1, i - 1, n);
      ModUnique(i, 0, i, n);
    }
  }

  // ---------------------------------------------------------------------
  // The permutation
  // ---------------------------------------------------------------------

  /** An alphabet and the cycles over its indices. */
  datatype Permutation = Permutation(alphabet: Alphabet, cycles: seq<seq<int>>) {

    /** The size of the alphabet permuted. */
    function Size(): (n: nat)
      ensures n == alphabet.Size()
    {
      alphabet.Size()
    }

    /** Every cycle entry is an index of the alphabet; the constructor
        establishes this, because entries come from toInt. */
    predicate Valid() {
      forall k, i | 0 <= k < |cycles| && 0 <= i < |cycles[k]| :: 0 <= cycles[k][i] < Size()
    }

    /** `p` modulo the size: Java's remainder, corrected by one size when it
        is negative.  Undefined for the empty alphabet, where Java divides
        by zero. */
    function Wrap(p: int): (r: int)
      requires Size() > 0
      ensures 0 <= r < Size()
    {
      var n := Size();
      var r := TruncRem(p, n);
      if r < 0 then r + n else r
    }

    /** The image of `p` after wrapping it. */
    function Permute(p: int): (v: int)
      requires Size() > 0
      ensures Valid() ==> 0 <= v < Size()
    {
      ScansStayInRange(cycles, Wrap(p), Size());
      Successor(cycles, Wrap(p))
    }

    /** The preimage of `c` after wrapping it. */
    function Invert(c: int): (v: int)
      requires Size() > 0
      ensures Valid() ==> 0 <= v < Size()
    {
      ScansStayInRange(cycles, Wrap(c), Size());
      Predecessor(cycles, Wrap(c))
    }

    /** The character overload of permute: through toInt, permute, toChar. */
    function PermuteChar(ch: char): (r: Result<char>)
      requires Valid()
      ensures r.Ok? <==> alphabet.Contains(ch)
      ensures r.Ok? ==> alphabet.Contains(r.value)
      ensures r.Err? ==> r.error == UnknownChar(ch)
    {
      match alphabet.ToInt(ch)
      case Err(e) => Err(e)
      case Ok(index) => Ok(alphabet.ToChar(Permute(index)))
    }

    /** The character overload of invert. */
    function InvertChar(ch: char): (r: Result<char>)
      requires Valid()
      ensures r.Ok? <==> alphabet.Contains(ch)
      ensures r.Ok? ==> alphabet.Contains(r.value)
      ensures r.Err? ==> r.error == UnknownChar(ch)
    {
      match alphabet.ToInt(ch)
      case Err(e) => Err(e)
      case Ok(index) => Ok(alphabet.ToChar(Invert(index)))
    }

    /** Every cycle has at most two entries, so the permutation is its own
        inverse (a reflector's or a plugboard's wiring). */
    predicate Involutive() {
      forall k | 0 <= k < |cycles| :: |cycles[k]| <= 2
    }

    /** derangement() as the source writes it: an accumulator that is never
        updated, compared with the size. */
    function DerangementAsWritten(): (b: bool)
      ensures b <==> Size() == 0
    {
      var cycleSum := 0;
      cycleSum == Size()
    }

    /** derangement() as its accumulator's name suggests it was meant: the
        entries of the cycles that move something add up to the size. */
    function Derangement(): bool {
      CycleSum(cycles) == Size()
    }
  }

  /** wrap(p) is p modulo the size, the remainder that is never negative,
      although Java's own remainder takes the sign of p. */
  lemma {:induction false} WrapIsModulo(p: Permutation, x: int)
    requires p.Size() > 0
    ensures p.Wrap(x) == x % p.Size()
  {
    TruncRemCorrected(x, p.Size());
  }

  /** permute(p) is the entry after wrap(p) in the first cycle holding it,
      and wrap(p) itself when no cycle holds it. */
  lemma {:induction false} PermuteScansCycles(p: Permutation, x: int)
    requires p.Size() > 0
    ensures var r := p.Wrap(x);
            (forall k | 0 <= k < |p.cycles| :: r !in p.cycles[k]) ==> p.Permute(x) == r
    ensures var r := p.Wrap(x);
            forall k | 0 <= k < |p.cycles| && r in p.cycles[k] && (forall j | 0 <= j < k :: r !in p.cycles[j]) ::
              p.Permute(x) == After(p.cycles[k], Seqs.IndexOf(p.cycles[k], r))
  {
    var r := p.Wrap(x);
    assert p.Permute(x) == Successor(p.cycles, r);
    SuccessorFirstHolding(p.cycles, r);
  }

  /** invert(c) is the entry before wrap(c) in the first cycle holding it,
      and wrap(c) itself when no cycle holds it. */
  lemma {:induction false} InvertScansCycles(p: Permutation, x: int)
    requires p.Size() > 0
    ensures var r := p.Wrap(x);
            (forall k | 0 <= k < |p.cycles| :: r !in p.cycles[k]) ==> p.Invert(x) == r
    ensures var r := p.Wrap(x);
            forall k | 0 <= k < |p.cycles| && r in p.cycles[k] && (forall j | 0 <= j < k :: r !in p.cycles[j]) ::
              p.Invert(x) == Before(p.cycles[k], Seqs.IndexOf(p.cycles[k], r))
  {
    var r := p.Wrap(x);
    assert p.Invert(x) == Predecessor(p.cycles, r);
    PredecessorFirstHolding(p.cycles, r);
  }

  lemma {:induction false} WrapInRange(p: Permutation, x: int)
    requires 0 <= x < p.Size()
    ensures p.Wrap(x) == x
  {
    WrapIsModulo(p, x);
    ModUnique(x, 0, x, p.Size());
  }

  /** In disjoint cycles the two scans undo each other. */
  lemma {:induction false} ScanRoundTrip(cycles: seq<seq<int>>, r: int)
    requires Disjoint(cycles)
    ensures Predecessor(cycles, Successor(cycles, r)) == r
    ensures Successor(cycles, Predecessor(cycles, r)) == r
  {
    if exists k, i | 0 <= k < |cycles| && 0 <= i < |cycles[k]| :: cycles[k][i] == r {
      var k, i :| 0 <= k < |cycles| && 0 <= i < |cycles[k]| && cycles[k][i] == r;
      InCycleRoundTrip(cycles, k, i);
    } else {
      assert forall k | 0 <= k < |cycles| :: r !in cycles[k];
      SuccessorFirstHolding(cycles, r);
      PredecessorFirstHolding(cycles, r);
    }
  }

  lemma {:induction false} InCycleRoundTrip(cycles: seq<seq<int>>, k: int, i: int)
    requires Disjoint(cycles)
    requires 0 <= k < |cycles| && 0 <= i < |cycles[k]|
    ensures Predecessor(cycles, Successor(cycles, cycles[k][i])) == cycles[k][i]
    ensures Successor(cycles, Predecessor(cycles, cycles[k][i])) == cycles[k][i]
  {
    var c := cycles[k];
    var n := |c|;
    NextThenPrevious(i, n);
    var next := (i + 1) % n;
    var prev := (i - 1 + n) % n;
    StepsWithinCycle(cycles, k, i);
    assert Successor(cycles, c[i]) == c[next];
    assert Predecessor(cycles, c[i]) == c[prev];
    StepsWithinCycle(cycles, k, next);
    assert Predecessor(cycles, c[next]) == c[(next - 1 + n) % n] == c[i];
    StepsWithinCycle(cycles, k, prev);
    assert Successor(cycles, c[prev]) == c[(prev + 1) % n] == c[i];
  }

  /** invert undoes permute on wrapped indices, when the cycles are
      disjoint. */
  lemma {:induction false} InvertUndoesPermute(p: Permutation, x: int)
    requires p.Size() > 0 && p.Valid() && Disjoint(p.cycles)
    ensures p.Invert(p.Permute(x)) == p.Wrap(x)
  {
    var v := p.Permute(x);
    assert p.Wrap(v) == v by { WrapInRange(p, v); }
    ScanRoundTrip(p.cycles, p.Wrap(x));
  }

  /** permute undoes invert on wrapped indices, when the cycles are
      disjoint. */
  lemma {:induction false} PermuteUndoesInvert(p: Permutation, x: int)
    requires p.Size() > 0 && p.Valid() && Disjoint(p.cycles)
    ensures p.Permute(p.Invert(x)) == p.Wrap(x)
  {
    var v := p.Invert(x);
    assert p.Wrap(v) == v by { WrapInRange(p, v); }
    ScanRoundTrip(p.cycles, p.Wrap(x));
  }

  /** In a cycle of at most two entries, the next entry is the previous
      one. */
  lemma {:induction false} AfterIsBeforeInShortCycle(c: seq<int>, i: int)
    requires |c| <= 2 && 0 <= i < |c|
    ensures After(c, i) == Before(c, i)
  {
    if |c| == 1 {
      ModUnique(i + 1, 1, 0, 1);
      ModUnique(i, 0, 0, 1);
    } else if i == 0 {
      ModUnique(1, 0, 1, 2);
    } else {
      ModUnique(2, 1, 0, 2);
    }
  }

  /** A permutation whose cycles have at most two entries undoes itself, and
      its inverse is itself. */
  lemma {:induction false} InvolutionUndoesItself(p: Permutation, x: int)
    requires p.Size() > 0 && p.Valid() && Disjoint(p.cycles) && p.Involutive()
    ensures p.Invert(x) == p.Permute(x)
    ensures p.Permute(p.Permute(x)) == p.Wrap(x)
  {
    var r := p.Wrap(x);
    var cs := p.cycles;
    if exists k, i | 0 <= k < |cs| && 0 <= i < |cs[k]| :: cs[k][i] == r {
      var k, i :| 0 <= k < |cs| && 0 <= i < |cs[k]| && cs[k][i] == r;
      StepsWithinCycle(cs, k, i);
      AfterIsBeforeInShortCycle(cs[k], i);
    } else {
      assert forall k | 0 <= k < |cs| :: r !in cs[k];
      SuccessorFirstHolding(cs, r);
      PredecessorFirstHolding(cs, r);
    }
    assert p.Invert(x) == p.Permute(x);
    PermuteUndoesInvert(p, x);
  }

  /** The character overloads are inverse to each other on the alphabet,
      provided no character is repeated. */
  lemma {:induction false} CharRoundTrip(p: Permutation, ch: char)
    requires p.Valid() && Disjoint(p.cycles) && p.alphabet.NoDuplicates()
    requires p.alphabet.Contains(ch)
    ensures p.InvertChar(p.PermuteChar(ch).value) == Ok(ch)
    ensures p.PermuteChar(p.InvertChar(ch).value) == Ok(ch)
  {
    var a := p.alphabet;
    var i := a.ToInt(ch).value;
    InvertUndoesPermute(p, i);
    PermuteUndoesInvert(p, i);
    WrapInRange(p, i);
    ToIntOfToChar(a, p.Permute(i));
    ToIntOfToChar(a, p.Invert(i));
  }

  /** Repeating an entry inside one cycle breaks the round trip: with the
      cycle (ABA), invert(A) is A but permute(A) is B. */
  lemma {:induction false} RepeatedEntryBreaksRoundTrip()
    ensures var p := Permutation(Alphabet("AB"), [[0, 1, 0]]);
            p.Permute(p.Invert(0)) == 1
  {
    var p := Permutation(Alphabet("AB"), [[0, 1, 0]]);
    WrapInRange(p, 0);
    assert p.cycles[0][0] == 0;
    ModUnique(-1 + 3, 0, 2, 3);
    ModUnique(0 + 1, 0, 1, 3);
  }

  // ---------------------------------------------------------------------
  // derangement(): the source's version and the intended one
  // ---------------------------------------------------------------------

  /** How many indices a cycle moves: all of its entries when it has more
      than one, none when it is a single fixed point or empty. */
  function MovedBy(c: seq<int>): nat {
    if |c| > 1 then |c| else 0
  }

  /** Total number of entries in cycles that move something. */
  function CycleSum(cycles: seq<seq<int>>): nat {
    if |cycles| == 0 then 0
    else CycleSum(cycles[..|cycles| - 1]) + MovedBy(cycles[|cycles| - 1])
  }

  /** The entries of one cycle. */
  ghost function Entries(c: seq<int>): set<int> {
    set i | 0 <= i < |c| :: c[i]
  }

  /** The indices that lie in a cycle of length at least two. */
  ghost function Moved(cycles: seq<seq<int>>): (m: set<int>)
    ensures forall x :: x in m <==>
      exists k, i | 0 <= k < |cycles| && 0 <= i < |cycles[k]| :: |cycles[k]| > 1 && cycles[k][i] == x
  {
    if |cycles| == 0 then {}
    else
      var init := cycles[..|cycles| - 1];
      var last := cycles[|cycles| - 1];
      assert forall k | 0 <= k < |init| :: init[k] == cycles[k];
      Moved(init) + (if |last| > 1 then Entries(last) else {})
  }

  /** A cycle without repeated entries has as many entries as elements. */
  lemma {:induction false} EntriesCard(c: seq<int>)
    requires Seqs.Distinct(c)
    ensures |Entries(c)| == |c|
  {
    assert Entries(c) == set x | x in c;
    Seqs.DistinctCard(c);
  }

  lemma {:induction false} DisjointPrefix(cycles: seq<seq<int>>)
    requires Disjoint(cycles) && |cycles| > 0
    ensures Disjoint(cycles[..|cycles| - 1])
    ensures Seqs.Distinct(cycles[|cycles| - 1])
    ensures Moved(cycles[..|cycles| - 1]) * Entries(cycles[|cycles| - 1]) == {}
  {
    var n := |cycles|;
    var init := cycles[..n - 1];
    assert forall k | 0 <= k < n - 1 :: init[k] == cycles[k];
    forall x | x in Moved(init) ensures x !in Entries(cycles[n - 1]) {
      var k, i :| 0 <= k < n - 1 && 0 <= i < |init[k]| && |init[k]| > 1 && init[k][i] == x;
      assert cycles[k][i] == x;
    }
  }

  lemma {:induction false} MovedCard(cycles: seq<seq<int>>)
    requires Disjoint(cycles)
    ensures |Moved(cycles)| == CycleSum(cycles)
  {
    if |cycles| > 0 {
      var n := |cycles|;
      var init := cycles[..n - 1];
      var last := cycles[n - 1];
      DisjointPrefix(cycles);
      MovedCard(init);
      if |last| > 1 {
        EntriesCard(last);
      }
    }
  }

  /** The indices of an alphabet of size n. */
  ghost function Indices(n: nat): (r: set<int>)
    ensures forall x :: x in r <==> 0 <= x < n
  {
    if n == 0 then {} else Indices(n - 1) + {n - 1}
  }

  lemma {:induction false} IndicesCard(n: nat)
    ensures |Indices(n)| == n
  {
    if n > 0 {
      IndicesCard(n - 1);
    }
  }

  /** In a cycle of two or more entries, the next entry differs from the
      current one.  */
  lemma {:induction false} AfterMoves(cycles: seq<seq<int>>, k: int, i: int)
    requires Disjoint(cycles) && 0 <= k < |cycles| && 0 <= i < |cycles[k]| && |cycles[k]| > 1
    ensures After(cycles[k], i) != cycles[k][i]
  {
    var n := |cycles[k]|;
    if i + 1 < n {
      ModUnique(i + 1, 0, i + 1, n);
    } else {
      ModUnique(i + 1, 1, 0, n);
    }
    assert (i + 1) % n != i;
  }

  /** An index is a fixed point exactly when it lies in no cycle of length
      at least two. */
  lemma {:induction false} FixedPointIffUnmoved(p: Permutation, x: int)
    requires p.Valid() && Disjoint(p.cycles) && 0 <= x < p.Size()
    ensures p.Permute(x) != x <==> x in Moved(p.cycles)
  {
    var cs := p.cycles;
    WrapInRange(p, x);
    if exists k, i | 0 <= k < |cs| && 0 <= i < |cs[k]| :: cs[k][i] == x {
      var k, i :| 0 <= k < |cs| && 0 <= i < |cs[k]| && cs[k][i] == x;
      StepsWithinCycle(cs, k, i);
      assert p.Permute(x) == After(cs[k], i);
      if |cs[k]| > 1 {
        AfterMoves(cs, k, i);
      } else {
        ModUnique(i + 1, 1, 0, 1);
        assert x !in Moved(cs);
      }
    } else {
      assert forall k | 0 <= k < |cs| :: x !in cs[k];
      SuccessorFirstHolding(cs, x);
      assert x !in Moved(cs);
    }
  }

  lemma {:induction false} SubsetOfSameSize(a: set<int>, b: set<int>)
    requires a <= b && |a| == |b|
    ensures a == b
  {
    assert b == a + (b - a);
    assert |b| == |a| + |b - a|;
    assert b - a == {};
  }

  lemma {:induction false} MovedAreIndices(p: Permutation)
    requires p.Valid()
    ensures Moved(p.cycles) <= Indices(p.Size())
  {
    forall x | x in Moved(p.cycles) ensures x in Indices(p.Size()) {
      var k, i :| 0 <= k < |p.cycles| && 0 <= i < |p.cycles[k]| && |p.cycles[k]| > 1 && p.cycles[k][i] == x;
    }
  }

  /** The intended derangement() holds exactly when no index maps to
      itself, as the source's doc comment promises. */
  lemma {:induction false} DerangementMeansNoFixedPoint(p: Permutation)
    requires p.Valid() && Disjoint(p.cycles)
    ensures p.Derangement() <==> forall x | 0 <= x < p.Size() :: p.Permute(x) != x
  {
    var moved := Moved(p.cycles);
    var range := Indices(p.Size());
    MovedAreIndices(p);
    IndicesCard(p.Size());
    MovedCard(p.cycles);
    if p.Derangement() {
      SubsetOfSameSize(moved, range);
      forall x | 0 <= x < p.Size() ensures p.Permute(x) != x {
        assert x in range;
        FixedPointIffUnmoved(p, x);
      }
    } else {
      assert moved != range;
      var x :| x in range && x !in moved;
      FixedPointIffUnmoved(p, x);
    }
  }

  /** The source's derangement() rejects the swap (AB) of a two-letter
      alphabet, which moves every index. */
  lemma {:induction false} DerangementAsWrittenRejectsSwap()
    ensures var p := Permutation(Alphabet("AB"), [[0, 1]]);
            p.Permute(0) == 1 && p.Permute(1) == 0 && !p.DerangementAsWritten() && p.Derangement()
  {
    var p := Permutation(Alphabet("AB"), [[0, 1]]);
    WrapInRange(p, 0);
    WrapInRange(p, 1);
    StepsWithinCycle(p.cycles, 0, 0);
    StepsWithinCycle(p.cycles, 0, 1);
    ModUnique(1, 0, 1, 2);
    ModUnique(2, 1, 0, 2);
    assert p.cycles[..0] == [];
  }

  // ---------------------------------------------------------------------
  // Parsing cycle notation
  // ---------------------------------------------------------------------

  /** Every '(' has a ')' somewhere after it.  This is exactly when the
      source's scan finds the end of every group it opens (a '(' inside a
      group has the group's own ')' after it); otherwise the scan fails with
      an index error or never stops, neither of which is modelled. */
  predicate Balanced(s: string) {
    forall i | 0 <= i < |s| && s[i] == '(' :: exists j | i < j < |s| :: s[j] == ')'
  }

  /** The groups the scan cuts out of `s` from position i on: from each '('
      reached outside a group up to the next ')', both included; every
      other character is skipped.  A '(' with no ')' after it ends the list
      here; the source fails there instead, which Balanced rules out. */
  function GroupsFrom(s: string, i: int): seq<string>
    requires 0 <= i <= |s|
    decreases |s| - i
  {
    if i == |s| then []
    else if s[i] == '(' then
      var right := Seqs.IndexOfFrom(s, ')', i);
      if right == -1 then [] else [s[i..right + 1]] + GroupsFrom(s, right + 1)
    else
      GroupsFrom(s, i + 1)
  }

  /** A group as the scan cuts it out: '(' first, ')' last and no other ')'
      in between. */
  predicate IsGroup(g: string) {
    |g| >= 2 && g[0] == '(' && g[|g| - 1] == ')' && ')' !in Inner(g)
  }

  /** The groups of the whole string. */
  function Groups(s: string): (gs: seq<string>)
    ensures forall k | 0 <= k < |gs| :: IsGroup(gs[k])
  {
    GroupsShape(s, 0);
    GroupsFrom(s, 0)
  }

  /** A group without its parentheses. */
  function Inner(g: string): string
    requires |g| >= 2
  {
    g[1..|g| - 1]
  }

  /** What the scan cuts out at a '(' is a group. */
  lemma {:induction false} OneGroup(s: string, i: int)
    requires 0 <= i < |s| && s[i] == '(' && Seqs.IndexOfFrom(s, ')', i) != -1
    ensures IsGroup(s[i..Seqs.IndexOfFrom(s, ')', i) + 1])
  {
    var right := Seqs.IndexOfFrom(s, ')', i);
    var g := s[i..right + 1];
    Seqs.IndexOfFromFirst(s, ')', i);
    assert Inner(g) == s[i + 1..right] by {
      forall j | 0 <= j < right - i - 1 ensures Inner(g)[j] == s[i + 1..right][j] {
        assert Inner(g)[j] == g[j + 1] == s[i + 1 + j];
      }
    }
  }

  /** Everything the scan cuts out from position i on is a group. */
  lemma {:induction false} GroupsShape(s: string, i: int)
    requires 0 <= i <= |s|
    ensures forall k | 0 <= k < |GroupsFrom(s, i)| :: IsGroup(GroupsFrom(s, i)[k])
    decreases |s| - i
  {
    if i < |s| {
      var right := Seqs.IndexOfFrom(s, ')', i);
      if s[i] == '(' && right != -1 {
        OneGroup(s, i);
        GroupsShape(s, right + 1);
        var gs, rest := GroupsFrom(s, i), GroupsFrom(s, right + 1);
        assert gs == [s[i..right + 1]] + rest;
        forall k | 0 <= k < |gs| ensures IsGroup(gs[k]) {
          if k > 0 {
            assert gs[k] == rest[k - 1];
          }
        }
      } else if s[i] != '(' {
        GroupsShape(s, i + 1);
      }
    }
  }

  /** One step of the scan over `junk + s` at a position inside `s` reads
      the same characters as the scan over `s` alone. */
  lemma {:induction false} GroupsShiftStep(junk: string, s: string, i: int)
    requires 0 <= i < |s|
    ensures var t, right := junk + s, Seqs.IndexOfFrom(s, ')', i);
      GroupsFrom(t, |junk| + i) ==
        if s[i] != '(' then GroupsFrom(t, |junk| + (i + 1))
        else if right == -1 then []
        else [s[i..right + 1]] + GroupsFrom(t, |junk| + (right + 1))
  {
    var t := junk + s;
    assert t[|junk| + i] == s[i];
    var right := Seqs.IndexOfFrom(s, ')', i);
    Seqs.IndexOfFromAfterPrefix(junk, s, ')', i);
    if s[i] == '(' && right != -1 {
      Seqs.SliceAfterPrefix(junk, s, i, right + 1);
    }
  }

  /** Putting characters in front of a string shifts where its groups are
      found and changes nothing else. */
  lemma {:induction false} GroupsShift(junk: string, s: string, i: int)
    requires 0 <= i <= |s|
    ensures GroupsFrom(junk + s, |junk| + i) == GroupsFrom(s, i)
    decreases |s| - i
  {
    var t := junk + s;
    if i == |s| {
      assert |junk| + i == |t|;
    } else {
      GroupsShiftStep(junk, s, i);
      var right := Seqs.IndexOfFrom(s, ')', i);
      if s[i] != '(' {
        GroupsShift(junk, s, i + 1);
        assert GroupsFrom(t, |junk| + i) == GroupsFrom(t, |junk| + (i + 1));
      } else if right != -1 {
        GroupsShift(junk, s, right + 1);
        assert GroupsFrom(s, i) == [s[i..right + 1]] + GroupsFrom(s, right + 1);
      }
    }
  }

  /** Characters outside parentheses in front of the groups are skipped. */
  lemma {:induction false} GroupsSkipOutside(junk: string, s: string)
    requires '(' !in junk
    ensures Groups(junk + s) == Groups(s)
  {
    SkipFrom(junk, s, 0);
    GroupsShift(junk, s, 0);
  }

  /** The scan passes over the characters of `junk` one by one. */
  lemma {:induction false} SkipFrom(junk: string, s: string, k: int)
    requires '(' !in junk && 0 <= k <= |junk|
    ensures GroupsFrom(junk + s, k) == GroupsFrom(junk + s, |junk|)
    decreases |junk| - k
  {
    if k < |junk| {
      assert (junk + s)[k] == junk[k];
      SkipFrom(junk, s, k + 1);
    }
  }

  /** A parenthesised group in front becomes the first group. */
  lemma {:induction false} GroupsCons(c: string, s: string)
    requires ')' !in c
    ensures Groups("(" + c + ")" + s) == ["(" + c + ")"] + Groups(s)
  {
    var g := "(" + c + ")";
    var t := g + s;
    assert Seqs.IndexOfFrom(t, ')', 0) == |c| + 1 by {
      forall j | 0 <= j < |c| + 1 ensures t[j] != ')' {
        if j > 0 { assert t[j] == c[j - 1]; }
      }
      assert t[|c| + 1] == ')';
      Seqs.IndexOfFromFirst(t, ')', 0);
    }
    assert t[0..|c| + 2] == g;
    GroupsShift(g, s, 0);
  }

  /** Characters that are not in `junk` once the trailing `junk` is cut off
      from position i on: a string's groups do not depend on trailing
      characters that are neither '(' nor ')'. */
  lemma {:induction false} GroupsDropTrailing(s: string, junk: string, i: int)
    requires '(' !in junk && ')' !in junk && 0 <= i <= |s|
    ensures GroupsFrom(s + junk, i) == GroupsFrom(s, i)
    decreases |s + junk| - i
  {
    var t := s + junk;
    if i == |s| {
      SkipTrailing(s, junk, i);
    } else {
      assert t[i] == s[i];
      var right := Seqs.IndexOfFrom(s, ')', i);
      Seqs.IndexOfFromBeforeSuffix(s, junk, ')', i);
      if s[i] == '(' && right != -1 {
        assert t[i..right + 1] == s[i..right + 1];
        GroupsDropTrailing(s, junk, right + 1);
        assert GroupsFrom(t, i) == [s[i..right + 1]] + GroupsFrom(t, right + 1);
      } else if s[i] != '(' {
        GroupsDropTrailing(s, junk, i + 1);
        assert GroupsFrom(t, i) == GroupsFrom(t, i + 1);
      }
    }
  }

  /** Past the end of `s`, the scan of s + junk finds no group. */
  lemma {:induction false} SkipTrailing(s: string, junk: string, i: int)
    requires '(' !in junk && |s| <= i <= |s + junk|
    ensures GroupsFrom(s + junk, i) == []
    decreases |s + junk| - i
  {
    if i < |s + junk| {
      assert (s + junk)[i] == junk[i - |s|];
      SkipTrailing(s, junk, i + 1);
    }
  }

  /** Whether Java's String.trim removes `c`: every character up to and
      including the space. */
  predicate Blank(c: char) {
    c <= ' '
  }

  /** Java's String.trim: without the leading and trailing characters up to
      and including the space. */
  function Trim(s: string): string {
    var a := SkipBlanks(s, 0);
    s[a..TrimmedEnd(s, a, |s|)]
  }

  /** The first position at or after i that holds no blank. */
  function SkipBlanks(s: string, i: int): (k: int)
    requires 0 <= i <= |s|
    ensures i <= k <= |s|
    decreases |s| - i
  {
    if i == |s| || !Blank(s[i]) then i else SkipBlanks(s, i + 1)
  }

  /** The end of s[a..j] once its trailing blanks are cut off. */
  function TrimmedEnd(s: string, a: int, j: int): (k: int)
    requires 0 <= a <= j <= |s|
    ensures a <= k <= j
    decreases j
  {
    if j == a || !Blank(s[j - 1]) then j else TrimmedEnd(s, a, j - 1)
  }

  /** SkipBlanks passes over blanks only. */
  lemma {:induction false} SkippedAreBlank(s: string, i: int)
    requires 0 <= i <= |s|
    ensures forall j | i <= j < SkipBlanks(s, i) :: Blank(s[j])
    decreases |s| - i
  {
    if i < |s| && Blank(s[i]) {
      SkippedAreBlank(s, i + 1);
    }
  }

  /** TrimmedEnd cuts off blanks only. */
  lemma {:induction false} CutAreBlank(s: string, a: int, j: int)
    requires 0 <= a <= j <= |s|
    ensures forall m | TrimmedEnd(s, a, j) <= m < j :: Blank(s[m])
    decreases j
  {
    if j > a && Blank(s[j - 1]) {
      CutAreBlank(s, a, j - 1);
    }
  }

  /** Trimming does not change the groups of a string. */
  lemma {:induction false} TrimKeepsGroups(s: string)
    ensures Groups(Trim(s)) == Groups(s)
  {
    var a := SkipBlanks(s, 0);
    var b := TrimmedEnd(s, a, |s|);
    SkippedAreBlank(s, 0);
    CutAreBlank(s, a, |s|);
    var front, t, back := s[..a], s[a..b], s[b..];
    assert s == front + (t + back);
    forall j | 0 <= j < |front| ensures front[j] != '(' {
      assert Blank(s[j]);
    }
    forall j | 0 <= j < |back| ensures back[j] != '(' && back[j] != ')' {
      assert Blank(s[b + j]);
    }
    GroupsSkipOutside(front, t + back);
    GroupsDropTrailing(t, back, 0);
  }

  /** A balanced string stays balanced when trimmed: a ')' is not blank. */
  lemma {:induction false} TrimKeepsBalanced(s: string)
    requires Balanced(s)
    ensures Balanced(Trim(s))
  {
    var a := SkipBlanks(s, 0);
    var b := TrimmedEnd(s, a, |s|);
    CutAreBlank(s, a, |s|);
    var t := s[a..b];
    forall i | 0 <= i < |t| && t[i] == '(' ensures exists j | i < j < |t| :: t[j] == ')' {
      assert s[a + i] == '(';
      var j :| a + i < j < |s| && s[j] == ')';
      assert !Blank(s[j]);
      assert t[j - a] == ')';
    }
  }

  /** The source's parseCycles: scans `s` with a manually advanced index,
      cutting out each group. */
  method ParseCycles(cycles: string) returns (groups: seq<string>)
    requires Balanced(cycles)
    ensures groups == Groups(cycles)
  {
    var s := Trim(cycles);
    TrimKeepsGroups(cycles);
    TrimKeepsBalanced(cycles);
    groups := [];
    var i := 0;
    while i < |s|
      invariant 0 <= i <= |s|
      invariant groups + GroupsFrom(s, i) == GroupsFrom(s, 0)
    {
      if s[i] == '(' {
        var right := Seqs.IndexOfFrom(s, ')', i);
        GroupAt(s, i);
        groups := groups + [s[i..right + 1]];
        i := right + 1;
      } else {
        i := i + 1;
      }
    }
  }

  /** In a balanced string every '(' the scan reaches has a ')' after it, so
      it cuts out one group there and carries on past the ')'. */
  lemma {:induction false} GroupAt(s: string, i: int)
    requires Balanced(s) && 0 <= i < |s| && s[i] == '('
    ensures var right := Seqs.IndexOfFrom(s, ')', i);
      i < right < |s| && GroupsFrom(s, i) == [s[i..right + 1]] + GroupsFrom(s, right + 1)
  {
    Seqs.IndexOfFromFirst(s, ')', i);
    var j :| i < j < |s| && s[j] == ')';
  }

  /** The source's addCycle: appends the indices of the characters of
      `cycle`, in order, to `cycles`; fails at the first character that is
      not in the alphabet. */
  method AddCycle(alphabet: Alphabet, cycles: seq<seq<int>>, cycle: string) returns (r: Result<seq<seq<int>>>)
    ensures r.Ok? <==> forall i | 0 <= i < |cycle| :: alphabet.Contains(cycle[i])
    ensures r.Ok? ==> |r.value| == |cycles| + 1 && r.value[..|cycles|] == cycles
    ensures r.Ok? ==> var c := r.value[|cycles|];
              |c| == |cycle| && forall i | 0 <= i < |cycle| :: alphabet.ToInt(cycle[i]) == Ok(c[i])
    ensures r.Err? ==> r.error == UnknownChar(cycle[alphabet.FirstAbsent(cycle)])
  {
    var cycleList: seq<int> := [];
    var i := 0;
    while i < |cycle|
      invariant 0 <= i <= |cycle|
      invariant |cycleList| == i
      invariant forall m | 0 <= m < i :: alphabet.ToInt(cycle[m]) == Ok(cycleList[m])
    {
      var index := alphabet.ToInt(cycle[i]);
      if index.Err? {
        assert alphabet.FirstAbsent(cycle) == i;
        return Err(index.error);
      }
      cycleList := cycleList + [index.value];
      i := i + 1;
    }
    r := Ok(cycles + [cycleList]);
  }

  /** Every character of the first `k` groups is in the alphabet. */
  predicate GroupsKnown(alphabet: Alphabet, gs: seq<string>, k: int)
    requires 0 <= k <= |gs| && forall j | 0 <= j < |gs| :: |gs[j]| >= 2
  {
    forall j, i | 0 <= j < k && 0 <= i < |Inner(gs[j])| :: alphabet.Contains(Inner(gs[j])[i])
  }

  /** The source's constructor: parses `cycles` and adds one cycle per
      group. */
  method NewPermutation(cycles: string, alphabet: Alphabet) returns (r: Result<Permutation>)
    requires Balanced(cycles)
    ensures var gs := Groups(cycles);
              r.Ok? <==> forall k, i | 0 <= k < |gs| && 0 <= i < |Inner(gs[k])| :: alphabet.Contains(Inner(gs[k])[i])
    ensures r.Ok? ==> var gs := Groups(cycles);
              r.value.alphabet == alphabet && r.value.Valid() && |r.value.cycles| == |gs| &&
              forall k | 0 <= k < |gs| ::
                |r.value.cycles[k]| == |Inner(gs[k])| &&
                forall i | 0 <= i < |Inner(gs[k])| :: alphabet.ToInt(Inner(gs[k])[i]) == Ok(r.value.cycles[k][i])
    ensures r.Err? ==> r.error.UnknownChar? && !alphabet.Contains(r.error.ch)
    ensures r.Err? ==> var gs := Groups(cycles);
              exists k | 0 <= k < |gs| ::
                GroupsKnown(alphabet, gs, k) && alphabet.FirstAbsent(Inner(gs[k])) < |Inner(gs[k])| &&
                r.error == UnknownChar(Inner(gs[k])[alphabet.FirstAbsent(Inner(gs[k]))])
  {
    var groups := ParseCycles(cycles);
    var cs: seq<seq<int>> := [];
    var k := 0;
    while k < |groups|
      invariant 0 <= k <= |groups|
      invariant |cs| == k
      invariant GroupsKnown(alphabet, groups, k)
      invariant forall j | 0 <= j < k ::
                  |cs[j]| == |Inner(groups[j])| &&
                  forall i | 0 <= i < |Inner(groups[j])| :: alphabet.ToInt(Inner(groups[j])[i]) == Ok(cs[j][i])
    {
      // Each group starts with '(', so the source's skip of blank groups
      // never fires.
      var added := AddCycle(alphabet, cs, Inner(groups[k]));
      if added.Err? {
        assert alphabet.FirstAbsent(Inner(groups[k])) < |Inner(groups[k])|;
        return Err(added.error);
      }
      cs := added.value;
      k := k + 1;
    }
    r := Ok(Permutation(alphabet, cs));
  }
}

