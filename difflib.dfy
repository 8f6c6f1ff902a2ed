/** The similarity measure behind `difflib.SequenceMatcher(None, a, b).ratio()`: the
    Ratcliff/Obershelp matching. Take the longest block common to `a` and `b` (ties go to
    the block starting earliest in `a`, then earliest in `b`), recurse on the parts to its
    left and to its right, and score `2 * M / T`, where `M` is the total size of the blocks
    found and `T` is `|a| + |b|`. */
module Difflib {

  /** `a[i..i + size] == b[j..j + size]`, as `find_longest_match` reports it. */
  datatype Block = Block(i: nat, j: nat, size: nat)

  /** `a[i..i + k]` and `b[j..j + k]` exist and are equal, element by element. */
  predicate IsBlock(a: string, b: string, i: nat, j: nat, k: nat) {
    i + k <= |a| && j + k <= |b| && forall p :: i <= p < i + k ==> a[p] == b[p - i + j]
  }

  /** The block `a[i..i + k]`, `b[j..j + k]` lies inside the window `a[alo..ahi]`, `b[blo..bhi]`. */
  predicate Inside(alo: nat, ahi: nat, blo: nat, bhi: nat, i: nat, j: nat, k: nat) {
    alo <= i && i + k <= ahi && blo <= j && j + k <= bhi
  }

  /** `(i, j)` comes strictly before `(i', j')`: earlier in `a`, or as early in `a` and
      earlier in `b`. */
  predicate Before(i: nat, j: nat, i': nat, j': nat) {
    i < i' || (i == i' && j < j')
  }

  /** How far `a[i..ahi]` and `b[j..bhi]` agree from their start: the length of the
      longest block of the window that starts at `(i, j)`. */
  function MatchLength(a: string, b: string, ahi: nat, bhi: nat, i: nat, j: nat): (n: nat)
    requires i <= ahi <= |a| && j <= bhi <= |b|
    ensures i + n <= ahi && j + n <= bhi
    decreases ahi - i
  {
    if i < ahi && j < bhi && a[i] == b[j] then 1 + MatchLength(a, b, ahi, bhi, i + 1, j + 1) else 0
  }

  /** The block of length `MatchLength` at `(i, j)` is a block, and no block of the window
      starting there is longer. */
  lemma {:induction false} LongestAt(a: string, b: string, ahi: nat, bhi: nat, i: nat, j: nat, k: nat)
    requires i <= ahi <= |a| && j <= bhi <= |b|
    ensures IsBlock(a, b, i, j, MatchLength(a, b, ahi, bhi, i, j))
    ensures IsBlock(a, b, i, j, k) && i + k <= ahi && j + k <= bhi ==> k <= MatchLength(a, b, ahi, bhi, i, j)
    decreases ahi - i
  {
    if i < ahi && j < bhi && a[i] == b[j] {
      LongestAt(a, b, ahi, bhi, i + 1, j + 1, if k == 0 then 0 else k - 1);
    }
  }

  /** The start pairs of the window before `(i, j)` have been examined and `best` is the
      first longest block found among them. */
  ghost predicate ScanInvariant(a: string, b: string, alo: nat, ahi: nat, blo: nat, bhi: nat,
                                i: nat, j: nat, best: Block)
  {
    && Inside(alo, ahi, blo, bhi, best.i, best.j, best.size)
    && IsBlock(a, b, best.i, best.j, best.size)
    && (forall i': nat, j': nat, k: nat ::
          Before(i', j', i, j) && Inside(alo, ahi, blo, bhi, i', j', k) && IsBlock(a, b, i', j', k) ==> k <= best.size)
    && (forall i': nat, j': nat ::
          Before(i', j', best.i, best.j) && Inside(alo, ahi, blo, bhi, i', j', best.size) ==> !IsBlock(a, b, i', j', best.size))
  }

  /** Examine the start pairs of the window from `(i, j)` on, in the order
      `find_longest_match` meets them, replacing `best` only by a strictly longer block. */
  function Scan(a: string, b: string, alo: nat, ahi: nat, blo: nat, bhi: nat,
                i: nat, j: nat, best: Block): (r: Block)
    requires alo <= i <= ahi <= |a| && blo <= j <= bhi <= |b|
    requires Inside(alo, ahi, blo, bhi, best.i, best.j, best.size)
    ensures Inside(alo, ahi, blo, bhi, r.i, r.j, r.size)
    decreases ahi - i, bhi - j
  {
    if i == ahi then best
    else if j == bhi then Scan(a, b, alo, ahi, blo, bhi, i + 1, blo, best)
    else
      var k := MatchLength(a, b, ahi, bhi, i, j);
      Scan(a, b, alo, ahi, blo, bhi, i, j + 1, if k > best.size then Block(i, j, k) else best)
  }

  /** The scan keeps its invariant all the way to the end of the window. */
  lemma {:induction false} ScanKeepsInvariant(a: string, b: string, alo: nat, ahi: nat, blo: nat, bhi: nat,
                                              i: nat, j: nat, best: Block)
    requires alo <= i <= ahi <= |a| && blo <= j <= bhi <= |b|
    requires ScanInvariant(a, b, alo, ahi, blo, bhi, i, j, best)
    ensures ScanInvariant(a, b, alo, ahi, blo, bhi, ahi, blo, Scan(a, b, alo, ahi, blo, bhi, i, j, best))
    decreases ahi - i, bhi - j
  {
    if i == ahi {
      assert forall i': nat, j': nat, k: nat :: Before(i', j', ahi, blo) && Inside(alo, ahi, blo, bhi, i', j', k) ==>
        Before(i', j', i, j);
    } else if j == bhi {
      assert forall i': nat, j': nat, k: nat :: Before(i', j', i + 1, blo) && Inside(alo, ahi, blo, bhi, i', j', k) ==>
        Before(i', j', i, j) || k == 0;
      ScanKeepsInvariant(a, b, alo, ahi, blo, bhi, i + 1, blo, best);
    } else {
      var k := MatchLength(a, b, ahi, bhi, i, j);
      forall k': nat ensures IsBlock(a, b, i, j, k') && i + k' <= ahi && j + k' <= bhi ==> k' <= k {
        LongestAt(a, b, ahi, bhi, i, j, k');
      }
      LongestAt(a, b, ahi, bhi, i, j, 0);
      assert forall i': nat, j': nat :: Before(i', j', i, j + 1) ==> Before(i', j', i, j) || (i' == i && j' == j);
      var next := if k > best.size then Block(i, j, k) else best;
      ScanKeepsInvariant(a, b, alo, ahi, blo, bhi, i, j + 1, next);
    }
  }

  /** `find_longest_match(alo, ahi, blo, bhi)` with no junk. */
  function LongestMatch(a: string, b: string, alo: nat, ahi: nat, blo: nat, bhi: nat): (r: Block)
    requires alo <= ahi <= |a| && blo <= bhi <= |b|
    ensures Inside(alo, ahi, blo, bhi, r.i, r.j, r.size)
  {
    Scan(a, b, alo, ahi, blo, bhi, alo, blo, Block(alo, blo, 0))
  }

  /** `m` is what `find_longest_match` promises: a longest block common to `a[alo..ahi]`
      and `b[blo..bhi]`, and of the longest ones the one starting earliest in `a`, then
      earliest in `b`. */
  ghost predicate IsLongest(a: string, b: string, alo: nat, ahi: nat, blo: nat, bhi: nat, m: Block) {
    && Inside(alo, ahi, blo, bhi, m.i, m.j, m.size)
    && IsBlock(a, b, m.i, m.j, m.size)
    && (forall i: nat, j: nat, k: nat ::
          Inside(alo, ahi, blo, bhi, i, j, k) && IsBlock(a, b, i, j, k) ==> k <= m.size)
    && (forall i: nat, j: nat ::
          Inside(alo, ahi, blo, bhi, i, j, m.size) && IsBlock(a, b, i, j, m.size) ==> !Before(i, j, m.i, m.j))
  }

  /** The scan finds the block `find_longest_match` promises. */
  lemma LongestMatchIsLongest(a: string, b: string, alo: nat, ahi: nat, blo: nat, bhi: nat)
    requires alo <= ahi <= |a| && blo <= bhi <= |b|
    ensures IsLongest(a, b, alo, ahi, blo, bhi, LongestMatch(a, b, alo, ahi, blo, bhi))
  {
    assert IsBlock(a, b, alo, blo, 0);
    ScanKeepsInvariant(a, b, alo, ahi, blo, bhi, alo, blo, Block(alo, blo, 0));
    assert forall i: nat, j: nat, k: nat :: Inside(alo, ahi, blo, bhi, i, j, k) ==> Before(i, j, ahi, blo) || k == 0;
  }

  /** Only one block has those properties. */
  lemma LongestMatchUnique(a: string, b: string, alo: nat, ahi: nat, blo: nat, bhi: nat, m: Block)
    requires alo <= ahi <= |a| && blo <= bhi <= |b|
    requires IsLongest(a, b, alo, ahi, blo, bhi, m)
    ensures m == LongestMatch(a, b, alo, ahi, blo, bhi)
  {
    var r := LongestMatch(a, b, alo, ahi, blo, bhi);
    LongestMatchIsLongest(a, b, alo, ahi, blo, bhi);
    assert m.size == r.size;
    assert !Before(r.i, r.j, m.i, m.j) && !Before(m.i, m.j, r.i, r.j);
  }

  function SumSizes(blocks: seq<Block>): nat
    decreases |blocks|
  {
    if blocks == [] then 0 else SumSizes(blocks[..|blocks| - 1]) + blocks[|blocks| - 1].size
  }

  lemma {:induction false} SumSizesAppend(x: seq<Block>, y: seq<Block>)
    ensures SumSizes(x + y) == SumSizes(x) + SumSizes(y)
    decreases |y|
  {
    if y != [] {
      var z := x + y;
      assert z[..|z| - 1] == x + y[..|y| - 1];
      assert z[|z| - 1] == y[|y| - 1];
      assert SumSizes(z) == SumSizes(z[..|z| - 1]) + z[|z| - 1].size;
      SumSizesAppend(x, y[..|y| - 1]);
    } else {
      assert x + y == x;
    }
  }

  lemma SumSizesJoin(left: seq<Block>, m: Block, right: seq<Block>)
    ensures SumSizes(left + [m] + right) == SumSizes(left) + m.size + SumSizes(right)
  {
    var l := left + [m];
    assert SumSizes(l) == SumSizes(left) + m.size by {
      assert l[..|l| - 1] == left;
    }
    SumSizesAppend(l, right);
  }

  /** Every block is a real, non-empty match inside the window. */
  ghost predicate AllMatch(a: string, b: string, alo: nat, ahi: nat, blo: nat, bhi: nat, blocks: seq<Block>) {
    forall t :: 0 <= t < |blocks| ==>
      && blocks[t].size > 0
      && Inside(alo, ahi, blo, bhi, blocks[t].i, blocks[t].j, blocks[t].size)
      && IsBlock(a, b, blocks[t].i, blocks[t].j, blocks[t].size)
  }

  /** Each block ends, in `a` and in `b`, before the next one starts. */
  ghost predicate Ordered(blocks: seq<Block>) {
    forall s, t :: 0 <= s < t < |blocks| ==>
      blocks[s].i + blocks[s].size <= blocks[t].i && blocks[s].j + blocks[s].size <= blocks[t].j
  }

  /** The matching blocks of the window `a[alo..ahi]`, `b[blo..bhi]`, as the queue of
      `get_matching_blocks()` finds them: the longest block, with the blocks of the parts
      to its left before it and those of the parts to its right after it. Their total
      size fits in either window; `MatchingBlocksValid` shows they are real matches in
      increasing order. */
  function MatchingBlocksIn(a: string, b: string, alo: nat, ahi: nat, blo: nat, bhi: nat): (r: seq<Block>)
    requires alo <= ahi <= |a| && blo <= bhi <= |b|
    ensures SumSizes(r) <= ahi - alo && SumSizes(r) <= bhi - blo
    decreases (ahi - alo) + (bhi - blo)
  {
    var m := LongestMatch(a, b, alo, ahi, blo, bhi);
    if m.size == 0 then []
    else
      var left := MatchingBlocksIn(a, b, alo, m.i, blo, m.j);
      var right := MatchingBlocksIn(a, b, m.i + m.size, ahi, m.j + m.size, bhi);
      SumSizesJoin(left, m, right);
      left + [m] + right
  }

  /** Every block `get_matching_blocks()` finds in a window is a real, non-empty match
      inside it, and the blocks come in increasing order in both strings without
      overlapping. */
  lemma {:induction false} MatchingBlocksValid(a: string, b: string, alo: nat, ahi: nat, blo: nat, bhi: nat)
    requires alo <= ahi <= |a| && blo <= bhi <= |b|
    ensures AllMatch(a, b, alo, ahi, blo, bhi, MatchingBlocksIn(a, b, alo, ahi, blo, bhi))
    ensures Ordered(MatchingBlocksIn(a, b, alo, ahi, blo, bhi))
    decreases (ahi - alo) + (bhi - blo)
  {
    var m := LongestMatch(a, b, alo, ahi, blo, bhi);
    if m.size > 0 {
      MatchingBlocksValid(a, b, alo, m.i, blo, m.j);
      MatchingBlocksValid(a, b, m.i + m.size, ahi, m.j + m.size, bhi);
      ValidStep(a, b, alo, ahi, blo, bhi);
    }
  }

  /** The step of `MatchingBlocksValid`: valid blocks on both sides of the longest match
      make valid blocks for the whole window. */
  lemma ValidStep(a: string, b: string, alo: nat, ahi: nat, blo: nat, bhi: nat)
    requires alo <= ahi <= |a| && blo <= bhi <= |b|
    requires LongestMatch(a, b, alo, ahi, blo, bhi).size > 0
    requires var m := LongestMatch(a, b, alo, ahi, blo, bhi);
      && AllMatch(a, b, alo, m.i, blo, m.j, MatchingBlocksIn(a, b, alo, m.i, blo, m.j))
      && Ordered(MatchingBlocksIn(a, b, alo, m.i, blo, m.j))
      && AllMatch(a, b, m.i + m.size, ahi, m.j + m.size, bhi, MatchingBlocksIn(a, b, m.i + m.size, ahi, m.j + m.size, bhi))
      && Ordered(MatchingBlocksIn(a, b, m.i + m.size, ahi, m.j + m.size, bhi))
    ensures AllMatch(a, b, alo, ahi, blo, bhi, MatchingBlocksIn(a, b, alo, ahi, blo, bhi))
    ensures Ordered(MatchingBlocksIn(a, b, alo, ahi, blo, bhi))
  {
    var m := LongestMatch(a, b, alo, ahi, blo, bhi);
    var left := MatchingBlocksIn(a, b, alo, m.i, blo, m.j);
    var right := MatchingBlocksIn(a, b, m.i + m.size, ahi, m.j + m.size, bhi);
    MatchingBlocksSplit(a, b, alo, ahi, blo, bhi);
    LongestMatchIsLongest(a, b, alo, ahi, blo, bhi);
    ValidJoin(a, b, alo, ahi, blo, bhi, left, m, right);
  }

  lemma ValidJoin(a: string, b: string, alo: nat, ahi: nat, blo: nat, bhi: nat,
                  left: seq<Block>, m: Block, right: seq<Block>)
    requires m.size > 0 && Inside(alo, ahi, blo, bhi, m.i, m.j, m.size) && IsBlock(a, b, m.i, m.j, m.size)
    requires AllMatch(a, b, alo, m.i, blo, m.j, left) && Ordered(left)
    requires AllMatch(a, b, m.i + m.size, ahi, m.j + m.size, bhi, right) && Ordered(right)
    ensures AllMatch(a, b, alo, ahi, blo, bhi, left + [m] + right) && Ordered(left + [m] + right)
  {
    AllMatchJoin(a, b, alo, ahi, blo, bhi, left, m, right);
    OrderedJoin(a, b, alo, ahi, blo, bhi, left, m, right);
  }

  /** One step of the recursion of `get_matching_blocks()`. */
  lemma MatchingBlocksSplit(a: string, b: string, alo: nat, ahi: nat, blo: nat, bhi: nat)
    requires alo <= ahi <= |a| && blo <= bhi <= |b|
    requires LongestMatch(a, b, alo, ahi, blo, bhi).size > 0
    ensures var m := LongestMatch(a, b, alo, ahi, blo, bhi);
      MatchingBlocksIn(a, b, alo, ahi, blo, bhi) ==
        MatchingBlocksIn(a, b, alo, m.i, blo, m.j) + [m] + MatchingBlocksIn(a, b, m.i + m.size, ahi, m.j + m.size, bhi)
  {
  }

  lemma AllMatchJoin(a: string, b: string, alo: nat, ahi: nat, blo: nat, bhi: nat,
                     left: seq<Block>, m: Block, right: seq<Block>)
    requires m.size > 0 && Inside(alo, ahi, blo, bhi, m.i, m.j, m.size) && IsBlock(a, b, m.i, m.j, m.size)
    requires AllMatch(a, b, alo, m.i, blo, m.j, left)
    requires AllMatch(a, b, m.i + m.size, ahi, m.j + m.size, bhi, right)
    ensures AllMatch(a, b, alo, ahi, blo, bhi, left + [m] + right)
  {
    var r := left + [m] + right;
    forall t | 0 <= t < |r|
      ensures r[t].size > 0 && Inside(alo, ahi, blo, bhi, r[t].i, r[t].j, r[t].size)
      ensures IsBlock(a, b, r[t].i, r[t].j, r[t].size)
    {
      if t < |left| {
        assert r[t] == left[t];
      } else if t > |left| {
        assert r[t] == right[t - |left| - 1];
      }
    }
  }

  lemma OrderedJoin(a: string, b: string, alo: nat, ahi: nat, blo: nat, bhi: nat,
                    left: seq<Block>, m: Block, right: seq<Block>)
    requires Ordered(left) && Ordered(right)
    requires AllMatch(a, b, alo, m.i, blo, m.j, left)
    requires AllMatch(a, b, m.i + m.size, ahi, m.j + m.size, bhi, right)
    ensures Ordered(left + [m] + right)
  {
    var r := left + [m] + right;
    forall s, t | 0 <= s < t < |r|
      ensures r[s].i + r[s].size <= r[t].i && r[s].j + r[s].size <= r[t].j
    {
      if t < |left| {
        assert r[s] == left[s] && r[t] == left[t];
      } else if t == |left| {
        assert r[s] == left[s];
      } else if s <= |left| {
        assert r[t] == right[t - |left| - 1];
      } else {
        assert r[s] == right[s - |left| - 1] && r[t] == right[t - |left| - 1];
      }
    }
  }

  /** `get_matching_blocks()` over the whole of both strings, without its final
      `(len(a), len(b), 0)` sentinel and before adjacent blocks are merged (merging
      leaves the total size unchanged). */
  function MatchingBlocks(a: string, b: string): (r: seq<Block>)
    ensures SumSizes(r) <= |a| && SumSizes(r) <= |b|
  {
    MatchingBlocksIn(a, b, 0, |a|, 0, |b|)
  }

  /** `SequenceMatcher(None, a, b).ratio()`: `2 * M / T`, or `1.0` when both are empty. */
  function Ratio(a: string, b: string): (r: real)
    ensures 0.0 <= r <= 1.0
    ensures |a| + |b| == 0 ==> r == 1.0
  {
    var t := |a| + |b|;
    if t == 0 then 1.0
    else
      var m := SumSizes(MatchingBlocks(a, b));
      FractionBounds(2 * m, t);
      (2 * m) as real / t as real
  }

  lemma FractionBounds(x: nat, y: nat)
    requires 0 < y && x <= y
    ensures 0.0 <= x as real / y as real <= 1.0
  {
  }

  /** A string compared with itself scores `1.0`. */
  lemma RatioSelf(a: string)
    ensures Ratio(a, a) == 1.0
  {
    if a != [] {
      var n := |a|;
      var m := LongestMatch(a, a, 0, n, 0, n);
      LongestMatchIsLongest(a, a, 0, n, 0, n);
      assert IsBlock(a, a, 0, 0, n);
      assert m.size == n;
      assert m.i == 0 && m.j == 0;
      assert MatchingBlocksIn(a, a, 0, 0, 0, 0) == [];
      assert MatchingBlocksIn(a, a, n, n, n, n) == [];
      assert MatchingBlocks(a, a) == [m];
    }
  }

  /** The matching blocks total zero exactly when the longest match of the whole strings
      is empty. */
  lemma MatchedZero(a: string, b: string)
    ensures SumSizes(MatchingBlocks(a, b)) == 0 <==> LongestMatch(a, b, 0, |a|, 0, |b|).size == 0
  {
    MatchedInZero(a, b, 0, |a|, 0, |b|);
  }

  lemma MatchedInZero(a: string, b: string, alo: nat, ahi: nat, blo: nat, bhi: nat)
    requires alo <= ahi <= |a| && blo <= bhi <= |b|
    ensures SumSizes(MatchingBlocksIn(a, b, alo, ahi, blo, bhi)) == 0 <==>
      LongestMatch(a, b, alo, ahi, blo, bhi).size == 0
  {
    var m := LongestMatch(a, b, alo, ahi, blo, bhi);
    if m.size > 0 {
      var left := MatchingBlocksIn(a, b, alo, m.i, blo, m.j);
      var right := MatchingBlocksIn(a, b, m.i + m.size, ahi, m.j + m.size, bhi);
      SumSizesJoin(left, m, right);
    }
  }

  /** The longest match is empty exactly when no element of `a` occurs in `b`. */
  lemma LongestMatchEmpty(a: string, b: string)
    ensures LongestMatch(a, b, 0, |a|, 0, |b|).size == 0 <==>
      forall i, j :: 0 <= i < |a| && 0 <= j < |b| ==> a[i] != b[j]
  {
    var m := LongestMatch(a, b, 0, |a|, 0, |b|);
    LongestMatchIsLongest(a, b, 0, |a|, 0, |b|);
    if m.size == 0 {
      forall i, j | 0 <= i < |a| && 0 <= j < |b| ensures a[i] != b[j] {
        assert !IsBlock(a, b, i, j, 1);
      }
    } else {
      assert a[m.i] == b[m.j];
    }
  }

  /** Two strings that are not both empty score `0.0` exactly when they share no element. */
  lemma RatioZero(a: string, b: string)
    requires |a| + |b| > 0
    ensures Ratio(a, b) == 0.0 <==> forall i, j :: 0 <= i < |a| && 0 <= j < |b| ==> a[i] != b[j]
  {
    var m := SumSizes(MatchingBlocks(a, b));
    assert Ratio(a, b) == (2 * m) as real / (|a| + |b|) as real;
    FractionZero(2 * m, |a| + |b|);
    assert Ratio(a, b) == 0.0 <==> m == 0;
    MatchedZero(a, b);
    LongestMatchEmpty(a, b);
  }

  lemma FractionZero(x: nat, y: nat)
    requires 0 < y
    ensures x as real / y as real == 0.0 <==> x == 0
  {
    if x > 0 {
      assert x as real / y as real > 0.0;
    }
  }
}
