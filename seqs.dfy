/**
 * The two dataframe operations the pipeline uses on rows: boolean-mask
 * selection (`df[mask]`) and `df.head(n)`.
 */
module Seqs {

  /** The elements of `s` that satisfy `p`, in the order they have in `s` (`df[mask]`). */
  function Filter<T(!new)>(s: seq<T>, p: T -> bool): (r: seq<T>)
    ensures |r| <= |s|
    ensures forall x :: x in r <==> x in s && p(x)
    ensures forall x :: multiset(r)[x] == if p(x) then multiset(s)[x] else 0
  {
    if s == [] then []
    else
      var rest := Filter(s[1..], p);
      assert s == [s[0]] + s[1..];
      if p(s[0]) then [s[0]] + rest else rest
  }

  /**
   * `df.head(n)`: the first `n` rows; for a negative `n`, every row except
   * the last `-n` (pandas slices with `iloc[:n]`).
   */
  function Head<T>(s: seq<T>, n: int): (r: seq<T>)
    ensures r <= s
    ensures n >= 0 ==> |r| == (if n < |s| then n else |s|)
    ensures n < 0 ==> |r| == (if |s| + n > 0 then |s| + n else 0)
  {
    if n >= 0 then (if n < |s| then s[..n] else s)
    else (if |s| + n > 0 then s[..|s| + n] else [])
  }

  /**
   * Rows selected by `p` then by `q` are the rows selected by a mask `both`
   * that accepts exactly what both accept, in the same order.
   */
  lemma {:induction false} FilterFusion<T(!new)>(s: seq<T>, p: T -> bool, q: T -> bool, both: T -> bool)
    requires forall x :: x in s ==> both(x) == (p(x) && q(x))
    ensures Filter(Filter(s, p), q) == Filter(s, both)
  {
    if s != [] {
      FilterFusion(s[1..], p, q, both);
    }
  }

  /** A selection depends only on the verdict of the mask on the rows themselves. */
  lemma {:induction false} FilterCongruence<T(!new)>(s: seq<T>, p: T -> bool, q: T -> bool)
    requires forall x :: x in s ==> p(x) == q(x)
    ensures Filter(s, p) == Filter(s, q)
  {
    if s != [] {
      FilterCongruence(s[1..], p, q);
    }
  }

  /**
   * `r` sits inside `s` at the strictly increasing positions `idx`: `r` is
   * `s` with some elements left out and the others in their original order.
   */
  ghost predicate Embeds<T>(idx: seq<nat>, r: seq<T>, s: seq<T>) {
    && |idx| == |r|
    && (forall k :: 0 <= k < |idx| ==> idx[k] < |s| && r[k] == s[idx[k]])
    && (forall k, l :: 0 <= k < l < |idx| ==> idx[k] < idx[l])
  }

  /** `r` is an order-preserving selection from `s`. */
  ghost predicate SubsequenceOf<T>(r: seq<T>, s: seq<T>) {
    exists idx :: Embeds(idx, r, s)
  }

  /** Every position one further on. */
  function Shift(idx: seq<nat>): seq<nat> {
    seq(|idx|, k requires 0 <= k < |idx| => idx[k] + 1)
  }

  /** The positions of `s` whose elements satisfy `p`, in increasing order. */
  function KeptPositions<T>(s: seq<T>, p: T -> bool): seq<nat> {
    if s == [] then []
    else
      var rest := Shift(KeptPositions(s[1..], p));
      if p(s[0]) then [0] + rest else rest
  }

  /**
   * `df[mask]` keeps table order: the selected rows are exactly the rows at
   * the positions where the mask holds, in increasing order of position.
   */
  lemma FilterKeepsOrder<T(!new)>(s: seq<T>, p: T -> bool)
    ensures Embeds(KeptPositions(s, p), Filter(s, p), s)
    ensures forall i :: 0 <= i < |s| && p(s[i]) ==> i in KeptPositions(s, p)
  {
    FilterEmbeds(s, p);
    KeptPositionsComplete(s, p);
  }

  /** The selected rows sit in `s` at the kept positions. */
  lemma {:induction false} FilterEmbeds<T(!new)>(s: seq<T>, p: T -> bool)
    ensures Embeds(KeptPositions(s, p), Filter(s, p), s)
  {
    if s != [] {
      FilterEmbeds(s[1..], p);
      var rest := KeptPositions(s[1..], p);
      ShiftEmbeds(rest, Filter(s[1..], p), s);
      if p(s[0]) {
        ConsEmbeds(s[0], Shift(rest), Filter(s[1..], p), s);
      }
    }
  }

  /** Every position where the mask holds is kept. */
  lemma {:induction false} KeptPositionsComplete<T>(s: seq<T>, p: T -> bool)
    ensures forall i :: 0 <= i < |s| && p(s[i]) ==> i in KeptPositions(s, p)
  {
    if s != [] {
      KeptPositionsComplete(s[1..], p);
      var rest := KeptPositions(s[1..], p);
      var kept := KeptPositions(s, p);
      assert kept == if p(s[0]) then [0] + Shift(rest) else Shift(rest);
      forall i | 0 < i < |s| && p(s[i]) ensures i in kept {
        assert s[1..][i - 1] == s[i];
        ShiftMember(rest, i - 1);
      }
    }
  }

  /** An embedding into the tail of `s` is one into `s`, one position further on. */
  lemma ShiftEmbeds<T>(idx: seq<nat>, r: seq<T>, s: seq<T>)
    requires s != [] && Embeds(idx, r, s[1..])
    ensures Embeds(Shift(idx), r, s) && forall k :: 0 <= k < |idx| ==> Shift(idx)[k] > 0
  {
    var shifted := Shift(idx);
    forall k | 0 <= k < |shifted| ensures shifted[k] < |s| && r[k] == s[shifted[k]] {
      assert s[shifted[k]] == s[1..][idx[k]];
    }
  }

  /** A position in `idx` is one further on in `Shift(idx)`. */
  lemma ShiftMember(idx: seq<nat>, i: nat)
    requires i in idx
    ensures i + 1 in Shift(idx)
  {
    var k :| 0 <= k < |idx| && idx[k] == i;
    assert Shift(idx)[k] == i + 1;
  }

  /** Putting the first element in front of an embedding that skips position 0 embeds again. */
  lemma ConsEmbeds<T>(x: T, idx: seq<nat>, r: seq<T>, s: seq<T>)
    requires s != [] && s[0] == x
    requires Embeds(idx, r, s) && forall k :: 0 <= k < |idx| ==> idx[k] > 0
    ensures Embeds([0] + idx, [x] + r, s)
  {
    var idx' := [0] + idx;
    var r' := [x] + r;
    forall k | 0 < k < |idx'| ensures idx'[k] < |s| && r'[k] == s[idx'[k]] {
      assert idx'[k] == idx[k - 1] && r'[k] == r[k - 1];
    }
  }

  /** `head(n)` of an order-preserving selection is one too, at the first positions. */
  lemma HeadEmbeds<T>(idx: seq<nat>, r: seq<T>, s: seq<T>, n: int)
    requires Embeds(idx, r, s)
    ensures Embeds(Head(idx, n), Head(r, n), s)
  {
  }

  /** `head(n)` of a shorter sequence is empty whenever `head(n)` of a longer one is. */
  lemma HeadEmptyOfShorter<T>(t: seq<T>, s: seq<T>, n: int)
    requires |t| <= |s| && Head(s, n) == []
    ensures Head(t, n) == []
  {
    assert |Head(s, n)| == 0;
  }

  /** A prefix holds no element more often than the whole sequence does. */
  lemma HeadSubMultiset<T>(s: seq<T>, n: int)
    ensures multiset(Head(s, n)) <= multiset(s)
  {
    var h := Head(s, n);
    assert s == h + s[|h|..];
  }
}
