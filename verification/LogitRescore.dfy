/**
 Exact rescoring of the top candidates of a quantised logit row: the best M columns by quantised
 value are recomputed exactly and written back in place, and greedy choice must come out exact.
 */
module LogitRescore {
  import opened FiniteSets
  import opened VocabArgmax

  function Dot(a: seq<real>, b: seq<real>): real
    requires |a| == |b|
  {
    if a == [] then 0.0 else a[0] * b[0] + Dot(a[1..], b[1..])
  }

  /** Every product counts once, wherever the vectors are cut. */
  lemma {:induction false} DotSplits(a: seq<real>, b: seq<real>, c: seq<real>, d: seq<real>)
    requires |a| == |b| && |c| == |d|
    ensures Dot(a + c, b + d) == Dot(a, b) + Dot(c, d)
    ensures |a| == 1 ==> Dot(a, b) == a[0] * b[0]
  {
    if a == [] {
      assert a + c == c && b + d == d;
    } else {
      DotSplits(a[1..], b[1..], c, d);
      assert (a + c)[1..] == a[1..] + c && (b + d)[1..] == b[1..] + d;
    }
  }

  /** The exact logits of one hidden state over this rank's rows of the head. */
  function ExactRow(w: seq<seq<real>>, h: seq<real>): (x: seq<real>)
    requires forall i :: 0 <= i < |w| ==> |w[i]| == |h|
    ensures |x| == |w|
  {
    seq(|w|, i requires 0 <= i < |w| => Dot(w[i], h))
  }

  /** `m` distinct columns none of which is beaten by a column left out. */
  predicate IsTopK(q: seq<real>, m: nat, cand: set<int>) {
    && |cand| == m
    && (forall c :: c in cand ==> 0 <= c < |q|)
    && (forall c, j :: c in cand && 0 <= j < |q| && j !in cand ==> q[j] <= q[c])
  }

  /** A row with its candidate columns replaced by exact values. */
  function Scattered(row: seq<real>, cand: set<int>, exact: seq<real>): (r: seq<real>)
    requires |exact| <= |row|
    ensures |r| == |row|
  {
    seq(|row|, i requires 0 <= i < |row| => if i in cand && i < |exact| then exact[i] else row[i])
  }

  /** Candidates are chosen among the real columns, padding excluded. */
  function RescoredRow(w: seq<seq<real>>, h: seq<real>, row: seq<real>, topm: int, topk: (seq<real>, nat) -> set<int>): (r: seq<real>)
    requires |w| <= |row| && forall i :: 0 <= i < |w| ==> |w[i]| == |h|
    ensures |r| == |row|
  {
    if topm <= 0 then row
    else Scattered(row, topk(row[..|w|], Kept(topm, |w|)), ExactRow(w, h))
  }

  function Kept(topm: int, n: nat): nat
    requires topm > 0
  {
    if topm <= n then topm else n
  }

  ghost predicate IsTopKFunction(topk: (seq<real>, nat) -> set<int>) {
    forall q: seq<real>, m: nat :: m <= |q| ==> IsTopK(q, m, topk(q, m))
  }

  /** Column by column: a candidate gets its exact logit, every other column and all padding stays. There are
      as many candidates as asked for or as there are real columns, and none is beaten by a column left
      out. */
  lemma {:induction false} RescoredColumns(w: seq<seq<real>>, h: seq<real>, row: seq<real>, topm: int, topk: (seq<real>, nat) -> set<int>)
    requires |w| <= |row| && forall i :: 0 <= i < |w| ==> |w[i]| == |h|
    requires IsTopKFunction(topk)
    ensures topm <= 0 ==> RescoredRow(w, h, row, topm, topk) == row
    ensures topm > 0 ==>
              exists cand: set<int> ::
                && |cand| == (if topm < |w| then topm else |w|)
                && (forall j :: j in cand ==> 0 <= j < |w| && RescoredRow(w, h, row, topm, topk)[j] == Dot(w[j], h))
                && (forall j :: 0 <= j < |row| && j !in cand ==> RescoredRow(w, h, row, topm, topk)[j] == row[j])
                && (forall c, j :: c in cand && 0 <= j < |w| && j !in cand ==> row[j] <= row[c])
  {
    if topm > 0 {
      var cand := topk(row[..|w|], Kept(topm, |w|));
      assert IsTopK(row[..|w|], Kept(topm, |w|), cand);
      forall c, j | c in cand && 0 <= j < |w| && j !in cand ensures row[j] <= row[c] {
        assert row[..|w|][j] <= row[..|w|][c];
      }
    }
  }

  /** The chunked pass over all rows, in place: every row is rescored exactly once, so the result is the
      same for every chunk size, and only candidate columns change. */
  method RescoreInPlace(w: seq<seq<real>>, hidden: seq<seq<real>>, lg: array<seq<real>>, topm: int, chunk: nat,
                        topk: (seq<real>, nat) -> set<int>)
    requires chunk >= 1 && lg.Length == |hidden|
    requires forall r :: 0 <= r < |hidden| ==> |w| <= |lg[r]| && forall i :: 0 <= i < |w| ==> |w[i]| == |hidden[r]|
    modifies lg
    ensures forall r :: 0 <= r < |hidden| ==> lg[r] == RescoredRow(w, hidden[r], old(lg[r]), topm, topk)
  {
    if topm <= 0 {
      return;
    }
    var s := 0;
    while s < |hidden|
      invariant forall r :: 0 <= r < |hidden| && r < s ==> lg[r] == RescoredRow(w, hidden[r], old(lg[r]), topm, topk)
      invariant forall r :: s <= r < |hidden| ==> lg[r] == old(lg[r])
    {
      var end := if s + chunk <= |hidden| then s + chunk else |hidden|;
      for i := s to end
        invariant forall r :: 0 <= r < i ==> lg[r] == RescoredRow(w, hidden[r], old(lg[r]), topm, topk)
        invariant forall r :: i <= r < |hidden| ==> lg[r] == old(lg[r])
      {
        var cand := topk(lg[i][..|w|], Kept(topm, |w|));
        lg[i] := Scattered(lg[i], cand, ExactRow(w, hidden[i]));
      }
      s := s + chunk;
    }
  }

  // ------------------------------------------------------ exact greedy choice

  predicate Close(a: real, b: real, e: real) {
    -e <= a - b <= e
  }

  /** Columns whose exact logit is at least `t`. */
  function AtLeast(x: seq<real>, t: real): set<int> {
    set i | 0 <= i < |x| && x[i] >= t
  }

  lemma CandidatesFill(cand: set<int>, extra: int, s: set<int>)
    requires cand <= s && extra in s && extra !in cand
    ensures |s| >= |cand| + 1
  {
    SubsetSize(cand + {extra}, s);
  }

  /** With at most m columns within 2e of `top`, a column left out of the candidates neither carries
      `top` nor shows a quantised value reaching it. */
  lemma LeftOutIsLow(x: seq<real>, q: seq<real>, e: real, m: nat, cand: set<int>, top: real, j: int)
    requires |x| <= |q| && e >= 0.0 && forall i :: 0 <= i < |x| ==> Close(q[i], x[i], e)
    requires IsTopK(q[..|x|], m, cand) && |AtLeast(x, top - 2.0 * e)| <= m
    requires 0 <= j < |x| && j !in cand
    ensures q[j] < top && x[j] < top
  {
    var near := AtLeast(x, top - 2.0 * e);
    if q[j] >= top || x[j] >= top {
      assert Close(q[j], x[j], e);
      forall c | c in cand
        ensures c in near
      {
        assert q[..|x|][j] <= q[..|x|][c];
        assert Close(q[c], x[c], e);
      }
      CandidatesFill(cand, j, near);
    }
  }

  /** One row: if at most m columns lie within 2e of the best exact logit, the first argmax after
      rescoring is the first exact argmax. When the candidates cover the row this always holds. */
  lemma GreedyRestored(x: seq<real>, q: seq<real>, e: real, m: nat, cand: set<int>, best: int, i: int)
    requires |x| <= |q| && e >= 0.0 && forall j :: 0 <= j < |x| ==> Close(q[j], x[j], e)
    requires IsTopK(q[..|x|], m, cand)
    requires 0 <= best < |x| && (forall j :: 0 <= j < |x| ==> x[j] <= x[best]) && (forall j :: 0 <= j < best ==> x[j] < x[best])
    requires |AtLeast(x, x[best] - 2.0 * e)| <= m
    requires 0 <= i < |x|
    ensures var r := Scattered(q, cand, x);
            && r[best] == x[best] && r[i] <= r[best] && (i < best ==> r[i] < r[best])
  {
    if best !in cand {
      LeftOutIsLow(x, q, e, m, cand, x[best], best);
    }
    if i !in cand {
      LeftOutIsLow(x, q, e, m, cand, x[best], i);
    }
  }

  /** All columns of a row. */
  function Columns(n: nat): (cols: set<int>)
    ensures |cols| == n && forall i :: i in cols <==> 0 <= i < n
  {
    if n == 0 then {} else Columns(n - 1) + {n - 1}
  }

  /** With at least as many candidates as columns the whole row becomes exact. */
  lemma FullCoverIsExact(w: seq<seq<real>>, h: seq<real>, row: seq<real>, topm: int,
                         topk: (seq<real>, nat) -> set<int>)
    requires |w| <= |row| && (forall i :: 0 <= i < |w| ==> |w[i]| == |h|) && topm >= |w| && topm > 0
    requires IsTopKFunction(topk)
    ensures RescoredRow(w, h, row, topm, topk)[..|w|] == ExactRow(w, h)
  {
    var cand := topk(row[..|w|], |w|);
    assert IsTopK(row[..|w|], |w|, cand);
    forall j | 0 <= j < |w|
      ensures j in cand
    {
      if j !in cand {
        assert cand <= Columns(|w|);
        CandidatesFill(cand, j, Columns(|w|));
      }
    }
  }

  ghost predicate LosesBest(x: seq<real>, q: seq<real>, e: real, m: nat, cand: set<int>) {
    && |x| == |q| == 2 && Close(q[0], x[0], e) && Close(q[1], x[1], e)
    && IsTopK(q, m, cand) && |AtLeast(x, x[0] - 2.0 * e)| == m + 1
    && x[1] < x[0] && Scattered(q, cand, x)[0] < Scattered(q, cand, x)[1]
  }

  /** The bound is tight: with m + 1 columns within 2e the exact choice can be lost. */
  lemma OneMoreIsTooMany()
    ensures exists x: seq<real>, q: seq<real>, e: real, m: nat, cand: set<int> :: LosesBest(x, q, e, m, cand)
  {
    var x, q, e, cand := [1.0, 0.6], [0.5, 0.7], 0.5, {1};
    assert AtLeast(x, 0.0) == {0, 1};
    assert LosesBest(x, q, e, 1, cand);
  }

  // --------------------------------------------------------- over all ranks

  /** One rank: its rows of the exact head and its quantised logits, padding included. */
  datatype Rank = Rank(w: seq<seq<real>>, row: seq<real>)

  predicate FitsRank(k: Rank, h: seq<real>) {
    |k.w| <= |k.row| && forall i :: 0 <= i < |k.w| ==> |k.w[i]| == |h|
  }

  function ExactShard(k: Rank, h: seq<real>): (s: Shard)
    requires FitsRank(k, h)
    ensures s.valid == |k.w| && |s.logits| == |k.row|
  {
    Shard(ExactRow(k.w, h) + k.row[|k.w|..], |k.w|)
  }

  function RescoredShard(k: Rank, h: seq<real>, topm: int, topk: (seq<real>, nat) -> set<int>): (s: Shard)
    requires FitsRank(k, h)
    ensures s.valid == |k.w| && |s.logits| == |k.row|
  {
    Shard(RescoredRow(k.w, h, k.row, topm, topk), |k.w|)
  }

  function ExactShards(ks: seq<Rank>, h: seq<real>): (ss: seq<Shard>)
    requires forall i :: 0 <= i < |ks| ==> FitsRank(ks[i], h)
    ensures |ss| == |ks| && forall i :: 0 <= i < |ks| ==> ss[i] == ExactShard(ks[i], h)
  {
    seq(|ks|, i requires 0 <= i < |ks| => ExactShard(ks[i], h))
  }

  function RescoredShards(ks: seq<Rank>, h: seq<real>, topm: int, topk: (seq<real>, nat) -> set<int>): (ss: seq<Shard>)
    requires forall i :: 0 <= i < |ks| ==> FitsRank(ks[i], h)
    ensures |ss| == |ks| && forall i :: 0 <= i < |ks| ==> ss[i] == RescoredShard(ks[i], h, topm, topk)
  {
    seq(|ks|, i requires 0 <= i < |ks| => RescoredShard(ks[i], h, topm, topk))
  }

  lemma {:induction false} SameStarts(a: seq<Shard>, b: seq<Shard>, i: nat)
    requires |a| == |b| && i <= |a| && forall k :: 0 <= k < |a| ==> a[k].valid == b[k].valid
    ensures Start(a, i) == Start(b, i)
  {
    if i > 0 {
      SameStarts(a, b, i - 1);
    }
  }

  ghost predicate Increasing(p: Post) {
    forall x: real, y: real :: x < y <==> Transform(p, x) < Transform(p, y)
  }

  /** On each rank at most as many exact logits reach `top` minus 2e as there are candidates. */
  predicate FewNear(k: Rank, h: seq<real>, topm: int, e: real, top: real)
    requires FitsRank(k, h) && topm > 0
  {
    && |AtLeast(ExactRow(k.w, h), top - 2.0 * e)| <= Kept(topm, |k.w|)
    && forall j :: 0 <= j < |k.w| ==> Close(k.row[j], ExactRow(k.w, h)[j], e)
  }

  lemma RescoredToken(k: Rank, h: seq<real>, topm: int, topk: (seq<real>, nat) -> set<int>, e: real, top: real, j: nat)
    requires FitsRank(k, h) && topm > 0 && IsTopKFunction(topk) && e >= 0.0 && FewNear(k, h, topm, e, top) && j < |k.w|
    ensures NearEntry(ExactRow(k.w, h)[j], RescoredShard(k, h, topm, topk).logits[j], top)
  {
    var m := Kept(topm, |k.w|);
    var cand := topk(k.row[..|k.w|], m);
    assert IsTopK(k.row[..|k.w|], m, cand);
    if j !in cand {
      LeftOutIsLow(ExactRow(k.w, h), k.row, e, m, cand, top, j);
    }
  }

  /** End to end: if on every rank at most M columns come within 2e of the best exact logit of the whole
      vocabulary, the vocab-parallel choice over the rescored ranks is the exact greedy token. */
  lemma ExactGreedyToken(ks: seq<Rank>, h: seq<real>, vocab: nat, p: Post, topm: int,
                         topk: (seq<real>, nat) -> set<int>, e: real, token: int)
    requires forall i :: 0 <= i < |ks| ==> FitsRank(ks[i], h)
    requires topm > 0 && IsTopKFunction(topk) && e >= 0.0 && Increasing(p)
    requires IsLayout(ExactShards(ks, h), vocab) && vocab <= |Gather(ExactShards(ks, h))|
    requires IsFirstMax(Forward(ExactShards(ks, h), vocab, p), token)
    requires forall i :: 0 <= i < |ks| ==> FewNear(ks[i], h, topm, e, Gather(ExactShards(ks, h))[token])
    ensures var rescored := RescoredShards(ks, h, topm, topk);
            && IsLayout(rescored, vocab) && vocab <= |Gather(rescored)|
            && IsFirstMax(Forward(rescored, vocab, p), token)
  {
    var exact, rescored := ExactShards(ks, h), RescoredShards(ks, h, topm, topk);
    SameLayout(exact, rescored, vocab);
    RanksNear(ks, h, topm, topk, e, Gather(exact)[token]);
    NearRanksKeepArgmax(exact, rescored, vocab, p, token);
  }

  /** The same as a computation: the reduction over the rescored ranks returns that token. */
  method GreedyToken(ks: seq<Rank>, h: seq<real>, vocab: nat, p: Post, topm: int,
                     topk: (seq<real>, nat) -> set<int>, f32: int -> int, ghost e: real, ghost token: int)
    returns (r: Result<int>)
    requires forall i :: 0 <= i < |ks| ==> FitsRank(ks[i], h)
    requires topm > 0 && IsTopKFunction(topk) && e >= 0.0 && Increasing(p) && p.scale > 0.0
    requires IsLayout(ExactShards(ks, h), vocab) && vocab <= |Gather(ExactShards(ks, h))|
    requires vocab <= 0x100_0000 && IsFloat32(f32, vocab)
    requires IsFirstMax(Forward(ExactShards(ks, h), vocab, p), token)
    requires forall i :: 0 <= i < |ks| ==> FewNear(ks[i], h, topm, e, Gather(ExactShards(ks, h))[token])
    ensures r == Ok(token)
  {
    var rescored := RescoredShards(ks, h, topm, topk);
    ExactGreedyToken(ks, h, vocab, p, topm, topk, e, token);
    r := TopToken(rescored, vocab, p, f32);
    FirstMaxUnique(Forward(rescored, vocab, p), r.value, token);
  }

  lemma {:induction false} SameLayout(a: seq<Shard>, b: seq<Shard>, vocab: nat)
    requires |a| == |b| && IsLayout(a, vocab)
    requires forall k :: 0 <= k < |a| ==> a[k].valid == b[k].valid && |a[k].logits| == |b[k].logits|
    ensures IsLayout(b, vocab) && vocab <= |Gather(a)| && vocab <= |Gather(b)|
  {
    SameStarts(a, b, |a|);
    GatherCoversVocab(a, vocab);
    GatherCoversVocab(b, vocab);
  }

  /** Rank by rank, an exact and a rescored column agree or both stay below `top`. */
  ghost predicate NearRanks(a: seq<Shard>, b: seq<Shard>, top: real) {
    && |a| == |b|
    && (forall i :: 0 <= i < |a| ==> a[i].valid == b[i].valid <= |a[i].logits| == |b[i].logits|)
    && (forall i, j :: 0 <= i < |a| && 0 <= j < a[i].valid ==> NearEntry(a[i].logits[j], b[i].logits[j], top))
  }

  lemma RanksNear(ks: seq<Rank>, h: seq<real>, topm: int, topk: (seq<real>, nat) -> set<int>, e: real, top: real)
    requires forall i :: 0 <= i < |ks| ==> FitsRank(ks[i], h)
    requires topm > 0 && IsTopKFunction(topk) && e >= 0.0
    requires forall i :: 0 <= i < |ks| ==> FewNear(ks[i], h, topm, e, top)
    ensures NearRanks(ExactShards(ks, h), RescoredShards(ks, h, topm, topk), top)
  {
    var exact, rescored := ExactShards(ks, h), RescoredShards(ks, h, topm, topk);
    forall i, j | 0 <= i < |ks| && 0 <= j < exact[i].valid
      ensures NearEntry(exact[i].logits[j], rescored[i].logits[j], top)
    {
      RescoredToken(ks[i], h, topm, topk, e, top, j);
      ExactToken(ks[i], h, j);
    }
  }

  lemma ExactToken(k: Rank, h: seq<real>, j: nat)
    requires FitsRank(k, h) && j < |k.w|
    ensures ExactShard(k, h).logits[j] == ExactRow(k.w, h)[j]
  {
  }

  /** How one rank's columns compare is how the gathered columns compare. */
  lemma {:induction false} GatheredEntry(a: seq<Shard>, b: seq<Shard>, vocab: nat, top: real, g: nat)
    requires IsLayout(a, vocab) && IsLayout(b, vocab) && vocab <= |Gather(a)| && vocab <= |Gather(b)|
    requires NearRanks(a, b, top) && g < vocab
    ensures RowEntry(a, b, vocab, top, g)
  {
    var i, j := Locate(a, g, |a|);
    SameStarts(a, b, i);
    GatherAt(a, i, j);
    GatherAt(b, i, j);
    assert NearEntry(a[i].logits[j], b[i].logits[j], top);
  }

  predicate NearEntry(x: real, r: real, top: real) {
    r == x || (r < top && x < top)
  }

  lemma {:induction false} NearRanksKeepArgmax(exact: seq<Shard>, rescored: seq<Shard>, vocab: nat, p: Post, token: int)
    requires IsLayout(exact, vocab) && IsLayout(rescored, vocab)
    requires vocab <= |Gather(exact)| && vocab <= |Gather(rescored)| && Increasing(p)
    requires IsFirstMax(Forward(exact, vocab, p), token)
    requires NearRanks(exact, rescored, Gather(exact)[token])
    ensures IsFirstMax(Forward(rescored, vocab, p), token)
  {
    forall g: nat | g < vocab
      ensures RowEntry(exact, rescored, vocab, Gather(exact)[token], g)
    {
      GatheredEntry(exact, rescored, vocab, Gather(exact)[token], g);
    }
    EntriesKeepArgmax(exact, rescored, vocab, p, token);
  }

  ghost predicate RowEntry(exact: seq<Shard>, rescored: seq<Shard>, vocab: nat, top: real, g: nat)
    requires vocab <= |Gather(exact)| && vocab <= |Gather(rescored)| && g < vocab
  {
    NearEntry(Gather(exact)[g], Gather(rescored)[g], top)
  }

  lemma {:induction false} EntriesKeepArgmax(exact: seq<Shard>, rescored: seq<Shard>, vocab: nat, p: Post, token: int)
    requires vocab <= |Gather(exact)| && vocab <= |Gather(rescored)| && Increasing(p)
    requires IsFirstMax(Forward(exact, vocab, p), token)
    requires forall g: nat :: g < vocab ==> RowEntry(exact, rescored, vocab, Gather(exact)[token], g)
    ensures IsFirstMax(Forward(rescored, vocab, p), token)
  {
    var fx, fr := Forward(exact, vocab, p), Forward(rescored, vocab, p);
    var top := Gather(exact)[token];
    assert RowEntry(exact, rescored, vocab, top, token);
    forall g: nat | g < vocab
      ensures Beats(fr, token, g)
    {
      assert RowEntry(exact, rescored, vocab, top, g);
      assert Beats(fx, token, g);
      assert Gather(exact)[g] < top ==> Transform(p, Gather(exact)[g]) < Transform(p, top);
      assert Gather(rescored)[g] < top ==> Transform(p, Gather(rescored)[g]) < Transform(p, top);
    }
    FirstMaxByPairs(fr, token);
  }
}
