/**
 Greedy token choice over a vocabulary split across tensor-parallel ranks: the reduction of one
 (value, index) pair per rank against the argmax of the gathered logits.
 */
module VocabArgmax {
  import opened Wrappers

  datatype Result<+T> = Ok(value: T) | ValueError

  /** A logit, or the mask of a padding column. */
  datatype Logit = NegInf | Fin(value: real)

  predicate Less(a: Logit, b: Logit) {
    b.Fin? && (a.NegInf? || a.value < b.value)
  }

  /** One rank's row of logits; columns from `valid` on are vocabulary padding. */
  datatype Shard = Shard(logits: seq<real>, valid: nat)

  /** Soft cap and scale, applied to every logit on its own. */
  datatype Post = Post(cap: Option<real -> real>, scale: real)

  function Transform(p: Post, x: real): real {
    var capped := if p.cap.Some? then p.cap.value(x) else x;
    if p.scale != 1.0 then capped * p.scale else capped
  }

  /** Index of the first maximum. */
  predicate IsFirstMax(s: seq<Logit>, i: int) {
    && 0 <= i < |s|
    && (forall j :: 0 <= j < |s| ==> !Less(s[i], s[j]))
    && (forall j :: 0 <= j < i ==> Less(s[j], s[i]))
  }

  /** `i` is at least as good as `j`, and better if `j` comes first. */
  predicate Beats(s: seq<Logit>, i: int, j: int)
    requires 0 <= i < |s| && 0 <= j < |s|
  {
    !Less(s[i], s[j]) && (j < i ==> Less(s[j], s[i]))
  }

  lemma FirstMaxByPairs(s: seq<Logit>, i: int)
    requires 0 <= i < |s| && forall j :: 0 <= j < |s| ==> Beats(s, i, j)
    ensures IsFirstMax(s, i)
  {
    forall j | 0 <= j < |s| ensures !Less(s[i], s[j]) && (j < i ==> Less(s[j], s[i])) {
      assert Beats(s, i, j);
    }
  }

  lemma FirstMaxUnique(s: seq<Logit>, i: int, j: int)
    requires IsFirstMax(s, i) && IsFirstMax(s, j)
    ensures i == j
  {
    assert !Less(s[i], s[j]) && !Less(s[j], s[i]);
  }

  /** `max(dim=-1)` and `argmax`, ties going to the lower index. */
  method FirstMax(s: seq<Logit>) returns (best: int)
    requires s != []
    ensures IsFirstMax(s, best)
  {
    best := 0;
    for i := 1 to |s|
      invariant 0 <= best < i
      invariant IsFirstMax(s[..i], best)
    {
      if Less(s[best], s[i]) {
        best := i;
      }
    }
    assert s[..|s|] == s;
  }

  // ------------------------------------------------------------ the layout

  /** Vocabulary start of rank `i`. */
  function Start(shards: seq<Shard>, i: nat): nat
    requires i <= |shards|
  {
    if i == 0 then 0 else Start(shards, i - 1) + shards[i - 1].valid
  }

  function Gather(shards: seq<Shard>): seq<real> {
    if shards == [] then [] else Gather(shards[..|shards| - 1]) + shards[|shards| - 1].logits
  }

  predicate Padded(s: Shard) { s.valid < |s.logits| }

  predicate Empty(s: Shard) { s.valid == 0 }

  predicate PaddingLast(shards: seq<Shard>) {
    forall i, j :: 0 <= i < j < |shards| && Padded(shards[i]) ==> Empty(shards[j])
  }

  /** Ranks hold consecutive stretches of the vocabulary; padding comes after its last token only. */
  predicate IsLayout(shards: seq<Shard>, vocab: nat) {
    && 1 <= vocab && Start(shards, |shards|) == vocab
    && (forall i :: 0 <= i < |shards| ==> shards[i].valid <= |shards[i].logits| && shards[i].logits != [])
    && PaddingLast(shards)
  }

  /** What `forward` returns for a row: gather, cut to the vocabulary, soft cap, scale. */
  function Forward(shards: seq<Shard>, vocab: nat, p: Post): (row: seq<Logit>)
    requires vocab <= |Gather(shards)|
    ensures |row| == vocab
  {
    seq(vocab, g requires 0 <= g < vocab => Fin(Transform(p, Gather(shards)[g])))
  }

  /** A rank's own row after soft cap and scale, with its padding masked. */
  function Masked(s: Shard, p: Post): (row: seq<Logit>)
    ensures |row| == |s.logits|
  {
    seq(|s.logits|, j requires 0 <= j < |s.logits| => if j < s.valid then Fin(Transform(p, s.logits[j])) else NegInf)
  }

  lemma {:induction false} StartMonotone(shards: seq<Shard>, i: nat, j: nat)
    requires i <= j <= |shards|
    ensures Start(shards, i) <= Start(shards, j)
    ensures i < j ==> Start(shards, i) + shards[i].valid <= Start(shards, j)
  {
    if i < j {
      StartMonotone(shards, i, j - 1);
    }
  }

  lemma {:induction false} StartPrefix(shards: seq<Shard>, n: nat, i: nat)
    requires i <= n <= |shards|
    ensures Start(shards[..n], i) == Start(shards, i)
  {
    if i > 0 {
      StartPrefix(shards, n, i - 1);
    }
  }

  /** Column `j` of rank `i` is gathered to position start + j. */
  lemma {:induction false} GatherAt(shards: seq<Shard>, i: nat, j: nat)
    requires forall a :: 0 <= a < |shards| ==> shards[a].valid <= |shards[a].logits|
    requires PaddingLast(shards)
    requires i < |shards| && j < shards[i].valid
    ensures Start(shards, i) + j < |Gather(shards)|
    ensures Gather(shards)[Start(shards, i) + j] == shards[i].logits[j]
  {
    var n := |shards| - 1;
    var front := shards[..n];
    if i < n {
      GatherAt(front, i, j);
      StartPrefix(shards, n, i);
    } else {
      forall a | 0 <= a < n ensures shards[a].valid == |shards[a].logits| {
        assert Padded(shards[a]) ==> Empty(shards[i]);
      }
      GatherLength(shards, n);
    }
  }

  lemma {:induction false} GatherLength(shards: seq<Shard>, n: nat)
    requires n <= |shards|
    requires forall a :: 0 <= a < n ==> shards[a].valid == |shards[a].logits|
    ensures |Gather(shards[..n])| == Start(shards, n)
  {
    if n > 0 {
      assert shards[..n][..n - 1] == shards[..n - 1];
      GatherLength(shards, n - 1);
    }
  }

  /** Every token lives on exactly one rank. */
  lemma {:induction false} Locate(shards: seq<Shard>, g: nat, n: nat) returns (i: nat, j: nat)
    requires n <= |shards| && g < Start(shards, n)
    ensures i < n && j < shards[i].valid && g == Start(shards, i) + j
  {
    if g >= Start(shards, n - 1) {
      i, j := n - 1, g - Start(shards, n - 1);
    } else {
      i, j := Locate(shards, g, n - 1);
    }
  }

  lemma {:induction false} GatherCoversVocab(shards: seq<Shard>, vocab: nat)
    requires IsLayout(shards, vocab)
    ensures vocab <= |Gather(shards)|
  {
    var i, j := Locate(shards, vocab - 1, |shards|);
    GatherAt(shards, i, j);
  }

  // ------------------------------------------------------------ the reduction

  /** Each rank's maximum and its shard-local index. */
  predicate AreLocalMaxima(shards: seq<Shard>, p: Post, tops: seq<int>) {
    |tops| == |shards| && forall i :: 0 <= i < |shards| ==> IsFirstMax(Masked(shards[i], p), tops[i])
  }

  function LocalValues(shards: seq<Shard>, p: Post, tops: seq<int>): (vs: seq<Logit>)
    requires AreLocalMaxima(shards, p, tops)
    ensures |vs| == |shards|
  {
    seq(|shards|, i requires 0 <= i < |shards| => Masked(shards[i], p)[tops[i]])
  }

  /** Column `top` of `rank` is at least as good as column `j` of rank `i`, and better if that comes first. */
  predicate ColumnBeats(shards: seq<Shard>, p: Post, rank: nat, top: nat, i: nat, j: nat)
    requires rank < |shards| && top < |shards[rank].logits| && i < |shards| && j < |shards[i].logits|
  {
    var best, logit := Masked(shards[rank], p)[top], Masked(shards[i], p)[j];
    !Less(best, logit) && (i < rank || (i == rank && j < top) ==> Less(logit, best))
  }

  predicate BeatsColumns(shards: seq<Shard>, p: Post, rank: nat, top: nat)
    requires rank < |shards| && top < |shards[rank].logits|
  {
    forall i, j :: 0 <= i < |shards| && 0 <= j < |shards[i].logits| ==> ColumnBeats(shards, p, rank, top, i, j)
  }

  /** No token beats the one of the best rank, and no earlier token equals it. */
  lemma NotBeaten(shards: seq<Shard>, p: Post, tops: seq<int>, rank: int, i: nat, j: nat)
    requires AreLocalMaxima(shards, p, tops) && IsFirstMax(LocalValues(shards, p, tops), rank)
    requires i < |shards| && j < |shards[i].logits|
    ensures ColumnBeats(shards, p, rank, tops[rank], i, j)
  {
    var values := LocalValues(shards, p, tops);
    assert IsFirstMax(Masked(shards[i], p), tops[i]);
    assert !Less(values[i], Masked(shards[i], p)[j]);
    assert !Less(values[rank], values[i]);
    assert i < rank ==> Less(values[i], values[rank]);
  }

  /** The token of the rank with the greatest maximum is the first argmax of the gathered row. */
  lemma {:induction false} RankMaximaSuffice(shards: seq<Shard>, vocab: nat, p: Post, tops: seq<int>, rank: int)
    requires IsLayout(shards, vocab) && AreLocalMaxima(shards, p, tops)
    requires vocab <= |Gather(shards)|
    requires IsFirstMax(LocalValues(shards, p, tops), rank)
    ensures IsFirstMax(Forward(shards, vocab, p), Start(shards, rank) + tops[rank])
  {
    WinnerIsToken(shards, vocab, p, tops, rank);
    forall i, j | 0 <= i < |shards| && 0 <= j < |shards[i].logits|
      ensures ColumnBeats(shards, p, rank, tops[rank], i, j)
    {
      NotBeaten(shards, p, tops, rank, i, j);
    }
    BestColumnIsFirstMax(shards, vocab, p, rank, tops[rank]);
  }

  lemma {:induction false} BestColumnIsFirstMax(shards: seq<Shard>, vocab: nat, p: Post, rank: nat, top: nat)
    requires IsLayout(shards, vocab) && vocab <= |Gather(shards)|
    requires rank < |shards| && top < shards[rank].valid && BeatsColumns(shards, p, rank, top)
    ensures IsFirstMax(Forward(shards, vocab, p), Start(shards, rank) + top)
  {
    TokenOfRank(shards, vocab, p, rank, top);
    var row, best := Forward(shards, vocab, p), Start(shards, rank) + top;
    forall g: nat | g < vocab
      ensures Beats(row, best, g)
    {
      TokenAgainstWinner(shards, vocab, p, rank, top, g);
    }
    FirstMaxByPairs(row, best);
  }

  /** The best rank's maximum is a real token: some token beats every padding column. */
  lemma WinnerIsToken(shards: seq<Shard>, vocab: nat, p: Post, tops: seq<int>, rank: int)
    requires IsLayout(shards, vocab) && AreLocalMaxima(shards, p, tops)
    requires IsFirstMax(LocalValues(shards, p, tops), rank)
    ensures 0 <= tops[rank] < shards[rank].valid
  {
    var i, j := Locate(shards, 0, |shards|);
    NotBeaten(shards, p, tops, rank, i, j);
    assert Masked(shards[i], p)[j].Fin?;
    assert IsFirstMax(Masked(shards[rank], p), tops[rank]);
  }

  lemma {:induction false} TokenAgainstWinner(shards: seq<Shard>, vocab: nat, p: Post, rank: nat, top: nat, g: nat)
    requires IsLayout(shards, vocab) && vocab <= |Gather(shards)| && g < vocab
    requires rank < |shards| && top < shards[rank].valid && BeatsColumns(shards, p, rank, top)
    ensures var row, best := Forward(shards, vocab, p), Start(shards, rank) + top;
            best < vocab && Beats(row, best, g)
  {
    var i, j := Locate(shards, g, |shards|);
    TokenOfRank(shards, vocab, p, rank, top);
    TokenOfRank(shards, vocab, p, i, j);
    assert ColumnBeats(shards, p, rank, top, i, j);
    if g < Start(shards, rank) + top {
      EarlierToken(shards, i, j, rank, top);
    }
  }

  /** Tokens come in the order of their ranks. */
  lemma {:induction false} EarlierToken(shards: seq<Shard>, i: nat, j: nat, rank: nat, top: nat)
    requires i < |shards| && rank < |shards| && j < shards[i].valid && top < shards[rank].valid
    requires Start(shards, i) + j < Start(shards, rank) + top
    ensures i < rank || (i == rank && j < top)
  {
    if rank < i {
      StartMonotone(shards, rank, i);
    }
  }

  lemma TokenOfRank(shards: seq<Shard>, vocab: nat, p: Post, i: nat, j: nat)
    requires IsLayout(shards, vocab) && vocab <= |Gather(shards)|
    requires i < |shards| && j < shards[i].valid
    ensures Start(shards, i) + j < vocab
    ensures Forward(shards, vocab, p)[Start(shards, i) + j] == Masked(shards[i], p)[j]
  {
    GatherAt(shards, i, j);
    StartMonotone(shards, i + 1, |shards|);
  }

  /** Column by column, what `forward` returns: the logit of the rank that holds the column, soft-capped first
      and scaled then. */
  lemma ForwardExact(shards: seq<Shard>, vocab: nat, p: Post, i: nat, j: nat)
    requires IsLayout(shards, vocab) && vocab <= |Gather(shards)|
    requires i < |shards| && j < shards[i].valid
    ensures Start(shards, i) + j < vocab
    ensures var x := shards[i].logits[j];
            Forward(shards, vocab, p)[Start(shards, i) + j] == Fin((if p.cap.Some? then p.cap.value(x) else x) * p.scale)
  {
    TokenOfRank(shards, vocab, p, i, j);
  }

  /** Indices travel between ranks as single-precision numbers, exact up to 2^24. */
  predicate IsFloat32(f32: int -> int, vocab: nat)
    requires vocab <= 0x100_0000
  {
    forall n :: 0 <= n <= vocab ==> f32(n) == n
  }

  method LocalMaxima(shards: seq<Shard>, p: Post) returns (tops: seq<int>)
    requires forall i :: 0 <= i < |shards| ==> shards[i].logits != []
    ensures AreLocalMaxima(shards, p, tops)
  {
    tops := [];
    for i := 0 to |shards|
      invariant |tops| == i
      invariant forall k :: 0 <= k < i ==> IsFirstMax(Masked(shards[k], p), tops[k])
    {
      var top := FirstMax(Masked(shards[i], p));
      tops := tops + [top];
    }
  }

  /** Vocab-parallel argmax equals gathered argmax, whatever soft cap and scale do to a single logit; a
      scale that is not positive is refused, although the result would be the same. */
  method TopToken(shards: seq<Shard>, vocab: nat, p: Post, f32: int -> int) returns (r: Result<int>)
    requires IsLayout(shards, vocab) && vocab <= 0x100_0000 && IsFloat32(f32, vocab)
    ensures vocab <= |Gather(shards)|
    ensures r.Ok? <==> p.scale > 0.0
    ensures r.Ok? ==> IsFirstMax(Forward(shards, vocab, p), r.value)
  {
    GatherCoversVocab(shards, vocab);
    if p.scale <= 0.0 && p.scale != 1.0 {
      return ValueError;
    }
    var tops := LocalMaxima(shards, p);
    var rank := 0;
    if |shards| == 1 {
      assert IsFirstMax(LocalValues(shards, p, tops), 0);
      RankMaximaSuffice(shards, vocab, p, tops, 0);
      return Ok(tops[0] + Start(shards, 0));
    }
    rank := FirstMax(LocalValues(shards, p, tops));
    RankMaximaSuffice(shards, vocab, p, tops, rank);
    r := Ok(f32(Start(shards, rank) + tops[rank]));
  }

  /** The single-precision number nearest to an integer below 2^25: from 2^24 on only even numbers
      remain, and a tie goes to the one with an even significand. */
  function Float32(n: int): int
    requires 0 <= n < 0x200_0000
  {
    if n <= 0x100_0000 || n % 2 == 0 then n
    else if (n - 1) % 4 == 0 then n - 1
    else n + 1
  }

  /** An integer that single precision holds, below 2^25. */
  predicate Held(n: int) { 0 <= n <= 0x200_0000 && (n <= 0x100_0000 || n % 2 == 0) }

  /** It is the nearest number held, and of two equally near ones the one that is a multiple of four. */
  lemma Float32Exact(n: int)
    requires 0 <= n < 0x200_0000
    ensures Held(Float32(n))
    ensures forall m :: Held(m) ==> Apart(Float32(n), n) <= Apart(m, n)
    ensures forall m :: Held(m) && m != Float32(n) && Apart(m, n) == Apart(Float32(n), n) ==> Float32(n) % 4 == 0
  {
    forall m | Held(m)
      ensures Apart(Float32(n), n) <= Apart(m, n)
      ensures m != Float32(n) && Apart(m, n) == Apart(Float32(n), n) ==> Float32(n) % 4 == 0
    {
      NearestHeld(n, m);
    }
    OddHasNeighbours(n);
  }

  lemma OddHasNeighbours(n: int)
    requires 0 <= n < 0x200_0000
    ensures Held(Float32(n))
    ensures n > 0x100_0000 && n % 2 == 1 ==> Apart(Float32(n), n) == 1 && Float32(n) % 4 == 0
  {
    ParityInFours(n);
    ParityInFours(Float32(n));
    if n > 0x100_0000 && n % 4 == 3 {
      assert (n + 1) % 4 == 0;
    }
  }

  lemma ParityInFours(n: int)
    ensures n % 2 == n % 4 % 2
  {
    var q, r := n / 4, n % 4;
    assert n == 4 * q + r;
    Remainder(n, 2 * q + r / 2, r % 2);
  }

  lemma Remainder(n: int, q: int, r: int)
    requires n == 2 * q + r && 0 <= r < 2
    ensures n % 2 == r
  {
  }

  lemma NearestHeld(n: int, m: int)
    requires 0 <= n < 0x200_0000 && Held(m)
    ensures Apart(Float32(n), n) <= Apart(m, n)
    ensures m != Float32(n) && Apart(m, n) == Apart(Float32(n), n) ==> Float32(n) % 4 == 0
  {
    OddHasNeighbours(n);
  }

  function Apart(a: int, b: int): int { if a <= b then b - a else a - b }

  /** Why the vocabulary is limited: beyond 2^24 exactly the tokens of odd index are lost. */
  lemma {:induction false} OddTokensLost(shards: seq<Shard>, vocab: nat, p: Post, token: int)
    requires vocab <= |Gather(shards)| && IsFirstMax(Forward(shards, vocab, p), token) && token < 0x200_0000
    ensures IsFirstMax(Forward(shards, vocab, p), Float32(token)) <==> token <= 0x100_0000 || token % 2 == 0
  {
    if IsFirstMax(Forward(shards, vocab, p), Float32(token)) {
      FirstMaxUnique(Forward(shards, vocab, p), token, Float32(token));
    }
  }
}
