/**
 The batched matrix product used at decode time: a grid of programs, each accumulating one tile of
 the result over blocks of K with masked loads and storing it through a strided view.
 Arithmetic is exact; one flat memory holds the inputs and the output.
 */
module TiledBmm {
  import opened MixedRadix

  /** A rank-3 view of the memory: where element (i, j, k) lives. */
  datatype View = View(at: (int, int, int) -> int)

  /** The views the kernel is launched with: a base address and a stride for each dimension. */
  function Strided(base: int, stride0: int, stride1: int, stride2: int): View {
    View((i, j, k) => base + i * stride0 + j * stride1 + k * stride2)
  }

  function Addr(v: View, i: int, j: int, k: int): int { v.at(i, j, k) }

  /** `out[z, m, n] = sum over k of a[z, m, k] * b[z, k, n]`. */
  datatype Problem = Problem(z: nat, m: nat, k: nat, n: nat, a: View, b: View, out: View)

  // ------------------------------------------------------------ configuration

  const BLOCK_K := 64

  function BlockN(p: Problem): (r: nat)
    ensures r > 0
  {
    if p.n >= 512 then 128 else 64
  }

  predicate IsPow2(x: nat) {
    x == 1 || (x > 0 && x % 2 == 0 && IsPow2(x / 2))
  }

  /** Doubles `from` until it reaches `m`. */
  function PowerAtLeast(m: nat, from: nat): (r: nat)
    requires from > 0
    decreases m - from
  {
    if from >= m then from else PowerAtLeast(m, 2 * from)
  }

  function BlockM(p: Problem): nat {
    var power := PowerAtLeast(p.m, 1);
    if power > 8 then power else 8
  }

  function TileStart(p: Problem, t: nat): nat { t * BlockN(p) }

  /** Column `n` belongs to tile `t`. */
  predicate InTile(p: Problem, t: nat, n: int) {
    TileStart(p, t) <= n < TileStart(p, t) + BlockN(p)
  }

  function Tiles(p: Problem): nat { (p.n + BlockN(p) - 1) / BlockN(p) }

  predicate InGrid(p: Problem, id: (nat, nat)) { id.0 < p.z && id.1 < Tiles(p) }

  lemma {:induction false} PowerAtLeastIsPow2(m: nat, from: nat)
    requires IsPow2(from)
    ensures IsPow2(PowerAtLeast(m, from)) && PowerAtLeast(m, from) >= m
    ensures PowerAtLeast(m, from) == from || PowerAtLeast(m, from) < 2 * m
    decreases m - from
  {
    if from < m {
      assert IsPow2(2 * from) by { assert (2 * from) % 2 == 0 && 2 * from / 2 == from; }
      PowerAtLeastIsPow2(m, 2 * from);
    }
  }

  /** A row block is a power of two, as a block range must be, and covers every row; it is eight or the least
      that does. */
  lemma RowBlockCovers(p: Problem)
    ensures IsPow2(BlockM(p)) && BlockM(p) >= p.m && BlockM(p) >= 8 && (BlockM(p) == 8 || BlockM(p) < 2 * p.m)
  {
    PowerAtLeastIsPow2(p.m, 1);
    assert IsPow2(8) by { assert IsPow2(4) by { assert IsPow2(2); } }
  }

  /** Each output column lies in exactly one tile, and that tile is in the grid. */
  lemma OneTile(p: Problem, n: nat) returns (t: nat)
    requires n < p.n
    ensures t < Tiles(p) && InTile(p, t, n)
    ensures forall u: nat :: InTile(p, u, n) ==> u == t
  {
    var bn := BlockN(p);
    t := n / bn;
    QuotientBelow(n, p.n, bn);
    forall u: nat | InTile(p, u, n) ensures u == t {
      QuotientUnique(n, bn, u);
    }
  }

  lemma QuotientBelow(n: nat, total: nat, d: nat)
    requires n < total && d > 0
    ensures n / d < (total + d - 1) / d && (n / d) * d <= n < (n / d) * d + d
  {
    var q2, r2 := (total + d - 1) / d, (total + d - 1) % d;
    assert total + d - 1 == q2 * d + r2;
    assert n == (n / d) * d + n % d;
    LessFactor(n / d, q2, d);
  }

  // ------------------------------------------------------------ placement

  ghost predicate InRange(v: View, d0: nat, d1: nat, d2: nat, length: nat) {
    forall i, j, k :: 0 <= i < d0 && 0 <= j < d1 && 0 <= k < d2 ==> 0 <= Addr(v, i, j, k) < length
  }

  /** Address `q` is an element of a view of the given shape. */
  ghost predicate Holds(v: View, d0: nat, d1: nat, d2: nat, q: int) {
    exists i, j, k :: 0 <= i < d0 && 0 <= j < d1 && 0 <= k < d2 && Addr(v, i, j, k) == q
  }

  /** No two output elements share an address. */
  ghost predicate Injective(p: Problem) {
    forall z, m, n, z', m', n' ::
      (0 <= z < p.z && 0 <= m < p.m && 0 <= n < p.n && 0 <= z' < p.z && 0 <= m' < p.m && 0 <= n' < p.n
       && Addr(p.out, z, m, n) == Addr(p.out, z', m', n')) ==> z == z' && m == m' && n == n'
  }

  ghost predicate IsOutput(p: Problem, q: int) { Holds(p.out, p.z, p.m, p.n, q) }

  ghost predicate IsInput(p: Problem, q: int) {
    Holds(p.a, p.z, p.m, p.k, q) || Holds(p.b, p.z, p.k, p.n, q)
  }

  ghost predicate Readable(p: Problem, length: nat) {
    InRange(p.a, p.z, p.m, p.k, length) && InRange(p.b, p.z, p.k, p.n, length)
  }

  /** What the kernel needs of its caller: every element inside the memory, the output view injective
      and disjoint from both inputs. Inputs may overlap, repeat or be transposed. */
  ghost predicate WellPlaced(p: Problem, length: nat) {
    && Readable(p, length)
    && InRange(p.out, p.z, p.m, p.n, length)
    && Injective(p)
    && forall q :: IsOutput(p, q) ==> !IsInput(p, q)
  }

  ghost predicate SameInputs(p: Problem, x: seq<real>, y: seq<real>)
    requires Readable(p, |x|)
  {
    && |x| == |y|
    && (forall z, m, k :: 0 <= z < p.z && 0 <= m < p.m && 0 <= k < p.k ==> x[Addr(p.a, z, m, k)] == y[Addr(p.a, z, m, k)])
    && (forall z, k, n :: 0 <= z < p.z && 0 <= k < p.k && 0 <= n < p.n ==> x[Addr(p.b, z, k, n)] == y[Addr(p.b, z, k, n)])
  }

  // ------------------------------------------------------------ what is computed

  /** The first `k` terms of the inner product. */
  function Sum(p: Problem, mem: seq<real>, z: nat, m: nat, n: nat, k: nat): real
    requires Readable(p, |mem|)
    requires z < p.z && m < p.m && n < p.n && k <= p.k
  {
    if k == 0 then 0.0
    else Sum(p, mem, z, m, n, k - 1) + mem[Addr(p.a, z, m, k - 1)] * mem[Addr(p.b, z, k - 1, n)]
  }

  type Tile = seq<seq<real>>

  ghost predicate Shaped(t: Tile, rows: nat, cols: nat) {
    |t| == rows && forall i :: 0 <= i < rows ==> |t[i]| == cols
  }

  /** A masked block load: zero beyond `rowLimit` or `colLimit`, and only elements inside are read. */
  function Load(mem: seq<real>, v: View, z: nat, r0: nat, rows: nat, rowLimit: nat,
                c0: nat, cols: nat, colLimit: nat): (t: Tile)
    requires forall i, j :: 0 <= i < rowLimit && 0 <= j < colLimit ==> 0 <= Addr(v, z, i, j) < |mem|
    ensures Shaped(t, rows, cols)
  {
    seq(rows, i requires 0 <= i < rows => seq(cols, j requires 0 <= j < cols =>
      if r0 + i < rowLimit && c0 + j < colLimit then mem[Addr(v, z, r0 + i, c0 + j)] else 0.0))
  }

  function DotCell(x: Tile, y: Tile, i: nat, j: nat, l: nat): real
    requires i < |x| && l <= |x[i]| && l <= |y|
    requires forall r :: 0 <= r < |y| ==> j < |y[r]|
  {
    if l == 0 then 0.0 else DotCell(x, y, i, j, l - 1) + x[i][l - 1] * y[l - 1][j]
  }

  /** `acc += dot(x, y)`. */
  function Accumulate(acc: Tile, x: Tile, y: Tile, rows: nat, inner: nat, cols: nat): (t: Tile)
    requires Shaped(acc, rows, cols) && Shaped(x, rows, inner) && Shaped(y, inner, cols)
    ensures Shaped(t, rows, cols)
  {
    seq(rows, i requires 0 <= i < rows => seq(cols, j requires 0 <= j < cols =>
      acc[i][j] + DotCell(x, y, i, j, inner)))
  }

  function Zeros(rows: nat, cols: nat): (t: Tile)
    ensures Shaped(t, rows, cols)
  {
    seq(rows, _ => seq(cols, _ => 0.0))
  }

  function LoadA(p: Problem, mem: seq<real>, z: nat, k0: nat): Tile
    requires InRange(p.a, p.z, p.m, p.k, |mem|) && z < p.z
  {
    Load(mem, p.a, z, 0, BlockM(p), p.m, k0, BLOCK_K, p.k)
  }

  function LoadB(p: Problem, mem: seq<real>, z: nat, t: nat, k0: nat): Tile
    requires InRange(p.b, p.z, p.k, p.n, |mem|) && z < p.z
  {
    Load(mem, p.b, z, k0, BLOCK_K, p.k, TileStart(p, t), BlockN(p), p.n)
  }

  /** One iteration of the K loop. */
  function Advance(p: Problem, mem: seq<real>, z: nat, t: nat, k0: nat, acc: Tile): (r: Tile)
    requires Readable(p, |mem|) && z < p.z
    requires Shaped(acc, BlockM(p), BlockN(p))
    ensures Shaped(r, BlockM(p), BlockN(p))
  {
    Accumulate(acc, LoadA(p, mem, z, k0), LoadB(p, mem, z, t, k0), BlockM(p), BLOCK_K, BlockN(p))
  }

  function Upto(p: Problem, k: nat): nat { if k < p.k then k else p.k }

  /** The accumulator of program (z, t) holds the first `k0` terms of each of its output elements. */
  ghost predicate IsPartial(p: Problem, mem: seq<real>, z: nat, t: nat, acc: Tile, k0: nat)
    requires Readable(p, |mem|) && z < p.z
  {
    && Shaped(acc, BlockM(p), BlockN(p))
    && p.m <= BlockM(p)
    && forall m, n :: 0 <= m < p.m && 0 <= n < p.n && InTile(p, t, n) ==>
         acc[m][n - TileStart(p, t)] == Sum(p, mem, z, m, n, Upto(p, k0))
  }

  /** Row and column of the blocks `x` and `y` hold the next factors of output element (z, m, n). */
  ghost predicate HoldsFactors(p: Problem, mem: seq<real>, z: nat, t: nat, m: nat, n: nat, k0: nat, x: Tile, y: Tile)
    requires Readable(p, |mem|) && z < p.z && m < p.m && n < p.n && InTile(p, t, n)
  {
    var j := n - TileStart(p, t);
    && m < |x| && |x[m]| == |y| == BLOCK_K
    && (forall r :: 0 <= r < |y| ==> j < |y[r]|)
    && forall r :: 0 <= r < BLOCK_K ==>
         if k0 + r < p.k
         then x[m][r] == mem[Addr(p.a, z, m, k0 + r)] && y[r][j] == mem[Addr(p.b, z, k0 + r, n)]
         else x[m][r] == 0.0
  }

  /** What the masked loads bring in. `now` may differ from `mem` wherever no input lives. */
  lemma LoadsHoldFactors(p: Problem, mem: seq<real>, now: seq<real>, z: nat, t: nat, m: nat, n: nat, k0: nat, x: Tile, y: Tile)
    requires Readable(p, |mem|) && SameInputs(p, mem, now)
    requires z < p.z && m < p.m <= BlockM(p) && n < p.n && InTile(p, t, n)
    requires x == LoadA(p, now, z, k0) && y == LoadB(p, now, z, t, k0)
    ensures HoldsFactors(p, mem, z, t, m, n, k0, x, y)
  {
  }

  /** The dot product of two masked blocks is the next stretch of the inner product: the masked tail
      of the last block adds nothing. */
  lemma {:induction false} DotExtendsSum(p: Problem, mem: seq<real>, z: nat, t: nat, m: nat, n: nat, k0: nat,
                                         x: Tile, y: Tile, l: nat)
    requires Readable(p, |mem|) && z < p.z && m < p.m && n < p.n && InTile(p, t, n) && k0 <= p.k && l <= BLOCK_K
    requires HoldsFactors(p, mem, z, t, m, n, k0, x, y)
    ensures Sum(p, mem, z, m, n, Upto(p, k0 + l)) == Sum(p, mem, z, m, n, k0) + DotCell(x, y, m, n - TileStart(p, t), l)
  {
    if l > 0 {
      DotExtendsSum(p, mem, z, t, m, n, k0, x, y, l - 1);
      assert k0 + (l - 1) >= p.k ==> x[m][l - 1] * y[l - 1][n - TileStart(p, t)] == 0.0;
    }
  }

  lemma FactorsExtendPartial(p: Problem, mem: seq<real>, z: nat, t: nat, k0: nat, acc: Tile, x: Tile, y: Tile, next: Tile)
    requires Readable(p, |mem|) && z < p.z && k0 < p.k && IsPartial(p, mem, z, t, acc, k0)
    requires Shaped(x, BlockM(p), BLOCK_K) && Shaped(y, BLOCK_K, BlockN(p))
    requires next == Accumulate(acc, x, y, BlockM(p), BLOCK_K, BlockN(p))
    requires forall m, n :: 0 <= m < p.m && 0 <= n < p.n && InTile(p, t, n) ==>
               HoldsFactors(p, mem, z, t, m, n, k0, x, y)
    ensures IsPartial(p, mem, z, t, next, k0 + BLOCK_K)
  {
    forall m, n | 0 <= m < p.m && 0 <= n < p.n && InTile(p, t, n)
      ensures next[m][n - TileStart(p, t)] == Sum(p, mem, z, m, n, Upto(p, k0 + BLOCK_K))
    {
      DotExtendsSum(p, mem, z, t, m, n, k0, x, y, BLOCK_K);
    }
  }

  lemma AdvanceKeepsPartial(p: Problem, mem: seq<real>, now: seq<real>, z: nat, t: nat, k0: nat, acc: Tile, next: Tile)
    requires Readable(p, |mem|) && SameInputs(p, mem, now) && z < p.z && k0 < p.k
    requires IsPartial(p, mem, z, t, acc, k0) && next == Advance(p, now, z, t, k0, acc)
    ensures IsPartial(p, mem, z, t, next, k0 + BLOCK_K)
  {
    var x, y := LoadA(p, now, z, k0), LoadB(p, now, z, t, k0);
    forall m, n | 0 <= m < p.m && 0 <= n < p.n && InTile(p, t, n)
      ensures HoldsFactors(p, mem, z, t, m, n, k0, x, y)
    {
      LoadsHoldFactors(p, mem, now, z, t, m, n, k0, x, y);
    }
    FactorsExtendPartial(p, mem, z, t, k0, acc, x, y, next);
  }

  lemma ZerosArePartial(p: Problem, mem: seq<real>, z: nat, t: nat)
    requires WellPlaced(p, |mem|) && z < p.z
    ensures IsPartial(p, mem, z, t, Zeros(BlockM(p), BlockN(p)), 0)
  {
    RowBlockCovers(p);
  }

  // ------------------------------------------------------------ what is stored

  /** Address `q` is an output element of program (z, t). */
  ghost predicate Owns(p: Problem, id: (nat, nat), q: int) {
    exists m, n :: 0 <= m < p.m && 0 <= n < p.n && InTile(p, id.1, n) && Addr(p.out, id.0, m, n) == q
  }

  /** The output elements of program (z, t) are the exact products of the inputs in `init`. */
  ghost predicate Finished(p: Problem, init: seq<real>, mem: seq<real>, id: (nat, nat))
    requires WellPlaced(p, |init|) && |mem| == |init| && id.0 < p.z
  {
    forall m, n :: 0 <= m < p.m && 0 <= n < p.n && InTile(p, id.1, n) ==>
      mem[Addr(p.out, id.0, m, n)] == Sum(p, init, id.0, m, n, p.k)
  }

  ghost predicate OnlyOwned(p: Problem, before: seq<real>, after: seq<real>, id: (nat, nat)) {
    |after| == |before| && forall q :: 0 <= q < |before| && !Owns(p, id, q) ==> after[q] == before[q]
  }

  /** The masked store of an accumulator. */
  ghost predicate Stored(p: Problem, before: seq<real>, after: seq<real>, id: (nat, nat), acc: Tile)
    requires WellPlaced(p, |before|) && id.0 < p.z && Shaped(acc, BlockM(p), BlockN(p)) && p.m <= BlockM(p)
  {
    && OnlyOwned(p, before, after, id)
    && forall m, n :: 0 <= m < p.m && 0 <= n < p.n && InTile(p, id.1, n) ==>
         after[Addr(p.out, id.0, m, n)] == acc[m][n - TileStart(p, id.1)]
  }

  /** Every output element belongs to exactly one program of the grid. */
  lemma OneWriter(p: Problem, length: nat, q: int) returns (id: (nat, nat))
    requires WellPlaced(p, length) && IsOutput(p, q)
    ensures InGrid(p, id) && Owns(p, id, q)
    ensures forall other :: InGrid(p, other) && Owns(p, other, q) ==> other == id
  {
    var z, m, n :| 0 <= z < p.z && 0 <= m < p.m && 0 <= n < p.n && Addr(p.out, z, m, n) == q;
    var t := OneTile(p, n);
    id := (z, t);
    forall other | InGrid(p, other) && Owns(p, other, q) ensures other == id {
      var m', n' :| 0 <= m' < p.m && 0 <= n' < p.n && InTile(p, other.1, n') && Addr(p.out, other.0, m', n') == q;
      assert n' == n;
    }
  }

  lemma Within(i: int, count: int, s: int, s': int)
    requires 0 <= i < count && s >= 1 && s' >= count * s
    ensures 0 <= i * s <= s' - s
  {
    MulMonotone(i + 1, count, s);
    assert (i + 1) * s == i * s + s;
  }

  /** Output strides that nest leave no two elements at one address, whichever of the first two
      dimensions is the outer one: contiguous outputs, and the transposed ones of the call sites. */
  lemma NestedStridesAreInjective(p: Problem, base: int, s0: nat, s1: nat, s2: nat)
    requires p.out == Strided(base, s0, s1, s2) && s2 >= 1
    requires (s1 >= p.n * s2 && s0 >= p.m * s1) || (s0 >= p.n * s2 && s1 >= p.z * s0)
    ensures Injective(p)
  {
    forall z, m, n, z', m', n' |
      0 <= z < p.z && 0 <= m < p.m && 0 <= n < p.n && 0 <= z' < p.z && 0 <= m' < p.m && 0 <= n' < p.n
      && Addr(p.out, z, m, n) == Addr(p.out, z', m', n')
      ensures z == z' && m == m' && n == n'
    {
      if s1 >= p.n * s2 && s0 >= p.m * s1 {
        NestedDigits(z, m, n, z', m', n', s0, s1, s2, p.m, p.n);
      } else {
        NestedDigits(m, z, n, m', z', n', s1, s0, s2, p.z, p.n);
      }
    }
  }

  lemma NestedDigits(x: int, y: int, n: int, x': int, y': int, n': int, outer: nat, middle: nat, inner: nat, ys: nat, ns: nat)
    requires 0 <= y < ys && 0 <= y' < ys && 0 <= n < ns && 0 <= n' < ns
    requires inner >= 1 && middle >= ns * inner && outer >= ys * middle
    requires x * outer + y * middle + n * inner == x' * outer + y' * middle + n' * inner
    ensures x == x' && y == y' && n == n'
  {
    Within(n, ns, inner, middle);
    Within(n', ns, inner, middle);
    Within(y, ys, middle, outer);
    Within(y', ys, middle, outer);
    SameDigits(x, y * middle + n * inner, x', y' * middle + n' * inner, outer);
    SameDigits(y, n * inner, y', n' * inner, middle);
    SameDigits(n, 0, n', 0, inner);
  }

  /** What `bmm` promises: every output element is the full inner product of the original inputs and
      nothing else in memory has changed. */
  ghost predicate IsBmm(p: Problem, init: seq<real>, mem: seq<real>)
    requires WellPlaced(p, |init|)
  {
    && |mem| == |init|
    && (forall z, m, n :: 0 <= z < p.z && 0 <= m < p.m && 0 <= n < p.n ==>
          mem[Addr(p.out, z, m, n)] == Sum(p, init, z, m, n, p.k))
    && InputsSame(p, init, mem)
  }

  // ------------------------------------------------------------ any interleaving of the programs

  datatype Program = Program(k0: nat, acc: Tile, stored: bool)
  datatype Grid = Grid(mem: seq<real>, programs: map<(nat, nat), Program>)

  /** One program moves: another block of K, or its store. */
  ghost predicate Step(p: Problem, g: Grid, g': Grid, id: (nat, nat))
    requires WellPlaced(p, |g.mem|)
  {
    && InGrid(p, id)
    && id in g.programs
    && var s := g.programs[id];
    && !s.stored
    && Shaped(s.acc, BlockM(p), BlockN(p))
    && p.m <= BlockM(p)
    && if s.k0 < p.k then
         g' == Grid(g.mem, g.programs[id := Program(s.k0 + BLOCK_K, Advance(p, g.mem, id.0, id.1, s.k0, s.acc), false)])
       else
         && Stored(p, g.mem, g'.mem, id, s.acc)
         && g'.programs == g.programs[id := s.(stored := true)]
  }

  ghost predicate Launched(p: Problem, init: seq<real>, g: Grid) {
    && g.mem == init
    && (forall id :: id in g.programs <==> InGrid(p, id))
    && forall id :: id in g.programs ==> g.programs[id] == Program(0, Zeros(BlockM(p), BlockN(p)), false)
  }

  /** Memory outside the output still holds what it held at the start. */
  ghost predicate InputsSame(p: Problem, init: seq<real>, mem: seq<real>)
    requires |mem| == |init|
  {
    forall q :: 0 <= q < |init| && !IsOutput(p, q) ==> mem[q] == init[q]
  }

  ghost predicate GridInv(p: Problem, init: seq<real>, g: Grid)
    requires WellPlaced(p, |init|)
  {
    && |g.mem| == |init|
    && InputsSame(p, init, g.mem)
    && (forall id :: id in g.programs <==> InGrid(p, id))
    && (forall id :: id in g.programs ==> IsPartial(p, init, id.0, id.1, g.programs[id].acc, g.programs[id].k0))
    && (forall id :: id in g.programs && g.programs[id].stored ==> Finished(p, init, g.mem, id))
  }

  /** A store by one program leaves what another has finished. */
  lemma FinishedSurvives(p: Problem, init: seq<real>, before: seq<real>, after: seq<real>, id: (nat, nat), other: (nat, nat))
    requires WellPlaced(p, |init|) && |before| == |init| && InGrid(p, id) && InGrid(p, other) && id != other
    requires OnlyOwned(p, before, after, id) && Finished(p, init, before, other)
    ensures Finished(p, init, after, other)
  {
    forall m, n | 0 <= m < p.m && 0 <= n < p.n && InTile(p, other.1, n)
      ensures after[Addr(p.out, other.0, m, n)] == Sum(p, init, other.0, m, n, p.k)
    {
      var q := Addr(p.out, other.0, m, n);
      assert IsOutput(p, q) && Owns(p, other, q);
      var writer := OneWriter(p, |init|, q);
      assert !Owns(p, id, q);
    }
  }

  lemma OwnedAreOutputs(p: Problem, id: (nat, nat))
    requires id.0 < p.z
    ensures forall q :: Owns(p, id, q) ==> IsOutput(p, q)
  {
    forall q | Owns(p, id, q) ensures IsOutput(p, q) {
      var m, n :| 0 <= m < p.m && 0 <= n < p.n && InTile(p, id.1, n) && Addr(p.out, id.0, m, n) == q;
    }
  }

  lemma InputsAreKept(p: Problem, init: seq<real>, now: seq<real>)
    requires WellPlaced(p, |init|) && |now| == |init|
    requires InputsSame(p, init, now)
    ensures SameInputs(p, init, now)
  {
    forall z, m, k | 0 <= z < p.z && 0 <= m < p.m && 0 <= k < p.k ensures !IsOutput(p, Addr(p.a, z, m, k)) {
      assert IsInput(p, Addr(p.a, z, m, k));
    }
    forall z, k, n | 0 <= z < p.z && 0 <= k < p.k && 0 <= n < p.n ensures !IsOutput(p, Addr(p.b, z, k, n)) {
      assert IsInput(p, Addr(p.b, z, k, n));
    }
  }

  lemma StoreFinishes(p: Problem, init: seq<real>, before: seq<real>, after: seq<real>, id: (nat, nat), acc: Tile, k0: nat)
    requires WellPlaced(p, |init|) && |before| == |init| && id.0 < p.z && k0 >= p.k
    requires IsPartial(p, init, id.0, id.1, acc, k0) && Stored(p, before, after, id, acc)
    ensures Finished(p, init, after, id)
  {
  }

  /** Progress of one program that stores nothing. */
  lemma ProgressKeepsInv(p: Problem, init: seq<real>, g: Grid, id: (nat, nat), next: Program)
    requires WellPlaced(p, |init|) && GridInv(p, init, g) && id in g.programs && !next.stored
    requires IsPartial(p, init, id.0, id.1, next.acc, next.k0)
    ensures GridInv(p, init, Grid(g.mem, g.programs[id := next]))
  {
  }

  lemma BlockStepKeepsInv(p: Problem, init: seq<real>, g: Grid, id: (nat, nat), next: Tile)
    requires WellPlaced(p, |init|) && GridInv(p, init, g) && id in g.programs && !g.programs[id].stored
    requires g.programs[id].k0 < p.k && next == Advance(p, g.mem, id.0, id.1, g.programs[id].k0, g.programs[id].acc)
    ensures GridInv(p, init, Grid(g.mem, g.programs[id := Program(g.programs[id].k0 + BLOCK_K, next, false)]))
  {
    BlockOfProgram(p, init, g, id);
    ProgressKeepsInv(p, init, g, id, Program(g.programs[id].k0 + BLOCK_K, next, false));
  }

  /** The next block of a program extends its partial sums. */
  lemma BlockOfProgram(p: Problem, init: seq<real>, g: Grid, id: (nat, nat))
    requires WellPlaced(p, |init|) && GridInv(p, init, g) && id in g.programs && g.programs[id].k0 < p.k
    ensures var pr := g.programs[id];
            IsPartial(p, init, id.0, id.1, Advance(p, g.mem, id.0, id.1, pr.k0, pr.acc), pr.k0 + BLOCK_K)
  {
    assert InGrid(p, id);
    var pr := g.programs[id];
    BlockIsPartial(p, init, g.mem, id, pr.k0, pr.acc, Advance(p, g.mem, id.0, id.1, pr.k0, pr.acc));
  }

  lemma BlockIsPartial(p: Problem, init: seq<real>, mem: seq<real>, id: (nat, nat), k0: nat, acc: Tile, next: Tile)
    requires WellPlaced(p, |init|) && |mem| == |init| && id.0 < p.z && k0 < p.k && IsPartial(p, init, id.0, id.1, acc, k0)
    requires InputsSame(p, init, mem)
    requires next == Advance(p, mem, id.0, id.1, k0, acc)
    ensures IsPartial(p, init, id.0, id.1, next, k0 + BLOCK_K)
  {
    InputsAreKept(p, init, mem);
    AdvanceKeepsPartial(p, init, mem, id.0, id.1, k0, acc, next);
  }

  lemma StoreStepKeepsInv(p: Problem, init: seq<real>, g: Grid, after: seq<real>, id: (nat, nat))
    requires WellPlaced(p, |init|) && GridInv(p, init, g) && id in g.programs && g.programs[id].k0 >= p.k
    requires Stored(p, g.mem, after, id, g.programs[id].acc)
    ensures GridInv(p, init, Grid(after, g.programs[id := g.programs[id].(stored := true)]))
  {
    OwnedAreOutputs(p, id);
    StoreFinishes(p, init, g.mem, after, id, g.programs[id].acc, g.programs[id].k0);
    forall other | other in g.programs && g.programs[other].stored && other != id ensures Finished(p, init, after, other) {
      FinishedSurvives(p, init, g.mem, after, id, other);
    }
  }

  lemma StepKeepsInv(p: Problem, init: seq<real>, g: Grid, g': Grid, id: (nat, nat))
    requires WellPlaced(p, |init|) && GridInv(p, init, g) && Step(p, g, g', id)
    ensures GridInv(p, init, g')
  {
    if g.programs[id].k0 < p.k {
      BlockStepKeepsInv(p, init, g, id, g'.programs[id].acc);
    } else {
      StoreStepKeepsInv(p, init, g, g'.mem, id);
    }
  }

  lemma LaunchedInv(p: Problem, init: seq<real>, g: Grid)
    requires WellPlaced(p, |init|) && Launched(p, init, g)
    ensures GridInv(p, init, g)
  {
    forall id | id in g.programs ensures IsPartial(p, init, id.0, id.1, g.programs[id].acc, 0) {
      ZerosArePartial(p, init, id.0, id.1);
    }
  }

  ghost predicate Execution(p: Problem, init: seq<real>, grids: seq<Grid>, ids: seq<(nat, nat)>)
    requires WellPlaced(p, |init|)
  {
    && |grids| == |ids| + 1
    && Launched(p, init, grids[0])
    && forall i {:trigger ids[i]} :: 0 <= i < |ids| ==> |grids[i].mem| == |init| && Step(p, grids[i], grids[i + 1], ids[i])
  }

  lemma {:induction false} ExecutionKeepsInv(p: Problem, init: seq<real>, grids: seq<Grid>, ids: seq<(nat, nat)>, i: nat)
    requires WellPlaced(p, |init|) && Execution(p, init, grids, ids) && i < |grids|
    ensures GridInv(p, init, grids[i])
  {
    if i == 0 {
      LaunchedInv(p, init, grids[0]);
    } else {
      ExecutionKeepsInv(p, init, grids, ids, i - 1);
      StepKeepsInv(p, init, grids[i - 1], grids[i], ids[i - 1]);
    }
  }

  lemma AllFinishedIsBmm(p: Problem, init: seq<real>, mem: seq<real>)
    requires WellPlaced(p, |init|) && |mem| == |init|
    requires InputsSame(p, init, mem)
    requires forall id: (nat, nat) :: InGrid(p, id) ==> Finished(p, init, mem, id)
    ensures IsBmm(p, init, mem)
  {
    forall z, m, n | 0 <= z < p.z && 0 <= m < p.m && 0 <= n < p.n
      ensures mem[Addr(p.out, z, m, n)] == Sum(p, init, z, m, n, p.k)
    {
      var t := OneTile(p, n);
      assert InGrid(p, (z, t));
    }
  }

  /** However the programs of the grid interleave their loads and stores, when all have stored the
      memory holds the batched product, and at no moment has anything but output been written. */
  lemma AnyInterleavingIsBmm(p: Problem, init: seq<real>, grids: seq<Grid>, ids: seq<(nat, nat)>)
    requires WellPlaced(p, |init|) && Execution(p, init, grids, ids)
    ensures forall i, q :: 0 <= i < |grids| && 0 <= q < |init| && !IsOutput(p, q) ==>
              |grids[i].mem| == |init| && grids[i].mem[q] == init[q]
    ensures (forall id :: id in grids[|ids|].programs ==> grids[|ids|].programs[id].stored) ==>
              IsBmm(p, init, grids[|ids|].mem)
  {
    forall i | 0 <= i < |grids| ensures GridInv(p, init, grids[i]) {
      ExecutionKeepsInv(p, init, grids, ids, i);
    }
    var last := grids[|ids|];
    if forall id :: id in last.programs ==> last.programs[id].stored {
      AllFinishedIsBmm(p, init, last.mem);
    }
  }

  // ------------------------------------------------------------ the kernel itself

  /** The masked store, cell by cell. */
  method StoreTile(mem: array<real>, p: Problem, id: (nat, nat), acc: Tile)
    requires WellPlaced(p, mem.Length) && id.0 < p.z
    requires Shaped(acc, BlockM(p), BlockN(p)) && p.m <= BlockM(p)
    modifies mem
    ensures Stored(p, old(mem[..]), mem[..], id, acc)
  {
    var start := TileStart(p, id.1);
    for i := 0 to BlockM(p)
      invariant forall m, n :: 0 <= m < i && m < p.m && 0 <= n < p.n && InTile(p, id.1, n) ==>
                  mem[Addr(p.out, id.0, m, n)] == acc[m][n - start]
      invariant OnlyOwned(p, old(mem[..]), mem[..], id)
    {
      for j := 0 to BlockN(p)
        invariant forall m, n :: 0 <= m < i && m < p.m && 0 <= n < p.n && InTile(p, id.1, n) ==>
                    mem[Addr(p.out, id.0, m, n)] == acc[m][n - start]
        invariant forall n :: i < p.m && start <= n < start + j && n < p.n ==>
                    mem[Addr(p.out, id.0, i, n)] == acc[i][n - start]
        invariant OnlyOwned(p, old(mem[..]), mem[..], id)
      {
        if i < p.m && start + j < p.n {
          assert Owns(p, id, Addr(p.out, id.0, i, start + j));
          mem[Addr(p.out, id.0, i, start + j)] := acc[i][j];
        }
      }
    }
  }

  /** One program of the grid, run to its end. */
  method RunProgram(mem: array<real>, p: Problem, id: (nat, nat))
    requires WellPlaced(p, mem.Length) && InGrid(p, id)
    modifies mem
    ensures Finished(p, old(mem[..]), mem[..], id) && OnlyOwned(p, old(mem[..]), mem[..], id)
  {
    var acc := Zeros(BlockM(p), BlockN(p));
    ZerosArePartial(p, mem[..], id.0, id.1);
    var k0 := 0;
    while k0 < p.k
      invariant mem[..] == old(mem[..])
      invariant IsPartial(p, mem[..], id.0, id.1, acc, k0)
    {
      ghost var was := acc;
      acc := Advance(p, mem[..], id.0, id.1, k0, acc);
      AdvanceKeepsPartial(p, mem[..], mem[..], id.0, id.1, k0, was, acc);
      k0 := k0 + BLOCK_K;
    }
    StoreTile(mem, p, id, acc);
    StoreFinishes(p, old(mem[..]), old(mem[..]), mem[..], id, acc, k0);
  }

  lemma {:induction false} SameInputsSameSum(p: Problem, x: seq<real>, y: seq<real>, z: nat, m: nat, n: nat, k: nat)
    requires Readable(p, |x|) && SameInputs(p, x, y)
    requires z < p.z && m < p.m && n < p.n && k <= p.k
    ensures Sum(p, x, z, m, n, k) == Sum(p, y, z, m, n, k)
  {
    if k > 0 {
      SameInputsSameSum(p, x, y, z, m, n, k - 1);
    }
  }

  lemma SameInputsSameFinish(p: Problem, init: seq<real>, now: seq<real>, mem: seq<real>, id: (nat, nat))
    requires WellPlaced(p, |init|) && SameInputs(p, init, now) && |mem| == |init| && id.0 < p.z
    requires Finished(p, now, mem, id)
    ensures Finished(p, init, mem, id)
  {
    forall m, n | 0 <= m < p.m && 0 <= n < p.n && InTile(p, id.1, n)
      ensures mem[Addr(p.out, id.0, m, n)] == Sum(p, init, id.0, m, n, p.k)
    {
      SameInputsSameSum(p, init, now, id.0, m, n, p.k);
    }
  }

  /** The launch: the programs of the grid one after the other, in whatever order they are given. */
  method Bmm(mem: array<real>, p: Problem, order: seq<(nat, nat)>)
    requires WellPlaced(p, mem.Length)
    requires forall i :: 0 <= i < |order| ==> InGrid(p, order[i])
    requires forall id :: InGrid(p, id) ==> id in order
    modifies mem
    ensures IsBmm(p, old(mem[..]), mem[..])
  {
    ghost var init := mem[..];
    for i := 0 to |order|
      invariant InputsSame(p, init, mem[..])
      invariant forall j :: 0 <= j < i ==> Finished(p, init, mem[..], order[j])
    {
      var id := order[i];
      ghost var before := mem[..];
      InputsAreKept(p, init, before);
      OwnedAreOutputs(p, id);
      RunProgram(mem, p, id);
      SameInputsSameFinish(p, init, before, mem[..], id);
      forall j | 0 <= j < i + 1 ensures Finished(p, init, mem[..], order[j]) {
        if order[j] != id {
          FinishedSurvives(p, init, before, mem[..], id, order[j]);
        }
      }
    }
    AllFinishedIsBmm(p, init, mem[..]);
  }
}
