/**
 The scratch buffer of sparse attention: one caller-owned allocation cut into aligned regions, the
 strided views laid over them, the tensors a binding accepts, and the split-control cells.
 */
module ScratchPlan {
  import opened Wrappers
  import opened MixedRadix

  // ------------------------------------------------------------ capacities

  datatype Mode = Decode | Extend | Verify | DraftExtend

  /** What the caller asks for; any integers. `elementBytes` is the size of the output type. */
  datatype Request = Request(mode: Mode, qRows: int, heads: int, vDim: int, chunks: int, width: int,
                             batch: Option<int>, headDim: int, elementBytes: nat)

  /** Capacities after clamping. */
  datatype Caps = Caps(mode: Mode, q: nat, h: nat, v: nat, c: nat, topk: nat, batch: nat, headDim: nat, elementBytes: nat)

  function AtLeastOne(x: int): (r: nat)
    ensures r >= 1
  {
    if x > 1 then x else 1
  }

  function Clamp(r: Request): Caps {
    var q := AtLeastOne(r.qRows);
    Caps(r.mode, q, AtLeastOne(r.heads), AtLeastOne(r.vDim), AtLeastOne(r.chunks), AtLeastOne(r.width),
         if r.batch.Some? then AtLeastOne(r.batch.value) else q, AtLeastOne(r.headDim), r.elementBytes)
  }

  /** Every capacity covers what was asked for and is what was asked for, except that anything below one
      counts as one; without a batch size there is one batch to a row. */
  lemma ClampExact(r: Request)
    ensures var k := Clamp(r);
            && k.mode == r.mode && k.elementBytes == r.elementBytes
            && Covers(k.q, r.qRows) && Covers(k.h, r.heads) && Covers(k.v, r.vDim) && Covers(k.c, r.chunks)
            && Covers(k.topk, r.width) && Covers(k.headDim, r.headDim)
            && Covers(k.batch, if r.batch.Some? then r.batch.value else r.qRows)
  {
  }

  /** The least capacity of at least one that covers a request. */
  predicate Covers(capacity: int, asked: int) {
    capacity >= 1 && capacity >= asked && (capacity == asked || capacity == 1)
  }

  // ------------------------------------------------------------ regions

  datatype Region = Region(offset: nat, size: nat) {
    function End(): nat { offset + size }
  }

  datatype Layout = Layout(nbytes: nat, split: bool, output: Region, tmpOutput: Region, tmpLse: Region, finalLse: Region,
                           kvChunkSize: Region, numChunks: Region, smScale: Region)

  /** Elements of the partial outputs, of one chunk of them, of the partial sums, of the final sums. */
  function TmpElements(k: Caps): nat { k.c * ChunkElements(k) }
  function ChunkElements(k: Caps): nat { k.q * RowElements(k) }
  function RowElements(k: Caps): nat { k.h * k.v }
  function LseElements(k: Caps): nat { k.q * (k.h * k.c) }
  function FinalElements(k: Caps): nat { k.q * k.h }

  function Bytes(elements: nat, size: nat): nat { elements * size }

  function AlignUp(x: nat, align: nat): nat
    requires align > 0
  {
    (x + align - 1) / align * align
  }

  lemma AlignUpExact(x: nat, align: nat)
    requires align > 0
    ensures AlignUp(x, align) % align == 0 && x <= AlignUp(x, align) < x + align
  {
    var q, r := (x + align - 1) / align, (x + align - 1) % align;
    assert x + align - 1 == q * align + r;
    MultipleHasNoRemainder(q, align);
  }

  /** The regions that are really there, in order. */
  function Regions(l: Layout): seq<Region> {
    if l.split then [l.tmpOutput, l.tmpLse, l.finalLse, l.kvChunkSize, l.numChunks, l.smScale] else [l.output, l.smScale]
  }

  /** Aligned, in order, each as close to the one before as alignment allows, all inside the buffer. */
  ghost predicate Packs(rs: seq<Region>, align: nat, nbytes: nat)
    requires align > 0
  {
    && (forall i :: 0 <= i < |rs| ==> rs[i].offset % align == 0 && rs[i].End() <= nbytes)
    && (forall i :: 0 <= i < |rs| - 1 ==> rs[i].End() <= rs[i + 1].offset < rs[i].End() + align)
  }

  /** No more than one alignment, or than the last region needs rounded up. */
  predicate Trimmed(nbytes: nat, last: Region, align: nat)
    requires align > 0
  {
    nbytes == align || (nbytes % align == 0 && nbytes < last.End() + align)
  }

  /** The plan's promise: each region as large as its view needs, packed, and the decode output on top
      of chunk 0 of the partial outputs. */
  ghost predicate Sound(k: Caps, l: Layout, align: nat)
    requires align > 0
  {
    && l.split == (k.mode == Decode)
    && Packs(Regions(l), align, l.nbytes) && Regions(l)[0].offset == 0
    && l.nbytes >= align && Trimmed(l.nbytes, l.smScale, align)
    && l.output.size == Bytes(ChunkElements(k), k.elementBytes)
    && l.smScale.size == 4
    && (l.split ==>
          && l.tmpOutput.size == Bytes(TmpElements(k), k.elementBytes)
          && l.output.offset == l.tmpOutput.offset
          && l.tmpLse.size == Bytes(LseElements(k), 4)
          && l.finalLse.size == Bytes(FinalElements(k), 4)
          && l.kvChunkSize.size == 4
          && l.numChunks.size == 4)
  }

  /** Takes one region at the cursor and moves to the next aligned offset. */
  method Reserve(cursor: nat, size: nat, align: nat) returns (region: Region, next: nat)
    requires align > 0 && cursor % align == 0
    ensures region == Region(cursor, size) && next % align == 0 && region.End() <= next < region.End() + align
  {
    AlignUpExact(cursor + size, align);
    region, next := Region(cursor, size), AlignUp(cursor + size, align);
  }

  function Ceiling(cursor: nat, align: nat): nat { if cursor > align then cursor else align }

  /** Decode: partial outputs with the output on top of their first chunk, then the sums and cells. */
  method PlanSplit(outputBytes: nat, tmpBytes: nat, lseBytes: nat, finalBytes: nat, align: nat) returns (l: Layout)
    requires align > 0
    ensures l.split && Packs(Regions(l), align, l.nbytes) && l.tmpOutput.offset == 0
    ensures l.nbytes >= align && Trimmed(l.nbytes, l.smScale, align)
    ensures l.output == Region(l.tmpOutput.offset, outputBytes) && l.tmpOutput.size == tmpBytes
    ensures l.tmpLse.size == lseBytes && l.finalLse.size == finalBytes
    ensures l.kvChunkSize.size == l.numChunks.size == l.smScale.size == 4
  {
    var cursor: nat := 0;
    var tmpOutput, tmpLse, finalLse, kvChunkSize, numChunks, smScale;
    tmpOutput, cursor := Reserve(cursor, tmpBytes, align);
    tmpLse, cursor := Reserve(cursor, lseBytes, align);
    finalLse, cursor := Reserve(cursor, finalBytes, align);
    kvChunkSize, cursor := Reserve(cursor, 4, align);
    numChunks, cursor := Reserve(cursor, 4, align);
    smScale, cursor := Reserve(cursor, 4, align);
    l := Layout(Ceiling(cursor, align), true, Region(tmpOutput.offset, outputBytes), tmpOutput, tmpLse, finalLse,
                kvChunkSize, numChunks, smScale);
    PackSix(tmpOutput, tmpLse, finalLse, kvChunkSize, numChunks, smScale, align, l.nbytes);
  }

  /** Regions of which each starts at the aligned end of the one before. */
  lemma PackSix(a: Region, b: Region, c: Region, d: Region, e: Region, f: Region, align: nat, nbytes: nat)
    requires align > 0
    requires a.offset % align == 0 && b.offset % align == 0 && c.offset % align == 0
    requires d.offset % align == 0 && e.offset % align == 0 && f.offset % align == 0
    requires Follows(a, b, align) && Follows(b, c, align) && Follows(c, d, align)
    requires Follows(d, e, align) && Follows(e, f, align) && f.End() <= nbytes
    ensures Packs([a, b, c, d, e, f], align, nbytes)
  {
  }

  predicate Follows(a: Region, b: Region, align: nat) { a.End() <= b.offset < a.End() + align }

  /** The layout, for all capacities and both kinds of mode. */
  method PlanLayout(k: Caps, align: nat) returns (l: Layout)
    requires align > 0
    ensures Sound(k, l, align)
  {
    var outputBytes := Bytes(ChunkElements(k), k.elementBytes);
    if k.mode == Decode {
      l := PlanSplit(outputBytes, Bytes(TmpElements(k), k.elementBytes), Bytes(LseElements(k), 4),
                     Bytes(FinalElements(k), 4), align);
    } else {
      var output, smScale, cursor;
      output, cursor := Reserve(0, outputBytes, align);
      smScale, cursor := Reserve(cursor, 4, align);
      var none := Region(0, 0);
      l := Layout(Ceiling(cursor, align), false, output, none, none, none, none, none, smScale);
    }
  }

  /** The plan of a request: whatever integers it holds, the layout of the clamped capacities. */
  method Plan(r: Request, align: nat) returns (k: Caps, l: Layout)
    requires align > 0
    ensures k == Clamp(r) && Covers(k.q, r.qRows) && Covers(k.h, r.heads) && Covers(k.v, r.vDim) && Covers(k.c, r.chunks)
    ensures Sound(k, l, align)
  {
    k := Clamp(r);
    l := PlanLayout(k, align);
  }

  /** Packed regions never overlap. */
  lemma {:induction false} PackedDisjoint(rs: seq<Region>, align: nat, nbytes: nat, i: nat, j: nat)
    requires align > 0 && Packs(rs, align, nbytes) && i < j < |rs|
    ensures rs[i].End() <= rs[j].offset
  {
    if i < j - 1 {
      PackedDisjoint(rs, align, nbytes, i, j - 1);
    }
  }

  // ------------------------------------------------------------ views

  /** Flat indices: partial outputs chunk by chunk, everything else row by row. */
  function TmpIndex(k: Caps, q: nat, h: nat, c: nat, v: nat): nat { c * ChunkElements(k) + OutIndex(k, q, h, v) }
  function OutIndex(k: Caps, q: nat, h: nat, v: nat): nat { q * RowElements(k) + (h * k.v + v) }
  function LseIndex(k: Caps, q: nat, h: nat, c: nat): nat { q * (k.h * k.c) + (h * k.c + c) }
  function FinalIndex(k: Caps, q: nat, h: nat): nat { q * k.h + h }

  /** Bytes of element `index` of a view over a region. */
  function Element(r: Region, index: nat, size: nat): Region { Region(r.offset + index * size, size) }

  predicate Inside(e: Region, r: Region) { r.offset <= e.offset && e.End() <= r.End() }

  lemma ElementInside(r: Region, index: nat, count: nat, size: nat)
    requires index < count && r.size >= Bytes(count, size)
    ensures Inside(Element(r, index, size), r)
  {
    MulMonotone(index + 1, count, size);
    assert (index + 1) * size == index * size + size;
  }

  lemma OutIndexBelow(k: Caps, q: nat, h: nat, v: nat)
    requires q < k.q && h < k.h && v < k.v
    ensures OutIndex(k, q, h, v) < ChunkElements(k)
  {
    Packed(h, k.h, v, k.v);
    Packed(q, k.q, h * k.v + v, RowElements(k));
  }

  lemma TmpIndexBelow(k: Caps, q: nat, h: nat, c: nat, v: nat)
    requires q < k.q && h < k.h && c < k.c && v < k.v
    ensures TmpIndex(k, q, h, c, v) < TmpElements(k)
  {
    OutIndexBelow(k, q, h, v);
    Packed(c, k.c, OutIndex(k, q, h, v), ChunkElements(k));
  }

  lemma LseIndexBelow(k: Caps, q: nat, h: nat, c: nat)
    requires q < k.q && h < k.h && c < k.c
    ensures LseIndex(k, q, h, c) < LseElements(k) && FinalIndex(k, q, h) < FinalElements(k)
  {
    Packed(h, k.h, c, k.c);
    Packed(q, k.q, h * k.c + c, k.h * k.c);
    Packed(q, k.q, h, k.h);
  }

  /** The alias: the output element of a row is its chunk-0 partial output and no other partial. */
  lemma OutputIsChunkZero(k: Caps, q: nat, h: nat, v: nat, q': nat, h': nat, c': nat, v': nat)
    requires q < k.q && h < k.h && v < k.v && q' < k.q && h' < k.h && c' < k.c && v' < k.v
    ensures OutIndex(k, q, h, v) == TmpIndex(k, q', h', c', v') <==> q == q' && h == h' && c' == 0 && v == v'
  {
    OutIndexBelow(k, q, h, v);
    OutIndexBelow(k, q', h', v');
    if OutIndex(k, q, h, v) == TmpIndex(k, q', h', c', v') {
      SameDigits(0, OutIndex(k, q, h, v), c', OutIndex(k, q', h', v'), ChunkElements(k));
      OutIndexInjective(k, q, h, v, q', h', v');
    }
  }

  lemma OutIndexInjective(k: Caps, q: nat, h: nat, v: nat, q': nat, h': nat, v': nat)
    requires q < k.q && h < k.h && v < k.v && q' < k.q && h' < k.h && v' < k.v
    requires OutIndex(k, q, h, v) == OutIndex(k, q', h', v')
    ensures q == q' && h == h' && v == v'
  {
    Packed(h, k.h, v, k.v);
    Packed(h', k.h, v', k.v);
    SameTwoDigits(q, h, v, q', h', v', RowElements(k), k.v);
  }

  /** Different partial outputs, and different sums, have different elements. */
  lemma IndicesInjective(k: Caps, q: nat, h: nat, c: nat, v: nat, q': nat, h': nat, c': nat, v': nat)
    requires q < k.q && h < k.h && c < k.c && v < k.v && q' < k.q && h' < k.h && c' < k.c && v' < k.v
    ensures TmpIndex(k, q, h, c, v) == TmpIndex(k, q', h', c', v') ==> q == q' && h == h' && c == c' && v == v'
    ensures LseIndex(k, q, h, c) == LseIndex(k, q', h', c') ==> q == q' && h == h' && c == c'
    ensures FinalIndex(k, q, h) == FinalIndex(k, q', h') ==> q == q' && h == h'
  {
    if TmpIndex(k, q, h, c, v) == TmpIndex(k, q', h', c', v') {
      OutIndexBelow(k, q, h, v);
      OutIndexBelow(k, q', h', v');
      SameDigits(c, OutIndex(k, q, h, v), c', OutIndex(k, q', h', v'), ChunkElements(k));
      OutIndexInjective(k, q, h, v, q', h', v');
    }
    if LseIndex(k, q, h, c) == LseIndex(k, q', h', c') {
      Packed(h, k.h, c, k.c);
      Packed(h', k.h, c', k.c);
      SameTwoDigits(q, h, c, q', h', c', k.h * k.c, k.c);
    }
    if FinalIndex(k, q, h) == FinalIndex(k, q', h') {
      SameDigits(q, h, q', h', k.h);
    }
  }

  // ------------------------------------------------------------ binding

  datatype Dtype = BFloat16 | Float32 | Int32 | OtherType(id: int)
  datatype Tensor = Tensor(shape: seq<nat>, dtype: Dtype, contiguous: bool, device: int)
  datatype Binding = Bound(rows: nat) | ValueError | TypeError

  /** The checks every tensor goes through, in order; the first that fails decides. */
  function Common(t: Tensor, rank: nat, dtype: Dtype, device: int): Option<Binding> {
    if |t.shape| != rank then Some(ValueError)
    else if t.dtype != dtype then Some(TypeError)
    else if !t.contiguous || t.device != device then Some(ValueError)
    else None
  }

  function ValidateQ(k: Caps, dtype: Dtype, device: int, q: Tensor): Option<Binding> {
    var failure := Common(q, 3, dtype, device);
    if failure.Some? then failure
    else if q.shape[0] > k.q || q.shape[1] != k.h || q.shape[2] != k.headDim then Some(ValueError)
    else None
  }

  function ValidateSelected(k: Caps, device: int, t: Tensor, rows: nat): Option<Binding> {
    var failure := Common(t, 2, Int32, device);
    if failure.Some? then failure
    else if t.shape[0] != rows || t.shape[1] > k.topk then Some(ValueError)
    else None
  }

  function ValidateVector(device: int, t: Tensor, maxRows: Option<nat>, rows: Option<nat>): Option<Binding> {
    var failure := Common(t, 1, Int32, device);
    if failure.Some? then failure
    else if rows.Some? && t.shape[0] != rows.value then Some(ValueError)
    else if maxRows.Some? && t.shape[0] > maxRows.value then Some(ValueError)
    else None
  }

  function Bind(k: Caps, dtype: Dtype, device: int, q: Tensor, selected: Tensor, cacheLens: Tensor, nsaLens: Tensor): Binding {
    var f1 := ValidateQ(k, dtype, device, q);
    if f1.Some? then f1.value
    else
      var rows := q.shape[0];
      var f2 := ValidateSelected(k, device, selected, rows);
      if f2.Some? then f2.value
      else
        var f3 := ValidateVector(device, cacheLens, Some(k.batch), None);
        if f3.Some? then f3.value
        else
          var f4 := ValidateVector(device, nsaLens, None, Some(rows));
          if f4.Some? then f4.value else Bound(rows)
  }

  predicate Usable(t: Tensor, dtype: Dtype, device: int) { t.dtype == dtype && t.contiguous && t.device == device }

  /** Exactly which tensors are bound: all rows agree and every capacity is respected. */
  lemma BindExact(k: Caps, dtype: Dtype, device: int, q: Tensor, selected: Tensor, cacheLens: Tensor, nsaLens: Tensor, rows: nat)
    ensures Bind(k, dtype, device, q, selected, cacheLens, nsaLens) == Bound(rows) <==>
              && Usable(q, dtype, device) && q.shape == [rows, k.h, k.headDim] && rows <= k.q
              && Usable(selected, Int32, device) && (exists width :: 0 <= width <= k.topk && selected.shape == [rows, width])
              && Usable(cacheLens, Int32, device) && (exists n :: 0 <= n <= k.batch && cacheLens.shape == [n])
              && Usable(nsaLens, Int32, device) && nsaLens.shape == [rows]
  {
    if |q.shape| == 3 {
      assert q.shape == [q.shape[0], q.shape[1], q.shape[2]];
    }
    if |selected.shape| == 2 {
      assert selected.shape == [selected.shape[0], selected.shape[1]];
    }
    if |cacheLens.shape| == 1 {
      assert cacheLens.shape == [cacheLens.shape[0]];
    }
    if |nsaLens.shape| == 1 {
      assert nsaLens.shape == [nsaLens.shape[0]];
    }
  }

  /** Whatever tensors are bound and whatever chunk setting is accepted, every element a kernel
      addresses lies in its own region, clear of every other region of the plan. */
  lemma BoundStaysInside(k: Caps, l: Layout, align: nat, dtype: Dtype, device: int,
                         qt: Tensor, selected: Tensor, cacheLens: Tensor, nsaLens: Tensor,
                         rows: nat, chunks: nat, q: nat, h: nat, c: nat, v: nat)
    requires align > 0 && Sound(k, l, align)
    requires Bind(k, dtype, device, qt, selected, cacheLens, nsaLens) == Bound(rows) && chunks <= k.c
    requires q < rows && h < k.h && c < chunks && v < k.v
    ensures Inside(Element(l.output, OutIndex(k, q, h, v), k.elementBytes), l.output) && l.output.End() <= l.nbytes
    ensures l.split ==>
              && Inside(Element(l.tmpOutput, TmpIndex(k, q, h, c, v), k.elementBytes), l.tmpOutput)
              && Inside(Element(l.tmpLse, LseIndex(k, q, h, c), 4), l.tmpLse)
              && Inside(Element(l.finalLse, FinalIndex(k, q, h), 4), l.finalLse)
    ensures forall i, j :: 0 <= i < j < |Regions(l)| ==> Regions(l)[i].End() <= Regions(l)[j].offset
  {
    BindExact(k, dtype, device, qt, selected, cacheLens, nsaLens, rows);
    OutIndexBelow(k, q, h, v);
    TmpIndexBelow(k, q, h, c, v);
    LseIndexBelow(k, q, h, c);
    ElementInside(l.output, OutIndex(k, q, h, v), ChunkElements(k), k.elementBytes);
    if l.split {
      ElementInside(l.tmpOutput, TmpIndex(k, q, h, c, v), TmpElements(k), k.elementBytes);
      ElementInside(l.tmpLse, LseIndex(k, q, h, c), LseElements(k), 4);
      ElementInside(l.finalLse, FinalIndex(k, q, h), FinalElements(k), 4);
    }
    OutputInsideBuffer(k, l, align);
    forall i, j | 0 <= i < j < |Regions(l)| ensures Regions(l)[i].End() <= Regions(l)[j].offset {
      PackedDisjoint(Regions(l), align, l.nbytes, i, j);
    }
  }

  lemma OutputInsideBuffer(k: Caps, l: Layout, align: nat)
    requires align > 0 && Sound(k, l, align) && k.c >= 1
    ensures l.output.End() <= l.nbytes && (l.split ==> Inside(l.output, l.tmpOutput))
  {
    if l.split {
      assert Regions(l)[0] == l.tmpOutput;
      MulMonotone(1, k.c, ChunkElements(k));
      MulMonotone(ChunkElements(k), TmpElements(k), k.elementBytes);
    } else {
      assert Regions(l)[0] == l.output;
    }
  }

  // ------------------------------------------------------------ split control

  datatype Setting = Accepted | BadValue | MissingTensors

  /** The two cells in the scratch memory. */
  datatype Cells = Cells(kvChunkSize: int, numChunks: int)

  /** What a view remembers of the values it last wrote. */
  datatype Known = Known(kvChunkSize: Option<int>, numChunks: Option<int>)

  datatype Call = Call(kvChunkSize: int, numChunks: int)

  function Judge(limit: nat, split: bool, c: Call): Setting {
    if c.numChunks <= 0 || c.numChunks > limit || c.kvChunkSize <= 0 then BadValue
    else if !split then MissingTensors
    else Accepted
  }

  /** A call is accepted exactly for one chunk up to the limit, a chunk of at least one row and a decode view;
      bad values are reported before missing tensors. */
  lemma JudgeExact(limit: nat, split: bool, c: Call)
    ensures Judge(limit, split, c) == Accepted <==> 1 <= c.numChunks <= limit && 1 <= c.kvChunkSize && split
    ensures Judge(limit, split, c) == MissingTensors <==> 1 <= c.numChunks <= limit && 1 <= c.kvChunkSize && !split
  {
  }

  /** A cell is written only when its value differs from the one remembered. */
  function Write(known: Known, cells: Cells, c: Call): (Known, Cells) {
    (Known(Some(c.kvChunkSize), Some(c.numChunks)),
     Cells(if known.kvChunkSize == Some(c.kvChunkSize) then cells.kvChunkSize else c.kvChunkSize,
           if known.numChunks == Some(c.numChunks) then cells.numChunks else c.numChunks))
  }

  /** The calls of one view in order, refused ones changing nothing. */
  function RunCalls(limit: nat, split: bool, known: Known, cells: Cells, calls: seq<Call>): (Known, Cells)
    decreases |calls|
  {
    if calls == [] then (known, cells)
    else if Judge(limit, split, calls[0]) != Accepted then RunCalls(limit, split, known, cells, calls[1..])
    else var (k, m) := Write(known, cells, calls[0]); RunCalls(limit, split, k, m, calls[1..])
  }

  /** The last accepted call. */
  function LastAccepted(limit: nat, split: bool, calls: seq<Call>): Option<Call> {
    if calls == [] then None
    else if Judge(limit, split, calls[|calls| - 1]) == Accepted then Some(calls[|calls| - 1])
    else LastAccepted(limit, split, calls[..|calls| - 1])
  }

  /** What is remembered is what is in the cells. */
  predicate Remembers(known: Known, cells: Cells) {
    && (known.kvChunkSize.Some? ==> cells.kvChunkSize == known.kvChunkSize.value)
    && (known.numChunks.Some? ==> cells.numChunks == known.numChunks.value)
  }

  lemma {:induction false} LastAcceptedCons(limit: nat, split: bool, calls: seq<Call>)
    requires calls != []
    ensures LastAccepted(limit, split, calls) ==
            (if LastAccepted(limit, split, calls[1..]).Some? then LastAccepted(limit, split, calls[1..])
             else if Judge(limit, split, calls[0]) == Accepted then Some(calls[0]) else None)
  {
    var last := calls[|calls| - 1];
    if |calls| == 1 {
      assert calls[1..] == [] && calls[..0] == [];
    } else {
      assert calls[1..][|calls| - 2] == last;
      assert calls[1..][..|calls| - 2] == calls[..|calls| - 1][1..];
      if Judge(limit, split, last) != Accepted {
        LastAcceptedCons(limit, split, calls[..|calls| - 1]);
      }
    }
  }

  /** After any sequence of calls, writes skipped or not, the cells hold the values of the last
      accepted call; without one they are untouched. */
  lemma {:induction false} CellsHoldLastAccepted(limit: nat, split: bool, known: Known, cells: Cells, calls: seq<Call>)
    requires Remembers(known, cells)
    ensures var (k, m) := RunCalls(limit, split, known, cells, calls);
            && Remembers(k, m)
            && match LastAccepted(limit, split, calls)
               case None => (k, m) == (known, cells)
               case Some(c) => m == Cells(c.kvChunkSize, c.numChunks)
    decreases |calls|
  {
    if calls != [] {
      LastAcceptedCons(limit, split, calls);
      if Judge(limit, split, calls[0]) == Accepted {
        var (k, m) := Write(known, cells, calls[0]);
        CellsHoldLastAccepted(limit, split, k, m, calls[1..]);
      } else {
        CellsHoldLastAccepted(limit, split, known, cells, calls[1..]);
      }
    }
  }

  // ------------------------------------------------------------ several views over one memory

  /** What each view remembers, and the cells they share. A view not named yet remembers nothing. */
  datatype Shared = Shared(known: map<nat, Known>, cells: Cells)

  datatype ViewCall = ViewCall(view: nat, call: Call)

  /** Every view has a limit on chunks of its own. */
  function JudgeOf(limits: nat -> nat, v: ViewCall): Setting { Judge(limits(v.view), true, v.call) }

  function KnownTo(s: Shared, view: nat): Known { if view in s.known then s.known[view] else Known(None, None) }

  function SharedStep(limits: nat -> nat, s: Shared, v: ViewCall): Shared {
    if JudgeOf(limits, v) != Accepted then s
    else
      var (k, m) := Write(KnownTo(s, v.view), s.cells, v.call);
      Shared(s.known[v.view := k], m)
  }

  /** The calls of any number of views, in any order. */
  function SharedRun(limits: nat -> nat, found: Cells, calls: seq<ViewCall>): Shared {
    if calls == [] then Shared(map[], found)
    else SharedStep(limits, SharedRun(limits, found, calls[..|calls| - 1]), calls[|calls| - 1])
  }

  predicate Holds(m: Cells, c: Call) { m.kvChunkSize == c.kvChunkSize && m.numChunks == c.numChunks }

  /** One accepted call, in any state of views and cells: a cell ends up with the value asked for exactly
      if the view remembers another value or the cell still holds that one. */
  lemma StaleExactly(limits: nat -> nat, s: Shared, v: ViewCall)
    requires JudgeOf(limits, v) == Accepted
    ensures var m, k := SharedStep(limits, s, v).cells, KnownTo(s, v.view);
            && (m.kvChunkSize == v.call.kvChunkSize <==>
                  k.kvChunkSize != Some(v.call.kvChunkSize) || s.cells.kvChunkSize == v.call.kvChunkSize)
            && (m.numChunks == v.call.numChunks <==>
                  k.numChunks != Some(v.call.numChunks) || s.cells.numChunks == v.call.numChunks)
  {
  }

  /** The last accepted call of one view, and of any view. */
  function LastBy(limits: nat -> nat, calls: seq<ViewCall>, view: nat): Option<Call> {
    if calls == [] then None
    else
      var v := calls[|calls| - 1];
      if v.view == view && JudgeOf(limits, v) == Accepted then Some(v.call)
      else LastBy(limits, calls[..|calls| - 1], view)
  }

  function LastOfAll(limits: nat -> nat, calls: seq<ViewCall>): Option<Call> {
    if calls == [] then None
    else
      var v := calls[|calls| - 1];
      if JudgeOf(limits, v) == Accepted then Some(v.call) else LastOfAll(limits, calls[..|calls| - 1])
  }

  /** A view remembers its own last accepted call, whatever the others did. */
  lemma {:induction false} KnowsItsLast(limits: nat -> nat, found: Cells, calls: seq<ViewCall>, view: nat)
    ensures KnownTo(SharedRun(limits, found, calls), view) ==
            (match LastBy(limits, calls, view)
             case None => Known(None, None)
             case Some(c) => Known(Some(c.kvChunkSize), Some(c.numChunks)))
    ensures LastBy(limits, calls, view).Some? ==> LastOfAll(limits, calls).Some?
  {
    if calls != [] {
      KnowsItsLast(limits, found, calls[..|calls| - 1], view);
    }
  }

  /** Every accepted call so far left its values in the cells. */
  predicate AlwaysCurrent(limits: nat -> nat, found: Cells, calls: seq<ViewCall>) {
    calls == [] ||
    (&& AlwaysCurrent(limits, found, calls[..|calls| - 1])
     && (JudgeOf(limits, calls[|calls| - 1]) == Accepted ==>
           Holds(SharedRun(limits, found, calls).cells, calls[|calls| - 1].call)))
  }

  /** No view repeats its own last value of a cell after another view's call left a different one: the
      rule for the callers, in terms of their calls alone. */
  predicate NoBlindRepeat(limits: nat -> nat, calls: seq<ViewCall>) {
    calls == [] ||
    (&& NoBlindRepeat(limits, calls[..|calls| - 1])
     && (JudgeOf(limits, calls[|calls| - 1]) == Accepted ==>
           RepeatIsSeen(LastBy(limits, calls[..|calls| - 1], calls[|calls| - 1].view),
                        LastOfAll(limits, calls[..|calls| - 1]), calls[|calls| - 1].call)))
  }

  predicate RepeatIsSeen(own: Option<Call>, last: Option<Call>, c: Call) {
    own.Some? && last.Some? ==>
      && (own.value.kvChunkSize == c.kvChunkSize ==> last.value.kvChunkSize == c.kvChunkSize)
      && (own.value.numChunks == c.numChunks ==> last.value.numChunks == c.numChunks)
  }

  lemma {:induction false} CurrentCellsAreLast(limits: nat -> nat, found: Cells, calls: seq<ViewCall>)
    requires AlwaysCurrent(limits, found, calls) && LastOfAll(limits, calls).Some?
    ensures Holds(SharedRun(limits, found, calls).cells, LastOfAll(limits, calls).value)
  {
    if JudgeOf(limits, calls[|calls| - 1]) != Accepted {
      CurrentCellsAreLast(limits, found, calls[..|calls| - 1]);
    }
  }

  /** Over every interleaving of calls by any number of views on one memory: every accepted call leaves
      its values in the cells if and only if no view repeats its own last value after another view
      left a different one. */
  lemma {:induction false} SharedCellsExact(limits: nat -> nat, found: Cells, calls: seq<ViewCall>)
    ensures AlwaysCurrent(limits, found, calls) <==> NoBlindRepeat(limits, calls)
  {
    if calls != [] {
      var front, v := calls[..|calls| - 1], calls[|calls| - 1];
      SharedCellsExact(limits, found, front);
      if AlwaysCurrent(limits, found, front) && JudgeOf(limits, v) == Accepted {
        KnowsItsLast(limits, found, front, v.view);
        if LastOfAll(limits, front).Some? {
          CurrentCellsAreLast(limits, found, front);
        }
        StaleExactly(limits, SharedRun(limits, found, front), v);
      }
    }
  }

  /** One view alone never goes stale. */
  lemma {:induction false} OneViewIsCurrent(limits: nat -> nat, found: Cells, calls: seq<ViewCall>, view: nat)
    requires forall i :: 0 <= i < |calls| ==> calls[i].view == view
    ensures AlwaysCurrent(limits, found, calls) && LastBy(limits, calls, view) == LastOfAll(limits, calls)
  {
    if calls != [] {
      OneViewIsCurrent(limits, found, calls[..|calls| - 1], view);
      SharedCellsExact(limits, found, calls[..|calls| - 1]);
      SharedCellsExact(limits, found, calls);
    }
  }

  /** Two views that break the rule: the first skips a write it still needs. */
  lemma {:induction false} SharedCellsGoStale(limits: nat -> nat, found: Cells)
    requires limits(0) >= 2 && limits(1) >= 1
    ensures var calls := [ViewCall(0, Call(64, 2)), ViewCall(1, Call(128, 1)), ViewCall(0, Call(64, 2))];
            !NoBlindRepeat(limits, calls) && SharedRun(limits, found, calls).cells == Cells(128, 1)
  {
    var calls := [ViewCall(0, Call(64, 2)), ViewCall(1, Call(128, 1)), ViewCall(0, Call(64, 2))];
    assert calls[..2] == [ViewCall(0, Call(64, 2)), ViewCall(1, Call(128, 1))];
    assert calls[..2][..1] == [ViewCall(0, Call(64, 2))];
    assert [ViewCall(0, Call(64, 2))][..0] == [];
    assert SharedRun(limits, found, calls[..2][..1]).cells == Cells(64, 2);
    assert SharedRun(limits, found, calls[..2]).cells == Cells(128, 1);
    assert LastBy(limits, calls[..2], 0) == Some(Call(64, 2));
    assert LastOfAll(limits, calls[..2]) == Some(Call(128, 1));
  }

  class SplitControl {
    const limit: nat
    const split: bool
    var known: Known
    var cells: Cells
    ghost var calls: seq<Call>
    ghost const first: Cells

    /** The cells are those of a run of all calls so far. */
    ghost predicate Valid()
      reads this
    {
      (known, cells) == RunCalls(limit, split, Known(None, None), first, calls)
    }

    /** Views over memory as it is found: nothing is written. */
    constructor (limit: nat, split: bool, found: Cells)
      ensures Valid() && this.limit == limit && this.split == split && cells == found && calls == []
    {
      this.limit, this.split, known, cells, first, calls := limit, split, Known(None, None), found, found, [];
    }

    method SetSplitChunkConfig(kvChunkSize: int, numChunks: int) returns (r: Setting)
      requires Valid()
      modifies this
      ensures Valid() && r == Judge(limit, split, Call(kvChunkSize, numChunks))
      ensures calls == old(calls) + [Call(kvChunkSize, numChunks)]
      ensures r == Accepted ==> cells == Cells(kvChunkSize, numChunks)
      ensures r != Accepted ==> cells == old(cells) && known == old(known)
    {
      ghost var call := Call(kvChunkSize, numChunks);
      RunCallsAppend(limit, split, Known(None, None), first, calls, call);
      CellsHoldLastAccepted(limit, split, Known(None, None), first, calls);
      calls := calls + [call];
      if numChunks <= 0 || numChunks > limit || kvChunkSize <= 0 {
        return BadValue;
      }
      if !split {
        return MissingTensors;
      }
      if known.kvChunkSize != Some(kvChunkSize) {
        cells := cells.(kvChunkSize := kvChunkSize);
        known := known.(kvChunkSize := Some(kvChunkSize));
      }
      if known.numChunks != Some(numChunks) {
        cells := cells.(numChunks := numChunks);
        known := known.(numChunks := Some(numChunks));
      }
      return Accepted;
    }
  }

  lemma {:induction false} RunCallsAppend(limit: nat, split: bool, known: Known, cells: Cells, calls: seq<Call>, c: Call)
    ensures var (k, m) := RunCalls(limit, split, known, cells, calls);
            RunCalls(limit, split, known, cells, calls + [c]) ==
            (if Judge(limit, split, c) == Accepted then Write(k, m, c) else (k, m))
    decreases |calls|
  {
    if calls == [] {
      assert calls + [c] == [c] && [c][1..] == [];
    } else {
      assert (calls + [c])[1..] == calls[1..] + [c];
      if Judge(limit, split, calls[0]) == Accepted {
        var (k, m) := Write(known, cells, calls[0]);
        RunCallsAppend(limit, split, k, m, calls[1..], c);
      } else {
        RunCallsAppend(limit, split, known, cells, calls[1..], c);
      }
    }
  }
}
