/** The drivers around the row kernels of matrix products: a range of the output rows of several
    matrices at once, and one reading of the weights for all rows of a batch. */
module MatmulDrivers {
  import opened Arith
  import opened Results
  import opened WorkSplit

  type Vec = seq<real>

  /** A stored row of weights; what its bytes mean is up to the kernels. */
  type Row = seq<byte>

  /** A matrix, row by row; `quantDot` tells the formats that multiply a quantized activation. */
  datatype Matrix = Matrix(rows: seq<Row>, quantDot: bool)

  /** The kernels of one row, the quantization of an activation, and fused multiply-add. */
  datatype Kernels = Kernels(
    dot: (Row, Vec) -> real,
    quantDot: (Row, seq<byte>) -> real,
    quantize: Vec -> seq<byte>,
    f16: nat -> real,
    fma: (real, real, real) -> real)

  /** Even row starts keep each tile of two rows inside one range. */
  const ROW_TILE: nat := 2

  // ---- products with one vector -----------------------------------------------------------------

  /** One entry of the product of a matrix and a vector. */
  function Entry(ks: Kernels, w: Matrix, x: Vec, o: nat): real
    requires o < |w.rows|
  {
    if w.quantDot then ks.quantDot(w.rows[o], ks.quantize(x)) else ks.dot(w.rows[o], x)
  }

  /** Computes rows lo to hi - 1 with a quantized activation that is there if the format needs it. */
  method MatvecRows(ks: Kernels, w: Matrix, x: Vec, xq: Option<seq<byte>>, y: array<real>, lo: nat, hi: nat)
    requires lo <= hi <= |w.rows| <= y.Length
    requires w.quantDot ==> xq == Some(ks.quantize(x))
    modifies y
    ensures forall o :: 0 <= o < y.Length ==> y[o] == if lo <= o < hi then Entry(ks, w, x, o) else old(y[o])
  {
    if lo >= hi {
      return;
    }
    for o := lo to hi
      invariant forall p :: 0 <= p < y.Length ==> y[p] == if lo <= p < o then Entry(ks, w, x, p) else old(y[p])
    {
      y[o] := if w.quantDot then ks.quantDot(w.rows[o], xq.value) else ks.dot(w.rows[o], x);
    }
  }

  /** The product of one matrix and a vector, on `count` threads. */
  method MatvecQuant(ks: Kernels, w: Matrix, x: Vec, y: array<real>, count: nat)
    requires count > 0 && |w.rows| <= y.Length
    modifies y
    ensures forall o :: 0 <= o < |w.rows| ==>
      y[o] == if w.quantDot then ks.quantDot(w.rows[o], ks.quantize(x)) else ks.dot(w.rows[o], x)
    ensures forall o :: |w.rows| <= o < y.Length ==> y[o] == old(y[o])
  {
    hide Split;
    var out := |w.rows|;
    var xq := if w.quantDot then Some(ks.quantize(x)) else None;
    ThreadStarts(count, out, ROW_TILE);
    for idx := 0 to count
      invariant forall o :: 0 <= o < y.Length ==>
        y[o] == if o < Start(idx, count, out, ROW_TILE) then Entry(ks, w, x, o) else old(y[o])
    {
      var (rb, re) := Split(idx, count, out, ROW_TILE);
      MatvecRows(ks, w, x, xq, y, rb, re);
    }
  }

  /** Where a thread's range starts; for one past the last thread, the end of all. */
  function Start(idx: nat, count: nat, n: nat, align: nat): nat
    requires count > 0 && align > 0
  {
    ProductNotNegative(FirstBlock(idx, count, n, align), align);
    Min(FirstBlock(idx, count, n, align) * align, n)
  }

  lemma ThreadStarts(count: nat, n: nat, align: nat)
    requires count > 0 && align > 0
    ensures Start(0, count, n, align) == 0 && Start(count, count, n, align) == n
    ensures forall idx: nat :: Split(idx, count, n, align).0 == Start(idx, count, n, align)
    ensures forall idx: nat :: Split(idx, count, n, align).1 == Start(Next(idx), count, n, align)
    ensures forall idx: nat :: Start(idx, count, n, align) <= Start(Next(idx), count, n, align) <= n
  {
    hide FirstBlock;
    hide Split;
    FirstAndLastBlock(count, n, align);
    BlocksCover(n, align);
    forall idx: nat
      ensures Split(idx, count, n, align).0 == Start(idx, count, n, align)
      ensures Split(idx, count, n, align).1 == Start(Next(idx), count, n, align)
      ensures Start(idx, count, n, align) <= Start(Next(idx), count, n, align)
    {
      SplitIsStaircase(idx, count, n, align);
      MulMonotone(FirstBlock(idx, count, n, align), FirstBlock(idx + 1, count, n, align), align);
    }
  }

  function Next(idx: nat): nat {
    idx + 1
  }

  // ---- several matrices at once -----------------------------------------------------------------

  /** A matrix and where its product goes. */
  datatype Job = Job(w: Matrix, y: array<real>)

  /** The first row of a job in the joint numbering of all output rows. */
  function Offset(jobs: seq<Job>, j: nat): nat
    requires j <= |jobs|
  {
    if j == 0 then 0 else Offset(jobs, j - 1) + |jobs[j - 1].w.rows|
  }

  lemma {:induction false} OffsetsGrow(jobs: seq<Job>, i: nat, j: nat)
    requires i <= j <= |jobs|
    ensures Offset(jobs, i) <= Offset(jobs, j)
    decreases j
  {
    if i < j {
      OffsetsGrow(jobs, i, j - 1);
    }
  }

  lemma OffsetSteps(jobs: seq<Job>)
    ensures Offset(jobs, 0) == 0
    ensures forall j: nat :: j < |jobs| ==> Offset(jobs, j + 1) == Offset(jobs, j) + |jobs[j].w.rows|
  {
  }

  lemma RoomFor(jobs: seq<Job>, j: nat)
    requires Apart(jobs) && j < |jobs|
    ensures |jobs[j].w.rows| <= jobs[j].y.Length
  {
  }

  lemma JobInRange(jobs: seq<Job>, j: nat)
    requires j < |jobs|
    ensures Offset(jobs, j) + |jobs[j].w.rows| <= Offset(jobs, |jobs|)
  {
    OffsetsGrow(jobs, j + 1, |jobs|);
  }

  ghost function Outputs(jobs: seq<Job>): set<array<real>> {
    set j | 0 <= j < |jobs| :: jobs[j].y
  }

  /** Every job has room for its product, in an array of its own. */
  ghost predicate Apart(jobs: seq<Job>) {
    && (forall j :: 0 <= j < |jobs| ==> |jobs[j].w.rows| <= jobs[j].y.Length)
    && (forall i, j :: 0 <= i < |jobs| && 0 <= j < |jobs| && i != j ==> jobs[i].y != jobs[j].y)
  }

  /** Row o of a job whose rows are numbered from `first` on. */
  function RowIndex(first: nat, o: nat): nat {
    first + o
  }

  /** An output that held `was` holds `now`: the rows between two bounds are computed. */
  ghost predicate Computed(ks: Kernels, w: Matrix, x: Vec, first: nat, from: nat, to: nat, was: seq<real>, now: seq<real>) {
    && |now| == |was| && |w.rows| <= |was|
    && forall o: nat :: o < |was| ==>
         now[o] == if o < |w.rows| && from <= RowIndex(first, o) < to then Entry(ks, w, x, o) else was[o]
  }

  lemma ComputedJoins(ks: Kernels, w: Matrix, x: Vec, first: nat, from: nat, mid: nat, to: nat,
                      was: seq<real>, then_: seq<real>, now: seq<real>)
    requires from <= mid <= to
    requires Computed(ks, w, x, first, from, mid, was, then_) && Computed(ks, w, x, first, mid, to, then_, now)
    ensures Computed(ks, w, x, first, from, to, was, now)
  {
    hide Entry;
  }

  lemma NothingComputed(ks: Kernels, w: Matrix, x: Vec, first: nat, from: nat, to: nat, was: seq<real>)
    requires |w.rows| <= |was| && (from >= to || to <= first || first + |w.rows| <= from)
    ensures Computed(ks, w, x, first, from, to, was, was)
  {
  }

  /** The contents of the outputs. */
  ghost function Contents(jobs: seq<Job>): (r: seq<seq<real>>)
    reads Outputs(jobs)
    ensures |r| == |jobs| && forall j :: 0 <= j < |jobs| ==> r[j] == jobs[j].y[..]
  {
    seq(|jobs|, j requires 0 <= j < |jobs| reads Outputs(jobs) =>
      assert jobs[j].y in Outputs(jobs); jobs[j].y[..])
  }

  /** The rows of a job that a range of the joint numbering holds. */
  method RunJob(ks: Kernels, job: Job, x: Vec, xq: Option<seq<byte>>, o0: nat, rb: nat, re: nat)
    requires |job.w.rows| <= job.y.Length && rb <= re
    requires job.w.quantDot ==> xq == Some(ks.quantize(x))
    modifies job.y
    ensures Computed(ks, job.w, x, o0, rb, re, old(job.y[..]), job.y[..])
  {
    hide Entry;
    var o1 := o0 + |job.w.rows|;
    var lo, hi := Max(rb, o0), Min(re, o1);
    if lo < hi {
      MatvecRows(ks, job.w, x, xq, job.y, lo - o0, hi - o0);
    }
  }

  /** Rows rb to re - 1 of the joint numbering: the range is clipped to each job in turn. */
  method RunRange(ks: Kernels, jobs: seq<Job>, x: Vec, xq: Option<seq<byte>>, rb: nat, re: nat)
    requires Apart(jobs) && rb <= re
    requires forall j :: 0 <= j < |jobs| && jobs[j].w.quantDot ==> xq == Some(ks.quantize(x))
    modifies Outputs(jobs)
    ensures forall j: nat :: j < |jobs| ==>
      Computed(ks, jobs[j].w, x, Offset(jobs, j), rb, re, old(Contents(jobs))[j], Contents(jobs)[j])
  {
    hide Computed;
    hide Entry;
    hide Contents;
    hide Offset;
    hide Apart;
    ghost var was := Contents(jobs);
    ghost var now := was;
    var off: nat := 0;
    OffsetSteps(jobs);
    for j := 0 to |jobs|
      invariant off == Offset(jobs, j)
      invariant now == Contents(jobs)
      invariant forall i: nat :: i < j ==> Computed(ks, jobs[i].w, x, Offset(jobs, i), rb, re, was[i], now[i])
      invariant forall i: nat :: j <= i < |jobs| ==> now[i] == was[i]
    {
      assert jobs[j].y in Outputs(jobs);
      RoomFor(jobs, j);
      label Before:
      RunJob(ks, jobs[j], x, xq, off, rb, re);
      OnlyOutput@Before(jobs, j, now);
      now := now[j := jobs[j].y[..]];
      off := off + |jobs[j].w.rows|;
    }
  }

  /** Writing one job's output leaves the others as they were. */
  twostate lemma OnlyOutput(jobs: seq<Job>, new j: nat, new before: seq<seq<real>>)
    requires j < |jobs| && Apart(jobs) && before == old(Contents(jobs))
    requires unchanged(Outputs(jobs) - {jobs[j].y})
    ensures Contents(jobs) == before[j := jobs[j].y[..]]
  {
    forall i | 0 <= i < |jobs| && i != j ensures jobs[i].y[..] == before[i] {
      assert jobs[i].y in Outputs(jobs) - {jobs[j].y};
    }
  }

  /** The joint rows on `count` threads. */
  method RunThreads(ks: Kernels, jobs: seq<Job>, x: Vec, xq: Option<seq<byte>>, total: nat, count: nat)
    requires count > 0 && Apart(jobs) && total == Offset(jobs, |jobs|)
    requires forall j :: 0 <= j < |jobs| && jobs[j].w.quantDot ==> xq == Some(ks.quantize(x))
    modifies Outputs(jobs)
    ensures forall j: nat :: j < |jobs| ==> AllComputed(ks, jobs[j].w, x, old(Contents(jobs))[j], Contents(jobs)[j])
  {
    hide Split;
    hide Entry;
    hide Computed;
    hide AllComputed;
    hide Start;
    ThreadStarts(count, total, ROW_TILE);
    ghost var was := Contents(jobs);
    forall j: nat | j < |jobs| ensures Computed(ks, jobs[j].w, x, Offset(jobs, j), 0, 0, was[j], was[j]) {
      NothingComputed(ks, jobs[j].w, x, Offset(jobs, j), 0, 0, was[j]);
    }
    hide Contents;
    hide Offset;
    ghost var now := was;
    for idx := 0 to count
      invariant now == Contents(jobs)
      invariant forall j: nat :: j < |jobs| ==>
        Computed(ks, jobs[j].w, x, Offset(jobs, j), 0, Start(idx, count, total, ROW_TILE), was[j], now[j])
    {
      var (rb, re) := Split(idx, count, total, ROW_TILE);
      ghost var mid := now;
      assert rb == Start(idx, count, total, ROW_TILE) && re == Start(Next(idx), count, total, ROW_TILE);
      RunRange(ks, jobs, x, xq, rb, re);
      now := Contents(jobs);
      forall j: nat | j < |jobs| ensures Computed(ks, jobs[j].w, x, Offset(jobs, j), 0, re, was[j], now[j]) {
        ComputedJoins(ks, jobs[j].w, x, Offset(jobs, j), 0, rb, re, was[j], mid[j], now[j]);
      }
    }
    forall j: nat | j < |jobs| ensures AllComputed(ks, jobs[j].w, x, was[j], now[j]) {
      JobInRange(jobs, j);
      ComputedToEnd(ks, jobs[j].w, x, Offset(jobs, j), total, was[j], now[j]);
    }
  }

  /** The products of several matrices with one vector: one quantization of it serves all of them. */
  method MatvecQuantFused(ks: Kernels, jobs: seq<Job>, x: Vec, count: nat)
    requires count > 0 && Apart(jobs)
    modifies Outputs(jobs)
    ensures forall j: nat, o: nat :: j < |jobs| && o < |jobs[j].w.rows| ==>
      jobs[j].y[o] == if jobs[j].w.quantDot then ks.quantDot(jobs[j].w.rows[o], ks.quantize(x)) else ks.dot(jobs[j].w.rows[o], x)
    ensures forall j: nat, o: nat :: j < |jobs| && |jobs[j].w.rows| <= o < jobs[j].y.Length ==>
      jobs[j].y[o] == old(jobs[j].y[o])
  {
    if |jobs| == 0 {
      return;
    }
    var anyQuant, total := false, 0;
    for j := 0 to |jobs|
      invariant total == Offset(jobs, j)
      invariant anyQuant <==> exists i :: 0 <= i < j && jobs[i].w.quantDot
    {
      anyQuant := anyQuant || jobs[j].w.quantDot;
      total := total + |jobs[j].w.rows|;
    }
    var xq := if anyQuant then Some(ks.quantize(x)) else None;
    RunThreads(ks, jobs, x, xq, total, count);
    forall j: nat, o: nat | j < |jobs| && o < jobs[j].y.Length
      ensures jobs[j].y[o] == if o < |jobs[j].w.rows| then Entry(ks, jobs[j].w, x, o) else old(jobs[j].y[o])
    {
      assert AllComputed(ks, jobs[j].w, x, old(Contents(jobs))[j], Contents(jobs)[j]);
      assert jobs[j].y[o] == Contents(jobs)[j][o];
    }
  }

  ghost predicate AllComputed(ks: Kernels, w: Matrix, x: Vec, was: seq<real>, now: seq<real>) {
    && |now| == |was| && |w.rows| <= |was|
    && forall o: nat :: o < |was| ==> now[o] == if o < |w.rows| then Entry(ks, w, x, o) else was[o]
  }

  lemma ComputedToEnd(ks: Kernels, w: Matrix, x: Vec, first: nat, to: nat, was: seq<real>, now: seq<real>)
    requires Computed(ks, w, x, first, 0, to, was, now) && first + |w.rows| <= to
    ensures AllComputed(ks, w, x, was, now)
  {
    hide Entry;
    forall o: nat | o < |was| ensures now[o] == if o < |w.rows| then Entry(ks, w, x, o) else was[o] {
      assert o < |w.rows| ==> RowIndex(first, o) < to;
    }
  }

  /** Every row of every job is in the range of exactly one thread. */
  lemma OneThreadComputes(jobs: seq<Job>, count: nat, j: nat, o: nat)
    requires count > 0 && j < |jobs| && o < |jobs[j].w.rows|
    ensures var total := Offset(jobs, |jobs|);
      && Covered(Offset(jobs, j) + o, count, total, ROW_TILE)
      && (forall k: nat, a: nat, b: nat ::
            Within(k, a, count, total, ROW_TILE) && Within(k, b, count, total, ROW_TILE) ==> a == b)
  {
    hide Split;
    JobInRange(jobs, j);
    SplitPartitions(count, Offset(jobs, |jobs|), ROW_TILE);
  }

  // ---- batches ----------------------------------------------------------------------------------

  /** The weights of a half-precision row. */
  type Halves = seq<nat>

  /** The sum of the first n products, each fused into the sum so far. */
  function FmaDot(ks: Kernels, row: Halves, x: Vec, n: nat): real
    requires n <= |row| && n <= |x|
  {
    if n == 0 then 0.0 else ks.fma(ks.f16(row[n - 1]), x[n - 1], FmaDot(ks, row, x, n - 1))
  }

  /** The running sums: each product is fused into the sum of those before it, from the first on. */
  lemma {:induction false} FmaDotIs(ks: Kernels, row: Halves, x: Vec, n: nat) returns (sums: seq<real>)
    requires n <= |row| && n <= |x|
    ensures |sums| == n + 1 && sums[0] == 0.0 && sums[n] == FmaDot(ks, row, x, n)
    ensures forall i :: 0 <= i < n ==> sums[i + 1] == ks.fma(ks.f16(row[i]), x[i], sums[i])
  {
    if n == 0 {
      sums := [0.0];
    } else {
      var before := FmaDotIs(ks, row, x, n - 1);
      sums := before + [FmaDot(ks, row, x, n)];
    }
  }

  /** The product of a half-precision matrix and a vector, row by row. */
  method MatvecF16(ks: Kernels, w: seq<Halves>, x: Vec, y: array<real>)
    requires |w| <= y.Length && forall o :: 0 <= o < |w| ==> |w[o]| == |x|
    modifies y
    ensures forall o :: 0 <= o < |w| ==> y[o] == FmaDot(ks, w[o], x, |x|)
    ensures forall o :: |w| <= o < y.Length ==> y[o] == old(y[o])
  {
    for o := 0 to |w|
      invariant forall p :: 0 <= p < o ==> y[p] == FmaDot(ks, w[p], x, |x|)
      invariant forall p :: o <= p < y.Length ==> y[p] == old(y[p])
    {
      var acc := 0.0;
      for i := 0 to |x|
        invariant acc == FmaDot(ks, w[o], x, i)
      {
        acc := ks.fma(ks.f16(w[o][i]), x[i], acc);
      }
      y[o] := acc;
    }
  }

  /** The inputs of a batch have as many entries as the rows of the weights. */
  predicate Fit(w: seq<Halves>, a: seq<Vec>, n: nat) {
    (forall o :: 0 <= o < |w| ==> |w[o]| == n) && (forall r :: 0 <= r < |a| ==> |a[r]| == n)
  }

  /** One output column: each weight is read once for all rows of the batch. */
  method Column(ks: Kernels, row: Halves, a: seq<Vec>) returns (acc: seq<real>)
    requires forall r :: 0 <= r < |a| ==> |a[r]| == |row|
    ensures |acc| == |a| && forall r :: 0 <= r < |a| ==> acc[r] == FmaDot(ks, row, a[r], |row|)
  {
    acc := seq(|a|, _ => 0.0);
    for i := 0 to |row|
      invariant |acc| == |a| && forall r :: 0 <= r < |a| ==> acc[r] == FmaDot(ks, row, a[r], i)
    {
      var weight := ks.f16(row[i]);
      for r := 0 to |a|
        invariant |acc| == |a|
        invariant forall s :: 0 <= s < r ==> acc[s] == FmaDot(ks, row, a[s], i + 1)
        invariant forall s :: r <= s < |a| ==> acc[s] == FmaDot(ks, row, a[s], i)
      {
        acc := acc[r := ks.fma(weight, a[r][i], acc[r])];
      }
    }
  }

  /** Output columns lo to hi - 1 of a batch. */
  method MatmulF16Rows(ks: Kernels, w: seq<Halves>, a: seq<Vec>, c: array2<real>, lo: nat, hi: nat, n: nat)
    requires Fit(w, a, n) && c.Length0 == |a| && c.Length1 == |w| && lo <= hi <= |w|
    modifies c
    ensures forall r, o :: 0 <= r < |a| && 0 <= o < |w| ==>
      c[r, o] == if lo <= o < hi then FmaDot(ks, w[o], a[r], n) else old(c[r, o])
  {
    for o := lo to hi
      invariant forall r, p :: 0 <= r < |a| && 0 <= p < |w| ==>
        c[r, p] == if lo <= p < o then FmaDot(ks, w[p], a[r], n) else old(c[r, p])
    {
      var acc := Column(ks, w[o], a);
      for r := 0 to |a|
        invariant forall s, p :: 0 <= s < |a| && 0 <= p < |w| ==>
          c[s, p] == if lo <= p < o || (p == o && s < r) then FmaDot(ks, w[p], a[s], n) else old(c[s, p])
      {
        c[r, o] := acc[r];
      }
    }
  }

  /** The product of a batch with a half-precision matrix, on `count` threads: every row of the result
      is what the kernel for one vector gives. */
  method MatmulF16Batched(ks: Kernels, w: seq<Halves>, a: seq<Vec>, c: array2<real>, count: nat, n: nat)
    requires count > 0 && Fit(w, a, n) && c.Length0 == |a| && c.Length1 == |w|
    modifies c
    ensures forall r, o :: 0 <= r < |a| && 0 <= o < |w| ==> c[r, o] == FmaDot(ks, w[o], a[r], n)
  {
    hide Split;
    hide FmaDot;
    ThreadStarts(count, |w|, 1);
    for idx := 0 to count
      invariant forall r, o :: 0 <= r < |a| && 0 <= o < Start(idx, count, |w|, 1) ==>
        c[r, o] == FmaDot(ks, w[o], a[r], n)
    {
      var (lo, hi) := Split(idx, count, |w|, 1);
      MatmulF16Rows(ks, w, a, c, lo, hi, n);
    }
  }
}
