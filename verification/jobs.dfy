/** Work units of the parallel executor and the pure algorithm behind it: partition the
    flat index range into slices, run the kernel over each slice, and copy the slice
    outputs back into the output store in whatever order they arrive. */
module Jobs {
  import opened Buffers

  /** The cell-kernel contract: the new value of one cell, from a read-only buffer, a flat
      index and a config. Its precondition is whatever the kernel needs not to panic. */
  type Kernel<!T, !C> = (Buffer<T>, nat, C) --> T

  /** The kernel may be applied at every index of [lo, hi). */
  ghost predicate DefinedOn<T, C>(kernel: Kernel<T, C>, b: Buffer<T>, conf: C, lo: nat, hi: nat) {
    forall i: nat :: lo <= i < hi ==> kernel.requires(b, i, conf)
  }

  /** Reference semantics of one compute call: the kernel at every index of the buffer. */
  function Step<T, C>(kernel: Kernel<T, C>, b: Buffer<T>, conf: C): (s: seq<T>)
    requires DefinedOn(kernel, b, conf, 0, |b.data|)
    ensures |s| == |b.data|
  {
    seq(|b.data|, i requires 0 <= i < |b.data| => kernel(b, i, conf))
  }

  /** What a worker produces for the slice [offset, offset + count): the kernel at each
      index, in index order. */
  function ProcessRange<T, C>(kernel: Kernel<T, C>, b: Buffer<T>, conf: C, offset: nat, count: nat): (s: seq<T>)
    requires DefinedOn(kernel, b, conf, offset, offset + count)
    ensures |s| == count
  {
    seq(count, j requires 0 <= j < count => kernel(b, offset + j, conf))
  }

  /** A slice's output is the matching slice of the reference output. */
  lemma ProcessRangeIsStepSlice<T, C>(kernel: Kernel<T, C>, b: Buffer<T>, conf: C, offset: nat, count: nat)
    requires DefinedOn(kernel, b, conf, 0, |b.data|) && offset + count <= |b.data|
    ensures ProcessRange(kernel, b, conf, offset, count) == Step(kernel, b, conf)[offset..offset + count]
  {
  }

  // ---------------------------------------------------------------------------------------
  // Work units

  /** A unit of dispatch: the shared input snapshot and config, the slice it covers, and
      the output storage it owns. */
  datatype JobDescriptor<T, C> = JobDescriptor(buffer: Buffer<T>, conf: C, offset: nat, count: nat, outBuffer: seq<T>)

  /** A finished unit: its filled output storage and the slice it covers. */
  datatype JobResult<T> = JobResult(buffer: seq<T>, count: nat, offset: nat)

  /** Converting a finished unit into a result hands over its storage and its slice. */
  function ResultFrom<T, C>(job: JobDescriptor<T, C>): (r: JobResult<T>)
    ensures r.buffer == job.outBuffer && r.offset == job.offset && r.count == job.count
  {
    JobResult(job.outBuffer, job.count, job.offset)
  }

  datatype Ordering = Less | Equal | Greater

  /** Results are ordered by their offset alone. */
  function CompareResults<T>(a: JobResult<T>, b: JobResult<T>): (o: Ordering)
    ensures o == Less <==> a.offset < b.offset
    ensures o == Equal <==> a.offset == b.offset
    ensures o == Greater <==> a.offset > b.offset
  {
    if a.offset < b.offset then Less else if a.offset == b.offset then Equal else Greater
  }

  /** Results are equal when their offsets are, whatever their storage holds. */
  function ResultsEq<T>(a: JobResult<T>, b: JobResult<T>): (eq: bool)
    ensures eq <==> CompareResults(a, b) == Equal
  {
    a.offset == b.offset
  }

  // ---------------------------------------------------------------------------------------
  // Partition of [0, len) into slices

  datatype Span = Span(offset: nat, count: nat)

  predicate Covers(s: Span, i: nat) {
    s.offset <= i < s.offset + s.count
  }

  ghost predicate CoveredBy(spans: seq<Span>, i: nat) {
    exists k :: 0 <= k < |spans| && Covers(spans[k], i)
  }

  /** The number of work units of one compute call: whole slices plus one remainder slice. */
  function JobCount(len: nat, sliceLen: nat): (n: nat)
    requires sliceLen > 0
    ensures n == 0 <==> len == 0
  {
    len / sliceLen + (if len % sliceLen > 0 then 1 else 0)
  }

  /** The slices in the order they are issued: `len / sliceLen` slices of `sliceLen`
      indices, then the remainder when there is one. */
  function Partition(len: nat, sliceLen: nat): (spans: seq<Span>)
    requires sliceLen > 0
    ensures |spans| == JobCount(len, sliceLen)
  {
    seq(JobCount(len, sliceLen), k requires 0 <= k =>
      if k < len / sliceLen then Span(k * sliceLen, sliceLen)
      else Span((len / sliceLen) * sliceLen, len % sliceLen))
  }

  /** The job count is the ceiling of len / sliceLen. */
  lemma JobCountIsCeiling(len: nat, sliceLen: nat)
    requires sliceLen > 0
    ensures JobCount(len, sliceLen) == (len + sliceLen - 1) / sliceLen
  {
    var q, r := len / sliceLen, len % sliceLen;
    if r == 0 {
      DivModUnique(len + sliceLen - 1, sliceLen, q, sliceLen - 1);
    } else {
      DivModUnique(len + sliceLen - 1, sliceLen, q + 1, r - 1);
    }
  }

  /** Every slice is non-empty, no longer than `sliceLen`, and inside [0, len). */
  lemma PartitionInBounds(len: nat, sliceLen: nat, k: nat)
    requires sliceLen > 0 && k < JobCount(len, sliceLen)
    ensures var s := Partition(len, sliceLen)[k];
      0 < s.count <= sliceLen && s.offset + s.count <= len
  {
    var q := len / sliceLen;
    if k < q {
      MulMonotone(k + 1, q, sliceLen);
    }
  }

  /** Slice k covers index i exactly when i is in range and k == i / sliceLen: the slices
      cover [0, len) and no two of them share an index. */
  lemma PartitionExact(len: nat, sliceLen: nat, k: nat, i: nat)
    requires sliceLen > 0 && k < JobCount(len, sliceLen)
    ensures Covers(Partition(len, sliceLen)[k], i) <==> i < len && k == i / sliceLen
  {
    var q := len / sliceLen;
    var s := Partition(len, sliceLen)[k];
    PartitionInBounds(len, sliceLen, k);
    if Covers(s, i) {
      DivModUnique(i, sliceLen, k, i - s.offset);
    }
    if i < len && k == i / sliceLen {
      if k < q {
        assert s.offset == k * sliceLen;
      } else {
        assert len == len % sliceLen + q * sliceLen;
      }
    }
  }

  /** Every index in [0, len) lies in the slice numbered i / sliceLen. */
  lemma PartitionCovers(len: nat, sliceLen: nat, i: nat)
    requires sliceLen > 0 && i < len
    ensures i / sliceLen < JobCount(len, sliceLen)
    ensures Covers(Partition(len, sliceLen)[i / sliceLen], i)
  {
    var q, k := len / sliceLen, i / sliceLen;
    assert len == len % sliceLen + q * sliceLen;
    assert i == i % sliceLen + k * sliceLen;
    if k > q {
      MulMonotone(q + 1, k, sliceLen);
      assert false;
    }
    if k == q && len % sliceLen == 0 {
      assert false;
    }
    PartitionExact(len, sliceLen, k, i);
  }

  /** The partition of [0, len): the slices lie inside it, cover it, and are pairwise disjoint. */
  lemma PartitionIsPartition(len: nat, sliceLen: nat)
    requires sliceLen > 0
    ensures var spans := Partition(len, sliceLen);
      (forall k :: 0 <= k < |spans| ==> spans[k].offset + spans[k].count <= len) &&
      (forall i: nat :: i < len ==> CoveredBy(spans, i)) &&
      (forall k1, k2, i: nat ::
         0 <= k1 < |spans| && 0 <= k2 < |spans| && Covers(spans[k1], i) && Covers(spans[k2], i) ==> k1 == k2)
  {
    var spans := Partition(len, sliceLen);
    forall k | 0 <= k < |spans| ensures spans[k].offset + spans[k].count <= len {
      PartitionInBounds(len, sliceLen, k);
    }
    forall i: nat | i < len ensures CoveredBy(spans, i) {
      PartitionCovers(len, sliceLen, i);
      assert Covers(spans[i / sliceLen], i);
    }
    forall k1, k2, i: nat | 0 <= k1 < |spans| && 0 <= k2 < |spans| && Covers(spans[k1], i) && Covers(spans[k2], i)
      ensures k1 == k2
    {
      PartitionExact(len, sliceLen, k1, i);
      PartitionExact(len, sliceLen, k2, i);
    }
  }

  /** The results a compute call expects back, one per slice, in issue order. */
  function ExpectedResults<T, C>(kernel: Kernel<T, C>, b: Buffer<T>, conf: C, sliceLen: nat): (rs: seq<JobResult<T>>)
    requires sliceLen > 0 && DefinedOn(kernel, b, conf, 0, |b.data|)
    ensures |rs| == JobCount(|b.data|, sliceLen)
  {
    var spans := Partition(|b.data|, sliceLen);
    seq(|spans|, k requires 0 <= k < |spans| =>
      PartitionInBounds(|b.data|, sliceLen, k);
      JobResult(ProcessRange(kernel, b, conf, spans[k].offset, spans[k].count), spans[k].count, spans[k].offset))
  }

  /** Issue order is offset order: sorting the results by their `Ord` changes nothing. */
  lemma ExpectedResultsSorted<T, C>(kernel: Kernel<T, C>, b: Buffer<T>, conf: C, sliceLen: nat, k1: nat, k2: nat)
    requires sliceLen > 0 && DefinedOn(kernel, b, conf, 0, |b.data|)
    requires k1 < k2 < JobCount(|b.data|, sliceLen)
    ensures var rs := ExpectedResults(kernel, b, conf, sliceLen);
      CompareResults(rs[k1], rs[k2]) == Less
  {
    var q := |b.data| / sliceLen;
    if k2 < q {
      MulMonotone(k1 + 1, k2, sliceLen);
    } else {
      MulMonotone(k1 + 1, q, sliceLen);
    }
  }

  // ---------------------------------------------------------------------------------------
  // Reassembly

  predicate FitsIn<T>(r: JobResult<T>, n: nat) {
    r.offset + r.count <= n && |r.buffer| == r.count
  }

  /** The result's slice contains index `i`. */
  predicate CoversIndex<T>(r: JobResult<T>, i: nat) {
    Covers(Span(r.offset, r.count), i)
  }

  /** `out[offset..offset + count].copy_from_slice(buffer)`: the slice is overwritten with
      the result's storage and everything else is kept. */
  function CopyResult<T>(out: seq<T>, r: JobResult<T>): (res: seq<T>)
    requires FitsIn(r, |out|)
    ensures |res| == |out|
    ensures forall i :: 0 <= i < |out| ==>
      res[i] == if CoversIndex(r, i) then r.buffer[i - r.offset] else out[i]
  {
    out[..r.offset] + r.buffer + out[r.offset + r.count..]
  }

  /** Copy the results into `out` in arrival order. */
  function Reassemble<T>(out: seq<T>, rs: seq<JobResult<T>>): (res: seq<T>)
    requires forall r :: r in rs ==> FitsIn(r, |out|)
    ensures |res| == |out|
    decreases |rs|
  {
    if rs == [] then out
    else CopyResult(Reassemble(out, rs[..|rs| - 1]), rs[|rs| - 1])
  }

  predicate Overlap<T>(a: JobResult<T>, b: JobResult<T>) {
    a.offset < b.offset + b.count && b.offset < a.offset + a.count
  }

  /** Distinct results write disjoint slices. */
  ghost predicate Disjoint<T>(rs: seq<JobResult<T>>) {
    forall a, b :: a in rs && b in rs && Overlap(a, b) ==> a == b
  }

  /** After reassembly, an index holds the value of the result covering it, or its old
      value when no result covers it. */
  lemma {:induction false} ReassembleAt<T>(out: seq<T>, rs: seq<JobResult<T>>, i: nat)
    requires forall r :: r in rs ==> FitsIn(r, |out|)
    requires Disjoint(rs) && i < |out|
    ensures forall r :: r in rs && CoversIndex(r, i) ==> Reassemble(out, rs)[i] == r.buffer[i - r.offset]
    ensures (forall r :: r in rs ==> !CoversIndex(r, i)) ==> Reassemble(out, rs)[i] == out[i]
    decreases |rs|
  {
    if rs != [] {
      var init, last := rs[..|rs| - 1], rs[|rs| - 1];
      assert forall r :: r in init ==> r in rs;
      ReassembleAt(out, init, i);
      forall r | r in rs && CoversIndex(r, i)
        ensures Reassemble(out, rs)[i] == r.buffer[i - r.offset]
      {
        if CoversIndex(last, i) {
          assert Overlap(r, last);
        } else {
          assert r in init;
        }
      }
    }
  }

  /** Reassembly does not depend on arrival order: any two sequences holding the same
      disjoint results fill `out` identically. */
  lemma ReassembleOrderIndependent<T>(out: seq<T>, rs1: seq<JobResult<T>>, rs2: seq<JobResult<T>>)
    requires forall r :: r in rs1 ==> FitsIn(r, |out|)
    requires Disjoint(rs1)
    requires forall r :: r in rs1 <==> r in rs2
    ensures forall r :: r in rs2 ==> FitsIn(r, |out|)
    ensures Reassemble(out, rs1) == Reassemble(out, rs2)
  {
    forall i: nat | i < |out| ensures Reassemble(out, rs1)[i] == Reassemble(out, rs2)[i] {
      ReassembleAt(out, rs1, i);
      ReassembleAt(out, rs2, i);
    }
  }

  /** The expected results fit the buffer and write disjoint slices. */
  lemma ExpectedResultsDisjoint<T, C>(kernel: Kernel<T, C>, b: Buffer<T>, conf: C, sliceLen: nat)
    requires sliceLen > 0 && DefinedOn(kernel, b, conf, 0, |b.data|)
    ensures var rs := ExpectedResults(kernel, b, conf, sliceLen);
      (forall r :: r in rs ==> FitsIn(r, |b.data|)) && Disjoint(rs)
  {
    var len := |b.data|;
    var rs := ExpectedResults(kernel, b, conf, sliceLen);
    var spans := Partition(len, sliceLen);
    forall r | r in rs ensures FitsIn(r, len) {
      var k :| 0 <= k < |rs| && rs[k] == r;
      PartitionInBounds(len, sliceLen, k);
    }
    forall r1, r2 | r1 in rs && r2 in rs && Overlap(r1, r2) ensures r1 == r2 {
      var k1 :| 0 <= k1 < |rs| && rs[k1] == r1;
      var k2 :| 0 <= k2 < |rs| && rs[k2] == r2;
      var i: nat := if r1.offset < r2.offset then r2.offset else r1.offset;
      PartitionExact(len, sliceLen, k1, i);
      PartitionExact(len, sliceLen, k2, i);
    }
  }

  /** Result k of a compute call covers slice k of the partition and holds the kernel's
      value at each of its indices. */
  lemma ExpectedResultAt<T, C>(kernel: Kernel<T, C>, b: Buffer<T>, conf: C, sliceLen: nat, k: nat)
    requires sliceLen > 0 && DefinedOn(kernel, b, conf, 0, |b.data|)
    requires k < JobCount(|b.data|, sliceLen)
    ensures var r := ExpectedResults(kernel, b, conf, sliceLen)[k];
      Span(r.offset, r.count) == Partition(|b.data|, sliceLen)[k] && FitsIn(r, |b.data|) &&
      forall j :: 0 <= j < r.count ==> r.buffer[j] == kernel(b, r.offset + j, conf)
  {
    PartitionInBounds(|b.data|, sliceLen, k);
  }

  /** Reassembling the expected results in issue order puts the kernel's value at every
      index of [0, len) and keeps `out` beyond it. */
  lemma ExpectedReassembledAt<T, C>(kernel: Kernel<T, C>, b: Buffer<T>, conf: C, sliceLen: nat, out: seq<T>, i: nat)
    requires sliceLen > 0 && DefinedOn(kernel, b, conf, 0, |b.data|)
    requires |b.data| <= |out| && i < |out|
    ensures forall r :: r in ExpectedResults(kernel, b, conf, sliceLen) ==> FitsIn(r, |out|)
    ensures Reassemble(out, ExpectedResults(kernel, b, conf, sliceLen))[i] ==
            if i < |b.data| then kernel(b, i, conf) else out[i]
  {
    var len := |b.data|;
    var rs := ExpectedResults(kernel, b, conf, sliceLen);
    ExpectedResultsDisjoint(kernel, b, conf, sliceLen);
    assert forall r :: r in rs ==> FitsIn(r, |out|);
    if i < len {
      var r := ExpectedResultCovering(kernel, b, conf, sliceLen, i);
      ReassembleAt(out, rs, i);
    } else {
      ReassembleAt(out, rs, i);
    }
  }

  /** Each index of [0, len) is covered by an expected result holding the kernel's value there. */
  lemma ExpectedResultCovering<T, C>(kernel: Kernel<T, C>, b: Buffer<T>, conf: C, sliceLen: nat, i: nat)
    returns (r: JobResult<T>)
    requires sliceLen > 0 && DefinedOn(kernel, b, conf, 0, |b.data|) && i < |b.data|
    ensures r in ExpectedResults(kernel, b, conf, sliceLen) && CoversIndex(r, i)
    ensures r.buffer[i - r.offset] == kernel(b, i, conf)
  {
    var k := i / sliceLen;
    PartitionCovers(|b.data|, sliceLen, i);
    ExpectedResultAt(kernel, b, conf, sliceLen, k);
    r := ExpectedResults(kernel, b, conf, sliceLen)[k];
    assert r.buffer[i - r.offset] == kernel(b, r.offset + (i - r.offset), conf);
  }

  /** Executor equivalence: whatever order the results of the partition come back in,
      copying them into `out` yields the reference output on [0, len) and leaves the rest
      of `out` alone. */
  lemma ExecutorEquivalence<T, C>(kernel: Kernel<T, C>, b: Buffer<T>, conf: C, sliceLen: nat,
                                  out: seq<T>, arrived: seq<JobResult<T>>)
    requires sliceLen > 0 && DefinedOn(kernel, b, conf, 0, |b.data|)
    requires |out| >= |b.data|
    requires forall r :: r in arrived <==> r in ExpectedResults(kernel, b, conf, sliceLen)
    ensures forall r :: r in arrived ==> FitsIn(r, |out|)
    ensures Reassemble(out, arrived) == Step(kernel, b, conf) + out[|b.data|..]
  {
    var len := |b.data|;
    var rs := ExpectedResults(kernel, b, conf, sliceLen);
    ExpectedResultsDisjoint(kernel, b, conf, sliceLen);
    assert forall r :: r in rs ==> FitsIn(r, |out|);
    ReassembleOrderIndependent(out, rs, arrived);
    var expected := Step(kernel, b, conf) + out[len..];
    forall i: nat | i < |out| ensures Reassemble(out, rs)[i] == expected[i] {
      ExpectedReassembledAt(kernel, b, conf, sliceLen, out, i);
    }
  }

  // ---------------------------------------------------------------------------------------
  // Arrival order of the result queue

  /** `order` lists the job numbers 0 .. n-1, each once, in the order the results arrive. */
  predicate IsArrivalOrder(order: seq<nat>, n: nat) {
    (forall j :: 0 <= j < |order| ==> order[j] < n) &&
    multiset(order) == multiset(seq(n, k => k))
  }

  lemma ArrivalOrderMembers(order: seq<nat>, n: nat)
    requires IsArrivalOrder(order, n)
    ensures |order| == n
    ensures forall k :: 0 <= k < n ==> k in order
  {
    var ids := seq(n, k => k);
    assert |multiset(order)| == |multiset(ids)|;
    forall k | 0 <= k < n ensures k in order {
      assert ids[k] == k;
      assert k in multiset(ids);
    }
  }

  /** The results as they come off the result queue. */
  function InArrivalOrder<T>(rs: seq<JobResult<T>>, order: seq<nat>): (arrived: seq<JobResult<T>>)
    requires forall j :: 0 <= j < |order| ==> order[j] < |rs|
    ensures |arrived| == |order|
    ensures forall j :: 0 <= j < |order| ==> arrived[j] == rs[order[j]]
  {
    seq(|order|, j requires 0 <= j < |order| => rs[order[j]])
  }

  /** Partition, process, permute, reassemble: for every arrival order, the parallel
      algorithm fills `out` exactly as the single-thread executor does. */
  lemma ParallelMatchesSingleThread<T, C>(kernel: Kernel<T, C>, b: Buffer<T>, conf: C, sliceLen: nat,
                                          out: seq<T>, order: seq<nat>)
    requires sliceLen > 0 && DefinedOn(kernel, b, conf, 0, |b.data|)
    requires |out| >= |b.data|
    requires IsArrivalOrder(order, JobCount(|b.data|, sliceLen))
    ensures var arrived := InArrivalOrder(ExpectedResults(kernel, b, conf, sliceLen), order);
      (forall r :: r in arrived ==> FitsIn(r, |out|)) &&
      Reassemble(out, arrived) == Step(kernel, b, conf) + out[|b.data|..]
  {
    var rs := ExpectedResults(kernel, b, conf, sliceLen);
    PermutedSameMembers(rs, order);
    ExecutorEquivalence(kernel, b, conf, sliceLen, out, InArrivalOrder(rs, order));
  }

  /** Permuting the results by an arrival order loses and adds none of them. */
  lemma PermutedSameMembers<T>(rs: seq<JobResult<T>>, order: seq<nat>)
    requires IsArrivalOrder(order, |rs|)
    ensures forall r :: r in InArrivalOrder(rs, order) <==> r in rs
  {
    ArrivalOrderMembers(order, |rs|);
    var arrived := InArrivalOrder(rs, order);
    forall r | r in rs ensures r in arrived {
      var k :| 0 <= k < |rs| && rs[k] == r;
      assert k in order;
      var j :| 0 <= j < |order| && order[j] == k;
      assert arrived[j] == r;
    }
  }
}
