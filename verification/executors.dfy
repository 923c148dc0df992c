/** The two executors and the iteration driver they share. The single-thread executor
    applies the kernel index by index; the parallel executor splits the buffer into work
    units, has them processed, and copies the results back in the order they arrive.
    Threads and queues are not modelled: the order in which results come off the result
    queue is a parameter, any permutation of the job numbers. */
module Executors {
  import opened Buffers
  import opened Jobs

  function Min(a: nat, b: nat): nat {
    if a < b then a else b
  }

  function Max(a: nat, b: nat): nat {
    if a < b then b else a
  }

  /** The work step of a worker's poll loop: clear the unit's storage, push the kernel's
      value for each index of its slice in order, and hand the unit back as a result. */
  method ProcessWork<T, C>(kernel: Kernel<T, C>, job: JobDescriptor<T, C>) returns (r: JobResult<T>)
    requires DefinedOn(kernel, job.buffer, job.conf, job.offset, job.offset + job.count)
    ensures r.offset == job.offset && r.count == job.count
    ensures r.buffer == ProcessRange(kernel, job.buffer, job.conf, job.offset, job.count)
  {
    var outBuffer := job.outBuffer;
    outBuffer := [];
    for index := job.offset to job.offset + job.count
      invariant outBuffer == ProcessRange(kernel, job.buffer, job.conf, job.offset, index - job.offset)
    {
      outBuffer := outBuffer + [kernel(job.buffer, index, job.conf)];
    }
    r := ResultFrom(job.(outBuffer := outBuffer));
  }

  /** Single-thread compute: write the kernel's value at every index of the input into
      `out`, in increasing order, and give the input buffer back. */
  method SingleThreadCompute<T, C>(kernel: Kernel<T, C>, inBuffer: Buffer<T>, out: array<T>, conf: C)
    returns (r: Buffer<T>)
    requires |inBuffer.data| <= out.Length
    requires DefinedOn(kernel, inBuffer, conf, 0, |inBuffer.data|)
    modifies out
    ensures r == inBuffer
    ensures out[..|inBuffer.data|] == Step(kernel, inBuffer, conf)
    ensures out[|inBuffer.data|..] == old(out[|inBuffer.data|..])
  {
    for index := 0 to inBuffer.Len()
      invariant forall i :: 0 <= i < index ==> out[i] == kernel(inBuffer, i, conf)
      invariant forall i :: index <= i < out.Length ==> out[i] == old(out[i])
    {
      out[index] := kernel(inBuffer, index, conf);
    }
    r := inBuffer;
  }

  /** `out[offset..offset + |src|].copy_from_slice(src)`. */
  method CopyFromSlice<T>(out: array<T>, offset: nat, src: seq<T>)
    requires offset + |src| <= out.Length
    modifies out
    ensures out[..] == CopyResult(old(out[..]), JobResult(src, |src|, offset))
  {
    forall i | offset <= i < offset + |src| {
      out[i] := src[i - offset];
    }
  }

  /** The storages of the results, in order. */
  function ResultBuffers<T>(rs: seq<JobResult<T>>): (bufs: seq<seq<T>>)
    ensures |bufs| == |rs| && forall j :: 0 <= j < |rs| ==> bufs[j] == rs[j].buffer
  {
    seq(|rs|, j requires 0 <= j < |rs| => rs[j].buffer)
  }

  /** The parallel executor with its slice pool. The worker threads are represented only by
      their number. */
  class ExecutorParallel<T, C> {
    const kernel: Kernel<T, C>
    const threadCount: nat
    const workSliceLen: nat
    /** Freelist of output storages, used as a stack. */
    var slices: seq<seq<T>>

    predicate Valid() {
      threadCount >= 1 && workSliceLen >= 1
    }

    /** Thread count and slice length below 1 are raised to 1; the pool starts empty. */
    constructor (kernel: Kernel<T, C>, threadCount: nat, workSliceLen: nat)
      ensures Valid()
      ensures this.kernel == kernel
      ensures this.threadCount == if threadCount < 1 then 1 else threadCount
      ensures this.workSliceLen == if workSliceLen < 1 then 1 else workSliceLen
      ensures slices == []
    {
      this.kernel := kernel;
      this.threadCount := if threadCount < 1 then 1 else threadCount;
      this.workSliceLen := if workSliceLen < 1 then 1 else workSliceLen;
      slices := [];
    }

    /** Take the most recently returned storage, or a fresh empty one when the pool is empty. */
    method GetSlice() returns (slice: seq<T>)
      modifies this
      ensures old(slices) == [] ==> slice == [] && slices == []
      ensures old(slices) != [] ==>
        slice == old(slices)[|old(slices)| - 1] && slices == old(slices)[..|old(slices)| - 1]
    {
      if slices == [] {
        slice := [];
      } else {
        slice := slices[|slices| - 1];
        slices := slices[..|slices| - 1];
      }
    }

    /** Return a storage to the pool. */
    method PushSlice(slice: seq<T>)
      modifies this
      ensures slices == old(slices) + [slice]
    {
      slices := slices + [slice];
    }

    /** Issue one work unit per slice of the partition of a `len`-cell buffer, in offset
        order, each carrying storage taken from the pool. */
    method IssueJobs(inBuffer: Buffer<T>, conf: C) returns (jobs: seq<JobDescriptor<T, C>>)
      requires Valid()
      modifies this
      ensures |jobs| == JobCount(|inBuffer.data|, workSliceLen)
      ensures forall k :: 0 <= k < |jobs| ==>
        jobs[k].buffer == inBuffer && jobs[k].conf == conf &&
        Span(jobs[k].offset, jobs[k].count) == Partition(|inBuffer.data|, workSliceLen)[k]
      ensures slices == old(slices)[..|old(slices)| - Min(|jobs|, |old(slices)|)]
    {
      var len := inBuffer.Len();
      var sliceCount := len / workSliceLen;
      var sliceLeftover := len % workSliceLen;
      ghost var spans := Partition(len, workSliceLen);
      jobs := [];
      for i := 0 to sliceCount
        invariant |jobs| == i
        invariant forall k :: 0 <= k < i ==>
          jobs[k].buffer == inBuffer && jobs[k].conf == conf && Span(jobs[k].offset, jobs[k].count) == spans[k]
        invariant slices == old(slices)[..|old(slices)| - Min(i, |old(slices)|)]
      {
        var outBuffer := GetSlice();
        jobs := jobs + [JobDescriptor(inBuffer, conf, i * workSliceLen, workSliceLen, outBuffer)];
      }
      if sliceLeftover > 0 {
        var outBuffer := GetSlice();
        jobs := jobs + [JobDescriptor(inBuffer, conf, sliceCount * workSliceLen, sliceLeftover, outBuffer)];
      }
    }

    /** Take the results off the queue in arrival order: copy each into its slice of `out`
        and return its storage to the pool. */
    method ReassembleResults(out: array<T>, results: seq<JobResult<T>>)
      requires forall r :: r in results ==> FitsIn(r, out.Length)
      modifies this, out
      ensures out[..] == Reassemble(old(out[..]), results)
      ensures slices == old(slices) + ResultBuffers(results)
    {
      for j := 0 to |results|
        invariant out[..] == Reassemble(old(out[..]), results[..j])
        invariant slices == old(slices) + ResultBuffers(results[..j])
      {
        var slice := results[j];
        assert results[..j + 1][..j] == results[..j];
        assert slice in results;
        CopyFromSlice(out, slice.offset, slice.buffer);
        PushSlice(slice.buffer);
      }
      assert results[..|results|] == results;
    }

    /** Parallel compute. Issues one work unit per slice of the partition, each with storage
        from the pool; the units are processed and their results arrive in `arrival` order;
        each result is copied into its slice of `out` and its storage goes back to the pool. */
    method Compute(inBuffer: Buffer<T>, out: array<T>, conf: C, arrival: seq<nat>) returns (r: Buffer<T>)
      requires Valid()
      requires |inBuffer.data| <= out.Length
      requires DefinedOn(kernel, inBuffer, conf, 0, |inBuffer.data|)
      requires IsArrivalOrder(arrival, JobCount(|inBuffer.data|, workSliceLen))
      modifies this, out
      ensures r == inBuffer
      ensures out[..|inBuffer.data|] == Step(kernel, inBuffer, conf)
      ensures out[|inBuffer.data|..] == old(out[|inBuffer.data|..])
      ensures slices ==
        old(slices)[..|old(slices)| - Min(JobCount(|inBuffer.data|, workSliceLen), |old(slices)|)] +
        ResultBuffers(InArrivalOrder(ExpectedResults(kernel, inBuffer, conf, workSliceLen), arrival))
    {
      var jobs := IssueJobs(inBuffer, conf);
      var results := ProcessInArrivalOrder(kernel, inBuffer, conf, workSliceLen, jobs, arrival);
      ParallelMatchesSingleThread(kernel, inBuffer, conf, workSliceLen, out[..], arrival);
      ReassembleResults(out, results);
      r := inBuffer;
    }
  }

  /** The workers process the issued units; their results come off the queue in `arrival`
      order. */
  method ProcessInArrivalOrder<T, C>(kernel: Kernel<T, C>, inBuffer: Buffer<T>, conf: C, sliceLen: nat,
                                     jobs: seq<JobDescriptor<T, C>>, arrival: seq<nat>)
    returns (results: seq<JobResult<T>>)
    requires sliceLen > 0 && DefinedOn(kernel, inBuffer, conf, 0, |inBuffer.data|)
    requires |jobs| == JobCount(|inBuffer.data|, sliceLen)
    requires forall k :: 0 <= k < |jobs| ==>
      jobs[k].buffer == inBuffer && jobs[k].conf == conf &&
      Span(jobs[k].offset, jobs[k].count) == Partition(|inBuffer.data|, sliceLen)[k]
    requires IsArrivalOrder(arrival, |jobs|)
    ensures results == InArrivalOrder(ExpectedResults(kernel, inBuffer, conf, sliceLen), arrival)
  {
    ghost var expected := ExpectedResults(kernel, inBuffer, conf, sliceLen);
    ArrivalOrderMembers(arrival, |jobs|);
    results := [];
    for j := 0 to |arrival|
      invariant |results| == j
      invariant forall m :: 0 <= m < j ==> results[m] == expected[arrival[m]]
    {
      var k := arrival[j];
      ExpectedResultAt(kernel, inBuffer, conf, sliceLen, k);
      var result := ProcessWork(kernel, jobs[k]);
      results := results + [result];
    }
  }

  /** The executor chosen at start-up: a closed variant over the two kinds. */
  datatype Executor<!T, !C> = SingleThread(kernel: Kernel<T, C>) | Parallel(parallel: ExecutorParallel<T, C>) {

    function CellKernel(): Kernel<T, C> {
      if SingleThread? then kernel else parallel.kernel
    }

    predicate Valid() {
      Parallel? ==> parallel.Valid()
    }

    function Footprint(): set<object> {
      if Parallel? then {parallel} else {}
    }
  }

  /** One compute call on whichever executor was chosen; both give the reference output. */
  method Compute<T, C>(e: Executor<T, C>, inBuffer: Buffer<T>, out: array<T>, conf: C, arrival: seq<nat>)
    returns (r: Buffer<T>)
    requires e.Valid()
    requires |inBuffer.data| <= out.Length
    requires DefinedOn(e.CellKernel(), inBuffer, conf, 0, |inBuffer.data|)
    requires e.Parallel? ==> IsArrivalOrder(arrival, JobCount(|inBuffer.data|, e.parallel.workSliceLen))
    modifies out, e.Footprint()
    ensures r == inBuffer
    ensures out[..|inBuffer.data|] == Step(e.CellKernel(), inBuffer, conf)
    ensures out[|inBuffer.data|..] == old(out[|inBuffer.data|..])
    ensures e.Parallel? ==> (
      e.parallel.slices ==
        old(e.parallel.slices)[..|old(e.parallel.slices)| -
                                 Min(JobCount(|inBuffer.data|, e.parallel.workSliceLen), |old(e.parallel.slices)|)] +
        ResultBuffers(InArrivalOrder(ExpectedResults(e.parallel.kernel, inBuffer, conf, e.parallel.workSliceLen), arrival)))
  {
    if e.SingleThread? {
      r := SingleThreadCompute(e.kernel, inBuffer, out, conf);
    } else {
      r := e.parallel.Compute(inBuffer, out, conf, arrival);
    }
  }

  /** The kernel may be applied at every index of every buffer of the given shape. */
  ghost predicate DefinedOnShape<T(!new), C>(kernel: Kernel<T, C>, dims: (nat, nat, nat), len: nat, conf: C) {
    forall b: Buffer<T>, i: nat :: b.dims == dims && |b.data| == len && i < len ==> kernel.requires(b, i, conf)
  }

  /** `n` generations: the reference step applied `n` times, keeping the dims. */
  function Iterate<T(!new), C>(kernel: Kernel<T, C>, b: Buffer<T>, conf: C, n: nat): (r: Buffer<T>)
    requires DefinedOnShape(kernel, b.dims, |b.data|, conf)
    ensures r.dims == b.dims && |r.data| == |b.data|
  {
    if n == 0 then b
    else
      var prev := Iterate(kernel, b, conf, n - 1);
      Buffer(Step(kernel, prev, conf), b.dims)
  }

  /** Running m generations and then n more is running m + n. */
  lemma {:induction false} IterateAdditive<T(!new), C>(kernel: Kernel<T, C>, b: Buffer<T>, conf: C, m: nat, n: nat)
    requires DefinedOnShape(kernel, b.dims, |b.data|, conf)
    ensures Iterate(kernel, Iterate(kernel, b, conf, m), conf, n) == Iterate(kernel, b, conf, m + n)
  {
    if n > 0 {
      IterateAdditive(kernel, b, conf, m, n - 1);
    }
  }

  /** The ping-pong driver: the input buffer's storage and a clone of it take turns as input
      and output; after the loop the toggle picks the one holding the last generation. */
  method ComputeIterations<T(!new), C>(e: Executor<T, C>, iterations: nat, buffer: Buffer<T>, conf: C,
                                 arrivals: seq<seq<nat>>)
    returns (r: Buffer<T>)
    requires e.Valid()
    requires DefinedOnShape(e.CellKernel(), buffer.dims, |buffer.data|, conf)
    requires e.Parallel? ==> |arrivals| == iterations
    requires e.Parallel? ==>
      forall k :: 0 <= k < iterations ==> IsArrivalOrder(arrivals[k], JobCount(|buffer.data|, e.parallel.workSliceLen))
    modifies e.Footprint()
    ensures r == Iterate(e.CellKernel(), buffer, conf, iterations)
    ensures iterations == 0 ==> r == buffer
    ensures e.Parallel? && iterations == 0 ==> e.parallel.slices == old(e.parallel.slices)
    ensures e.Parallel? && iterations > 0 ==>
      |e.parallel.slices| == Max(|old(e.parallel.slices)|, JobCount(|buffer.data|, e.parallel.workSliceLen))
  {
    var len := |buffer.data|;
    var store := new T[len](i requires 0 <= i < len => buffer.data[i]);
    var store2 := new T[len](i requires 0 <= i < len => buffer.data[i]);
    assert store[..] == buffer.data;
    var toggle := true;
    ghost var poolLen := if e.Parallel? then |e.parallel.slices| else 0;
    for k := 0 to iterations
      invariant toggle <==> k % 2 == 0
      invariant e.Parallel? && k == 0 ==> e.parallel.slices == old(e.parallel.slices)
      invariant e.Parallel? && k > 0 ==>
        |e.parallel.slices| == Max(poolLen, JobCount(len, e.parallel.workSliceLen))
      invariant toggle ==> store[..] == Iterate(e.CellKernel(), buffer, conf, k).data
      invariant !toggle ==> store2[..] == Iterate(e.CellKernel(), buffer, conf, k).data
    {
      var arrival := if e.Parallel? then arrivals[k] else [];
      if e.Parallel? {
        ArrivalOrderMembers(arrival, JobCount(len, e.parallel.workSliceLen));
      }
      if toggle {
        var returned := Compute(e, Buffer(store[..], buffer.dims), store2, conf, arrival);
        assert store2[..] == store2[..len];
      } else {
        var returned := Compute(e, Buffer(store2[..], buffer.dims), store, conf, arrival);
        assert store[..] == store[..len];
      }
      toggle := !toggle;
    }
    r := if toggle then Buffer(store[..], buffer.dims) else Buffer(store2[..], buffer.dims);
  }
}
