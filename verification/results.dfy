/** The counter record every phase returns and the pipeline that folds the
    phases together (generator/types.go). The `ProcessedFiles` a phase
    threads through and the `BuildContext` it reads are type parameters:
    the fold never looks inside them. */
module Results {
  import opened Wrappers

  /** A clock reading, as an integer; `ZeroTime` stands for time.Time{}. */
  const ZeroTime: int := 0

  /** GenerationResult: seven counters and the (unexported) start time. */
  datatype GenerationResult = GenerationResult(
    totalFilesScanned: int,
    filesWithUuids: int,
    filesGenerated: int,
    filesSkipped: int,
    tagPagesGenerated: int,
    staticFilesCopied: int,
    errors: int,
    startTime: int)

  /** The zero value GenerationResult{}. */
  const Zero := GenerationResult(0, 0, 0, 0, 0, 0, 0, ZeroTime)

  /** The number of counters. */
  const Width := 7

  /** The counters in declaration order: the record seen as a vector. */
  function Counters(r: GenerationResult): (c: seq<int>)
    ensures |c| == Width
  {
    [r.totalFilesScanned, r.filesWithUuids, r.filesGenerated, r.filesSkipped,
     r.tagPagesGenerated, r.staticFilesCopied, r.errors]
  }

  /** Two results with the same counters and start time are the same. */
  lemma CountersDetermine(a: GenerationResult, b: GenerationResult)
    requires Counters(a) == Counters(b) && a.startTime == b.startTime
    ensures a == b
  {
    assert Counters(a)[0] == Counters(b)[0] && Counters(a)[1] == Counters(b)[1];
    assert Counters(a)[2] == Counters(b)[2] && Counters(a)[3] == Counters(b)[3];
    assert Counters(a)[4] == Counters(b)[4] && Counters(a)[5] == Counters(b)[5];
    assert Counters(a)[6] == Counters(b)[6];
  }

  /** GenerationResult.Add: the vector sum of the counters. The start time
      is not carried over, so the sum always has the zero time. */
  function Add(r: GenerationResult, other: GenerationResult): (s: GenerationResult)
    ensures forall i :: 0 <= i < Width ==> Counters(s)[i] == Counters(r)[i] + Counters(other)[i]
    ensures s.startTime == ZeroTime
  {
    GenerationResult(
      r.totalFilesScanned + other.totalFilesScanned,
      r.filesWithUuids + other.filesWithUuids,
      r.filesGenerated + other.filesGenerated,
      r.filesSkipped + other.filesSkipped,
      r.tagPagesGenerated + other.tagPagesGenerated,
      r.staticFilesCopied + other.staticFilesCopied,
      r.errors + other.errors,
      ZeroTime)
  }

  lemma AddCommutes(a: GenerationResult, b: GenerationResult)
    ensures Add(a, b) == Add(b, a)
  {
    CountersDetermine(Add(a, b), Add(b, a));
  }

  lemma AddAssociates(a: GenerationResult, b: GenerationResult, c: GenerationResult)
    ensures Add(Add(a, b), c) == Add(a, Add(b, c))
  {
    CountersDetermine(Add(Add(a, b), c), Add(a, Add(b, c)));
  }

  /** The zero result is an identity on the counters; the sum drops any
      start time the other operand carried. */
  lemma AddZero(r: GenerationResult)
    ensures Counters(Add(Zero, r)) == Counters(r) && Counters(Add(r, Zero)) == Counters(r)
    ensures r.startTime == ZeroTime ==> Add(Zero, r) == r && Add(r, Zero) == r
  {
    if r.startTime == ZeroTime {
      CountersDetermine(Add(Zero, r), r);
      CountersDetermine(Add(r, Zero), r);
    }
  }

  /** SetStartTime: only the start time changes. */
  function SetStartTime(r: GenerationResult, t: int): (s: GenerationResult)
    ensures Counters(s) == Counters(r)
    ensures s.startTime == t
  {
    r.(startTime := t)
  }

  // ---------------------------------------------------------------------
  // Pipeline
  // ---------------------------------------------------------------------

  /** A registered phase. `None` stands for a nil *ProcessedFiles. A full
      phase may replace the processed files; an output-only phase only
      reports counters. */
  datatype Phase<!P, !C> =
    | FullPhase(run: (Option<P>, C) -> (Option<P>, GenerationResult))
    | OutputOnlyPhase(out: (Option<P>, C) -> GenerationResult)

  /** The wrapper closure WithFullPhase / WithOutputOnlyPhase register. */
  function RunPhase<P, C>(ph: Phase<P, C>, files: Option<P>, ctx: C): (r: (Option<P>, GenerationResult))
    ensures ph.OutputOnlyPhase? ==> r.0 == files
  {
    match ph
    case FullPhase(run) => run(files, ctx)
    case OutputOnlyPhase(out) => (files, out(files, ctx))
  }

  datatype Pipeline<!P, !C> = Pipeline(
    ctx: C,
    procFiles: Option<P>,
    result: GenerationResult,
    phases: seq<Phase<P, C>>)

  /** NewPipeline: no phases, nil processed files, zero counters. */
  function NewPipeline<P, C>(ctx: C): (p: Pipeline<P, C>)
    ensures p.phases == [] && p.procFiles.None? && Counters(p.result) == [0, 0, 0, 0, 0, 0, 0]
  {
    Pipeline(ctx, None, Zero, [])
  }

  /** Registration appends; earlier phases keep their places. */
  function WithPhase<P, C>(p: Pipeline<P, C>, ph: Phase<P, C>): (q: Pipeline<P, C>)
    ensures |q.phases| == |p.phases| + 1 && q.phases[..|p.phases|] == p.phases
    ensures q.phases[|p.phases|] == ph
    ensures q.ctx == p.ctx && q.procFiles == p.procFiles && q.result == p.result
  {
    p.(phases := p.phases + [ph])
  }

  function WithFullPhase<P, C>(p: Pipeline<P, C>, phase: (Option<P>, C) -> (Option<P>, GenerationResult)): Pipeline<P, C>
  {
    WithPhase(p, FullPhase(phase))
  }

  function WithOutputOnlyPhase<P, C>(p: Pipeline<P, C>, phase: (Option<P>, C) -> GenerationResult): Pipeline<P, C>
  {
    WithPhase(p, OutputOnlyPhase(phase))
  }

  /** The phases run in order from the given files and accumulator: the
      files each phase hands on and the running sum of counters. */
  function RunFrom<P, C>(phases: seq<Phase<P, C>>, ctx: C, files: Option<P>, acc: GenerationResult): (Option<P>, GenerationResult)
  {
    if phases == [] then (files, acc)
    else
      var (next, r) := RunPhase(phases[0], files, ctx);
      RunFrom(phases[1..], ctx, next, Add(acc, r))
  }

  /** The result each phase reports, in phase order. */
  function Trace<P, C>(phases: seq<Phase<P, C>>, ctx: C, files: Option<P>): (rs: seq<GenerationResult>)
    ensures |rs| == |phases|
  {
    if phases == [] then []
    else
      var (next, r) := RunPhase(phases[0], files, ctx);
      [r] + Trace(phases[1..], ctx, next)
  }

  /** Counter `i` summed over a list of results, written independently of
      Add. */
  function FieldSum(rs: seq<GenerationResult>, i: nat): int
    requires i < Width
  {
    if rs == [] then 0 else Counters(rs[0])[i] + FieldSum(rs[1..], i)
  }

  /** Pipeline.Execute: run every phase, add each phase's counters to the
      pipeline's, then stamp the start time. */
  function Execute<P, C>(p: Pipeline<P, C>, startTime: int): (r: (Option<P>, GenerationResult))
    ensures r.1.startTime == startTime
  {
    var (files, acc) := RunFrom(p.phases, p.ctx, p.procFiles, p.result);
    (files, SetStartTime(acc, startTime))
  }

  /** The fold accumulates exactly the per-phase counters. */
  lemma {:induction false} RunFromSums<P, C>(phases: seq<Phase<P, C>>, ctx: C, files: Option<P>, acc: GenerationResult, i: nat)
    requires i < Width
    ensures Counters(RunFrom(phases, ctx, files, acc).1)[i] == Counters(acc)[i] + FieldSum(Trace(phases, ctx, files), i)
    decreases |phases|
  {
    if phases != [] {
      var (next, r) := RunPhase(phases[0], files, ctx);
      RunFromSums(phases[1..], ctx, next, Add(acc, r), i);
      assert Trace(phases, ctx, files) == [r] + Trace(phases[1..], ctx, next);
    }
  }

  /** The counters Execute returns are the pipeline's own counters plus the
      sum, field by field, of what every phase reported. */
  lemma ExecuteSums<P, C>(p: Pipeline<P, C>, startTime: int)
    ensures forall i :: 0 <= i < Width ==>
      Counters(Execute(p, startTime).1)[i] == Counters(p.result)[i] + FieldSum(Trace(p.phases, p.ctx, p.procFiles), i)
  {
    forall i | 0 <= i < Width
      ensures Counters(Execute(p, startTime).1)[i] == Counters(p.result)[i] + FieldSum(Trace(p.phases, p.ctx, p.procFiles), i)
    {
      RunFromSums(p.phases, p.ctx, p.procFiles, p.result, i);
    }
  }

  /** A fresh pipeline with no phases: nil files and all-zero counters. */
  lemma ExecuteNoPhases<P, C>(ctx: C, startTime: int)
    ensures Execute(NewPipeline<P, C>(ctx), startTime).0.None?
    ensures Counters(Execute(NewPipeline<P, C>(ctx), startTime).1) == [0, 0, 0, 0, 0, 0, 0]
  {
  }

  predicate AllOutputOnly<P, C>(phases: seq<Phase<P, C>>)
  {
    forall k :: 0 <= k < |phases| ==> phases[k].OutputOnlyPhase?
  }

  /** Output-only phases never replace the processed files. */
  lemma {:induction false} OutputOnlyKeepsFiles<P, C>(phases: seq<Phase<P, C>>, ctx: C, files: Option<P>, acc: GenerationResult)
    requires AllOutputOnly(phases)
    ensures RunFrom(phases, ctx, files, acc).0 == files
    decreases |phases|
  {
    if phases != [] {
      var (next, r) := RunPhase(phases[0], files, ctx);
      assert next == files;
      OutputOnlyKeepsFiles(phases[1..], ctx, files, Add(acc, r));
    }
  }

  /** Registering one more phase runs it last, on the files the earlier
      phases left, and adds its counters to theirs. */
  lemma {:induction false} RunFromSnoc<P, C>(phases: seq<Phase<P, C>>, ph: Phase<P, C>, ctx: C, files: Option<P>, acc: GenerationResult)
    ensures var (f, a) := RunFrom(phases, ctx, files, acc);
            var (g, r) := RunPhase(ph, f, ctx);
            RunFrom(phases + [ph], ctx, files, acc) == (g, Add(a, r))
    decreases |phases|
  {
    if phases == [] {
      assert [] + [ph] == [ph];
    } else {
      var (next, r) := RunPhase(phases[0], files, ctx);
      assert (phases + [ph])[1..] == phases[1..] + [ph];
      RunFromSnoc(phases[1..], ph, ctx, next, Add(acc, r));
    }
  }

  lemma ExecuteWithPhase<P, C>(p: Pipeline<P, C>, ph: Phase<P, C>, startTime: int)
    ensures var (f, a) := RunFrom(p.phases, p.ctx, p.procFiles, p.result);
            var (g, r) := RunPhase(ph, f, p.ctx);
            Execute(WithPhase(p, ph), startTime) == (g, SetStartTime(Add(a, r), startTime))
  {
    RunFromSnoc(p.phases, ph, p.ctx, p.procFiles, p.result);
  }

  /** Pipeline.Execute as the loop it is written as: the pipeline's files
      and result are replaced phase by phase. */
  method ExecuteLoop<P, C>(p: Pipeline<P, C>, startTime: int) returns (files: Option<P>, result: GenerationResult)
    ensures (files, result) == Execute(p, startTime)
  {
    files := p.procFiles;
    result := p.result;
    var k := 0;
    while k < |p.phases|
      invariant k <= |p.phases|
      invariant RunFrom(p.phases[k..], p.ctx, files, result) == RunFrom(p.phases, p.ctx, p.procFiles, p.result)
    {
      var (next, r) := RunPhase(p.phases[k], files, p.ctx);
      assert p.phases[k..][1..] == p.phases[k + 1..];
      files := next;
      result := Add(result, r);
      k := k + 1;
    }
    result := SetStartTime(result, startTime);
  }
}
