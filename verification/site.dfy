/** One build composed on the generator Pipeline API (generator/types.go):
    discovery as the one full phase, then the HTML pages, the index, the tag
    pages and the static assets as output-only phases. The repository
    defines the API but registers no phases; this composition is the
    model's own. The output phases' template answers are closed over, since
    the phase function type has no template parameter. Discovery runs to
    completion first; every later phase reads the finished maps it hands
    on. */
module Site {
  import opened Wrappers
  import Discovery
  import Render
  import Aggregate
  import Results

  /** Everything a build reads from outside: the directory walk, the
      files' contents and times, the org parser, the Range orders of the
      finished maps, and what Stat, the templates and the writes answer for
      each page. */
  datatype World = World(
    walk: seq<Discovery.WalkEntry>,
    fs: string -> Discovery.Source,
    parser: Discovery.Parser,
    uuidOrder: seq<string>,
    envOf: Discovery.FileInfo -> Render.Env,
    tagOrder: seq<string>,
    indexEnv: Aggregate.IndexEnv,
    tagEnvOf: string -> Aggregate.TagEnv,
    staticDir: Aggregate.StaticDir,
    mkdirOk: bool)

  type Phase = Results.Phase<Discovery.Index, Render.BuildContext>

  /** Discovery with "id:"-prefixed keys, the form the link rewriting
      matches. */
  function Discover(w: World, ctx: Render.BuildContext): (Discovery.Index, Results.GenerationResult)
  {
    Discovery.FindAndProcessOrgFiles(ctx.root, w.walk, w.fs, w.parser, Discovery.IdKeyPrefix)
  }

  /** The Range orders enumerate the finished maps. */
  predicate OrdersFit(w: World, ix: Discovery.Index)
  {
    Render.Enumerates(w.uuidOrder, ix.uuidMap) && Render.Enumerates(w.tagOrder, ix.tagMap)
  }

  /** The phases a build registers, in order. An output-only phase given
      no processed files (or a map its Range order does not fit) reports
      nothing. */
  function DiscoverPhase(w: World): Phase
  {
    Results.FullPhase((pf: Option<Discovery.Index>, ctx: Render.BuildContext) =>
      var (ix, r) := Discover(w, ctx); (Some(ix), r))
  }

  function HtmlPhase(w: World): Phase
  {
    Results.OutputOnlyPhase((pf: Option<Discovery.Index>, ctx: Render.BuildContext) =>
      if pf.Some? && Render.Enumerates(w.uuidOrder, pf.value.uuidMap)
      then Render.GenerateHtmlPages(pf.value.files, pf.value.uuidMap, w.uuidOrder, ctx, w.envOf)
      else Results.Zero)
  }

  function IndexPhase(w: World): Phase
  {
    Results.OutputOnlyPhase((pf: Option<Discovery.Index>, ctx: Render.BuildContext) =>
      if pf.Some? && Render.Enumerates(w.tagOrder, pf.value.tagMap)
      then Aggregate.GenerateIndexPage(pf.value.files, pf.value.tagMap, w.tagOrder, ctx, w.indexEnv)
      else Results.Zero)
  }

  function TagPhase(w: World): Phase
  {
    Results.OutputOnlyPhase((pf: Option<Discovery.Index>, ctx: Render.BuildContext) =>
      if pf.Some? && Render.Enumerates(w.tagOrder, pf.value.tagMap)
      then Aggregate.GenerateTagPages(pf.value.tagMap, w.tagOrder, ctx, w.tagEnvOf)
      else Results.Zero)
  }

  function StaticPhase(w: World): Phase
  {
    Results.OutputOnlyPhase((pf: Option<Discovery.Index>, ctx: Render.BuildContext) =>
      Aggregate.StaticCopyResult(w.staticDir, w.mkdirOk))
  }

  /** NewPipeline(ctx).WithFullPhase(...).WithOutputOnlyPhase(...)... */
  function BuildPipeline(w: World, ctx: Render.BuildContext): (p: Results.Pipeline<Discovery.Index, Render.BuildContext>)
    ensures p.phases == [DiscoverPhase(w), HtmlPhase(w), IndexPhase(w), TagPhase(w), StaticPhase(w)]
    ensures p.ctx == ctx && p.procFiles.None? && p.result == Results.Zero
  {
    var p := Results.NewPipeline(ctx);
    var p := Results.WithPhase(p, DiscoverPhase(w));
    var p := Results.WithPhase(p, HtmlPhase(w));
    var p := Results.WithPhase(p, IndexPhase(w));
    var p := Results.WithPhase(p, TagPhase(w));
    Results.WithPhase(p, StaticPhase(w))
  }

  /** The five phase results of a build, each computed on the finished
      index. */
  function PhaseResults(w: World, ctx: Render.BuildContext): (rs: seq<Results.GenerationResult>)
    requires OrdersFit(w, Discover(w, ctx).0)
    ensures |rs| == 5
  {
    var (ix, r1) := Discover(w, ctx);
    [r1,
     Render.GenerateHtmlPages(ix.files, ix.uuidMap, w.uuidOrder, ctx, w.envOf),
     Aggregate.GenerateIndexPage(ix.files, ix.tagMap, w.tagOrder, ctx, w.indexEnv),
     Aggregate.GenerateTagPages(ix.tagMap, w.tagOrder, ctx, w.tagEnvOf),
     Aggregate.StaticCopyResult(w.staticDir, w.mkdirOk)]
  }

  /** Running the registered phases: the files end as the discovered
      index, and the counters are the running sum of the phase results. */
  lemma BuildRuns(w: World, ctx: Render.BuildContext)
    requires OrdersFit(w, Discover(w, ctx).0)
    ensures var rs := PhaseResults(w, ctx);
      Results.RunFrom(BuildPipeline(w, ctx).phases, ctx, None, Results.Zero) ==
      (Some(Discover(w, ctx).0),
       Results.Add(Results.Add(Results.Add(Results.Add(Results.Add(Results.Zero, rs[0]), rs[1]), rs[2]), rs[3]), rs[4]))
  {
    var ix := Discover(w, ctx).0;
    var rs := PhaseResults(w, ctx);
    var ps := BuildPipeline(w, ctx).phases;
    var a1 := Results.Add(Results.Zero, rs[0]);
    var a2 := Results.Add(a1, rs[1]);
    var a3 := Results.Add(a2, rs[2]);
    var a4 := Results.Add(a3, rs[3]);
    var a5 := Results.Add(a4, rs[4]);
    assert Results.RunFrom(ps[5..], ctx, Some(ix), a5) == (Some(ix), a5);
    assert ps[4..][1..] == ps[5..];
    assert Results.RunFrom(ps[4..], ctx, Some(ix), a4) == (Some(ix), a5);
    assert ps[3..][1..] == ps[4..];
    assert Results.RunFrom(ps[3..], ctx, Some(ix), a3) == (Some(ix), a5);
    assert ps[2..][1..] == ps[3..];
    assert Results.RunFrom(ps[2..], ctx, Some(ix), a2) == (Some(ix), a5);
    assert ps[1..][1..] == ps[2..];
    assert Results.RunFrom(ps[1..], ctx, Some(ix), a1) == (Some(ix), a5);
  }

  /** Pipeline.Execute of a whole build. */
  function Build(w: World, ctx: Render.BuildContext, startTime: int): (r: (Option<Discovery.Index>, Results.GenerationResult))
    requires OrdersFit(w, Discover(w, ctx).0)
    ensures r.0 == Some(Discover(w, ctx).0)
    ensures r.1.startTime == startTime
    ensures r.1.totalFilesScanned == |Discovery.CollectOrgFiles(ctx.root, w.walk)|
    ensures r.1.filesWithUuids <= r.1.totalFilesScanned
    ensures r.1.filesSkipped == 1 <==>
      Aggregate.TemplateFresh(ctx.forceRebuild, w.indexEnv.outputModTime, ctx.tmplModTime)
    ensures 0 <= r.1.filesSkipped <= 1
    ensures r.1.tagPagesGenerated <= |w.tagOrder|
    ensures r.1.totalFilesScanned + 1 <= r.1.filesGenerated + r.1.filesSkipped + r.1.errors
  {
    BuildRuns(w, ctx);
    Results.Execute(BuildPipeline(w, ctx), startTime)
  }
}
