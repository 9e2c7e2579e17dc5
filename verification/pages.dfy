/** Pages rendered one after another through one fragment cache. */
module Pages {
  import opened Strings
  import opened Values
  import opened ViewContexts
  import opened Evaluation
  import opened Template
  import opened Render
  import opened SameReads
  import opened Steady
  import opened Depth
  import opened FragmentCache
  import opened CacheTheorem
  import Expression

  datatype Job = Job(root: Node, page: Page, locals: Locals)

  const EMPTY := Cache(map[], map[], 0)

  /** Every page in turn, each with the cache the ones before it left. */
  function RenderJobs(jobs: seq<Job>, store: Store): (r: seq<Rendered<string>>)
    ensures |r| == |jobs|
  {
    if jobs == [] then []
    else
      var first := RenderPage(jobs[0].root, jobs[0].page, jobs[0].locals, store);
      [first] + RenderJobs(jobs[1..], first.store)
  }

  /** The page with no cache, and room for this many nested partials. */
  function Uncached(job: Job, room: nat): Result<string> {
    RenderChildren(job.root, 0, job.page, job.locals, room, None).result
  }

  ghost predicate AllOnSite(jobs: seq<Job>, site: Site) {
    forall i | 0 <= i < |jobs| :: OnSite(jobs[i].page, site)
  }

  ghost predicate AllCalm(runs: seq<Rendered<string>>, site: Site) {
    forall i | 0 <= i < |runs| :: Calm(runs[i].events, site)
  }

  /** A cached page is the uncached page, text or failure, unless the uncached one runs out
      of room for its partials; and any cached text is the uncached one, given room. */
  ghost predicate Transparent(cached: Result<string>, job: Job) {
    && (TooDeep(Uncached(job, MAX_PARTIALS)) || cached == Uncached(job, MAX_PARTIALS))
    && (cached.Success? ==> exists room | room >= MAX_PARTIALS :: Uncached(job, room) == cached)
  }

  ghost predicate AllTransparent(jobs: seq<Job>) {
    forall i | 0 <= i < |jobs| :: Transparent(RenderJobs(jobs, Some(EMPTY))[i].result, jobs[i])
  }

  lemma PageTransparent(job: Job, cache: Cache, site: Site)
    requires CacheSound(cache, site) && OnSite(job.page, site)
    requires Calm(RenderPage(job.root, job.page, job.locals, Some(cache)).events, site)
    ensures var r := RenderPage(job.root, job.page, job.locals, Some(cache));
            Transparent(r.result, job) && r.store.Some? && CacheSound(r.store.value, site)
  {
    hide RenderChildren, OnSite, Calm, Needs;
    var b := SimChildren(job.root, 0, job.page, job.locals, MAX_PARTIALS, cache, site);
    ChildrenShallow(job.root, 0, job.page, job.locals, MAX_PARTIALS, b);
    var r := RenderPage(job.root, job.page, job.locals, Some(cache));
    if r.result.Success? { assert Uncached(job, b) == r.result; }
  }

  lemma {:induction false} JobsTransparent(jobs: seq<Job>, cache: Cache, site: Site)
    requires CacheSound(cache, site) && AllOnSite(jobs, site)
    requires AllCalm(RenderJobs(jobs, Some(cache)), site)
    ensures forall i | 0 <= i < |jobs| :: Transparent(RenderJobs(jobs, Some(cache))[i].result, jobs[i])
  {
    hide RenderPage, Transparent, OnSite, Calm, CacheSound;
    if jobs != [] {
      var runs := RenderJobs(jobs, Some(cache));
      assert runs[0] == RenderPage(jobs[0].root, jobs[0].page, jobs[0].locals, Some(cache));
      PageTransparent(jobs[0], cache, site);
      assert runs[1..] == RenderJobs(jobs[1..], Some(runs[0].store.value));
      assert forall i | 0 <= i < |jobs| - 1 :: runs[1..][i] == runs[i + 1];
      JobsTransparent(jobs[1..], runs[0].store.value, site);
      forall i | 0 <= i < |jobs| ensures Transparent(runs[i].result, jobs[i]) {
        if i > 0 { assert runs[i] == runs[1..][i - 1] && jobs[i] == jobs[1..][i - 1]; }
      }
    }
  }

  /** The cache theorem. Take any sequence of pages of a site that gives no view value the
      name of a function, each with its own view values, its own wrapped text and its own
      section to look partials up in, rendered through one cache that starts empty. Let every
      fragment start from locals named apart from view values and functions, read a local
      named like a view value only while its recording knows it bound it, record values
      without floating-point numbers, and write the wrapped text or render a partial only if
      that is the same on all the pages. Then the cache makes no difference. */
  lemma {:induction false} CacheTransparent(jobs: seq<Job>, site: Site)
    requires AllOnSite(jobs, site) && AllCalm(RenderJobs(jobs, Some(EMPTY)), site)
    ensures AllTransparent(jobs)
  {
    JobsTransparent(jobs, EMPTY, site);
  }
}
