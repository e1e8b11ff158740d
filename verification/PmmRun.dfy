/** mm/pmm.c over whole runs: callers that give back only what they were given. */
module PmmRun {
  import opened Common
  import opened Pmm

  /** A call of `pmm_alloc`, or of `pmm_free` on the k-th page held. */
  datatype Request = Take | GiveBack(k: nat)

  /** The pages out, each once, together with the free ones, are those that were free at the start. */
  ghost predicate Shared(start: set<int>, free: set<int>, held: seq<nat>) {
    && free <= start
    && (forall p | p in held :: p in start && p !in free)
    && (forall p | p in start && p !in free :: p in held)
    && (forall i, j | 0 <= i < j < |held| :: held[i] != held[j])
  }

  lemma Taken(start: set<int>, free: set<int>, held: seq<nat>, p: nat)
    requires Shared(start, free, held) && p in free
    ensures Shared(start, free - {p}, held + [p])
  {
    var held' := held + [p];
    assert forall q | q in held :: q in held';
    assert held'[|held|] == p;
  }

  lemma Given(start: set<int>, free: set<int>, held: seq<nat>, k: nat)
    requires Shared(start, free, held) && k < |held|
    ensures Shared(start, free + {held[k]}, Without(held, k))
  {
    var held' := Without(held, k);
    assert forall i | 0 <= i < |held'| :: held'[i] == held[if i < k then i else i + 1];
    forall p | p in start && p !in free + {held[k]}
      ensures p in held'
    {
      var i :| 0 <= i < |held| && held[i] == p;
      assert held'[if i < k then i else i - 1] == p;
    }
  }

  /** The pages a caller holds after these requests, given what each `pmm_alloc` returned. */
  function Track(requests: seq<Request>, results: seq<nat>): seq<nat>
    requires |results| == |requests|
  {
    if requests == [] then [] else
    var n := |requests| - 1;
    Next(Track(requests[..n], results[..n]), requests[n], results[n])
  }

  function Next(held: seq<nat>, request: Request, result: nat): seq<nat> {
    if request.Take? then
      if result == 0 then held else held + [result]
    else
      if request.k < |held| then Without(held, request.k) else held
  }

  /** A page returned was free at the start and is not out already; NULL was returned only with every page out. */
  ghost predicate Honest(start: set<int>, held: seq<nat>, request: Request, result: nat) {
    request.Take? ==> if result == 0 then forall p | p in start :: p in held else result in start && result !in held
  }

  ghost predicate AllHonest(start: set<int>, requests: seq<Request>, results: seq<nat>)
    requires |results| == |requests|
  {
    forall i | 0 <= i < |requests| :: Honest(start, Track(requests[..i], results[..i]), requests[i], results[i])
  }

  lemma HonestMore(start: set<int>, requests: seq<Request>, results: seq<nat>, request: Request, result: nat)
    requires |results| == |requests| && AllHonest(start, requests, results)
    requires Honest(start, Track(requests, results), request, result)
    ensures AllHonest(start, requests + [request], results + [result])
  {
    hide Honest, Track;
    forall i | 0 <= i < |requests + [request]|
      ensures Honest(start, Track((requests + [request])[..i], (results + [result])[..i]), (requests + [request])[i],
              (results + [result])[i])
    {
      assert (requests + [request])[..i] == requests[..i] && (results + [result])[..i] == results[..i];
      if i == |requests| {
        assert requests[..i] == requests && results[..i] == results;
      }
    }
  }

  lemma TrackMore(requests: seq<Request>, results: seq<nat>, request: Request, result: nat)
    requires |results| == |requests|
    ensures Track(requests + [request], results + [result]) == Next(Track(requests, results), request, result)
  {
    assert (requests + [request])[..|requests|] == requests && (results + [result])[..|requests|] == results;
  }

  /**
   * Any run: the pages out are those returned and not given back, each once; none that was reserved or in use at the
   * start is handed out at all; none is lost; the counter moves with the clear bits; an allocation fails only when
   * every page is out.
   */
  method Run(pmm: PageAllocator, requests: seq<Request>) returns (results: seq<nat>)
    requires pmm.Valid() && 0 !in pmm.free
    modifies pmm, pmm.bitmap
    ensures pmm.Valid() && pmm.Drift() == old(pmm.Drift())
    ensures |results| == |requests| && AllHonest(old(pmm.free), requests, results)
    ensures Shared(old(pmm.free), pmm.free, Track(requests, results))
  {
    hide PageAllocator.Valid, Shared, Track, AllHonest;
    ghost var start := pmm.free;
    var held: seq<nat> := [];
    results := [];
    Begun(pmm, start);
    for i := 0 to |requests|
      invariant pmm.Valid() && 0 !in pmm.free && pmm.Drift() == old(pmm.Drift())
      invariant 0 !in start && (forall p | p in start :: p < pmm.totalPages)
      invariant |results| == i && held == Track(requests[..i], results) && Shared(start, pmm.free, held)
      invariant AllHonest(start, requests[..i], results)
    {
      assert requests[..i + 1] == requests[..i] + [requests[i]];
      var result := 0;
      match requests[i] {
        case Take =>
          ghost var free := pmm.free;
          result := pmm.AllocFrame();
          TakenHonest(start, free, held, result, requests[i]);
          if result != 0 {
            Taken(start, free, held, result);
            held := held + [result];
          }
        case GiveBack(k) =>
          if k < |held| {
            HeldInUse(pmm, start, held, k);
            Given(start, pmm.free, held, k);
            pmm.ReleaseFrame(held[k]);
            held := Without(held, k);
          }
      }
      TrackMore(requests[..i], results, requests[i], result);
      HonestMore(start, requests[..i], results, requests[i], result);
      results := results + [result];
    }
    assert requests[..|requests|] == requests;
  }

  lemma TakenHonest(start: set<int>, free: set<int>, held: seq<nat>, result: nat, request: Request)
    requires Shared(start, free, held) && (if result == 0 then free == {} else result in free)
    ensures Honest(start, held, request, result)
  {}

  lemma Begun(pmm: PageAllocator, start: set<int>)
    requires pmm.Valid() && start == pmm.free
    ensures Shared(start, start, []) && Track([], []) == [] && AllHonest(start, [], [])
            && forall p | p in start :: p < pmm.totalPages
  {}

  lemma HeldInUse(pmm: PageAllocator, start: set<int>, held: seq<nat>, k: nat)
    requires Shared(start, pmm.free, held) && k < |held|
    ensures held[k] in start && held[k] !in pmm.free
  {}
}
