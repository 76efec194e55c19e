/** Module loads running against the shared runtime while an interceptor is, or is not,
    installed, and what a whole scoped run of `applyForBlock` leaves behind. */
module Scopes {
  import opened Results
  import opened NodeModule
  import opened RequireFalafel

  /** Only `inst` and Node's own compile step are in play: `inst` captured Node's compile step
      when it was constructed, and the step installed now is Node's or `inst`'s. */
  predicate Scoped(inst: Interceptor, s: Runtime) {
    inst.originalCompile == Native && (s.hook == Native || s.hook == Falafel(inst.id))
  }

  /** The compile step installed in `s`, applied to `req`: Node's passes the text through,
      the interceptor's is `FalafelCompile`, which then hands its text to Node's. */
  function InstalledCompile(inst: Interceptor, host: Host, s: Runtime, req: LoadRequest): (r: Result<CompileCall, LoadError>)
    requires Scoped(inst, s)
    ensures r.Success? ==> r.value.path == req.path
    ensures s.hook == Native ==> r == Success(CompileCall(req.content, req.path))
    ensures s.hook == Falafel(inst.id) ==> r == FalafelCompile(inst, host, req)
  {
    if s.hook == Native then Success(CompileCall(req.content, req.path))
    else FalafelCompile(inst, host, req)
  }

  /** `require(req.path)` from the requesting module, through whatever compile step is installed. */
  function Require(host: Host, inst: Interceptor, s: Runtime, req: LoadRequest): (r: Loaded)
    requires Scoped(inst, s)
    ensures r.after.hook == s.hook
    ensures Extends(s.cache, r.after.cache)
    ensures r.after.cache.Keys <= s.cache.Keys + {req.path}
  {
    LoadThrough(host, s, req, InstalledCompile(inst, host, s, req))
  }

  /** A sequence of loads, each seeing the runtime the previous one left. */
  function RunLoads(host: Host, inst: Interceptor, s: Runtime, reqs: seq<LoadRequest>): (r: Runtime)
    requires Scoped(inst, s)
    ensures r.hook == s.hook
    ensures Extends(s.cache, r.cache)
    ensures forall k :: k in r.cache && k !in s.cache ==> exists i :: 0 <= i < |reqs| && reqs[i].path == k
    decreases |reqs|
  {
    if reqs == [] then s
    else
      var next := Require(host, inst, s, reqs[0]).after;
      var r := RunLoads(host, inst, next, reqs[1..]);
      assert forall k :: k in r.cache && k !in s.cache ==> exists i :: 0 <= i < |reqs| && reqs[i].path == k by {
        forall k | k in r.cache && k !in s.cache
          ensures exists i :: 0 <= i < |reqs| && reqs[i].path == k
        {
          if k in next.cache {
            assert reqs[0].path == k;
          } else {
            var j :| 0 <= j < |reqs[1..]| && reqs[1..][j].path == k;
            assert reqs[j + 1].path == k;
          }
        }
      }
      r
  }

  /** A block that performs `reqs` and returns `v`, or hands back a promise when `async`.
      Loads are modelled only in a scoped runtime, so on any other runtime (another
      interceptor's hook installed) this block does nothing; every lemma below applies it to
      the runtime `replaceRequire` produces, which is scoped. */
  function LoadingBlock<V, E>(host: Host, inst: Interceptor, reqs: seq<LoadRequest>, v: V, async: bool): Runtime -> BlockRun<V, E> {
    (s: Runtime) =>
      var after := if Scoped(inst, s) then RunLoads(host, inst, s, reqs) else s;
      BlockRun(after, if async then Promise else Done(Returned(v)))
  }

  /** Installing twice leaves the same runtime as installing once: hooks do not stack. */
  lemma ReplaceRequireIdempotent(inst: Interceptor, s: Runtime)
    ensures ReplaceRequire(inst, ReplaceRequire(inst, s)) == ReplaceRequire(inst, s)
  {
  }

  /** Restoring twice is restoring once, and installing before restoring changes nothing. */
  lemma RestoreRequireIdempotent(inst: Interceptor, s: Runtime)
    ensures RestoreRequire(inst, RestoreRequire(inst, s)) == RestoreRequire(inst, s)
    ensures RestoreRequire(inst, ReplaceRequire(inst, s)) == RestoreRequire(inst, s)
  {
  }

  /** Restoring against the runtime the interceptor was constructed in gives that runtime back. */
  lemma NewThenRestoreIsIdentity(id: nat, typeOfReplacement: int, transformer: string -> Result<string, string>, s: Runtime)
    ensures RestoreRequire(New(id, typeOfReplacement, transformer, s), s) == s
  {
  }

  /** A synchronous scope that only adds cache entries leaves the runtime exactly as it was
      when the interceptor was constructed: same hook, same cache. */
  lemma SyncScopeLeavesNoTrace<V, E>(id: nat, typeOfReplacement: int, transformer: string -> Result<string, string>,
                                     s0: Runtime, block: Runtime -> BlockRun<V, E>)
    requires block(ReplaceRequire(New(id, typeOfReplacement, transformer, s0), s0)).result.Done?
    requires Extends(s0.cache, block(ReplaceRequire(New(id, typeOfReplacement, transformer, s0), s0)).after.cache)
    ensures ApplyForBlock(New(id, typeOfReplacement, transformer, s0), s0, block)
      == BlockRun(s0, block(ReplaceRequire(New(id, typeOfReplacement, transformer, s0), s0)).result)
  {
    // Follows from the contracts of `ApplyForBlock`, `RestoreRequire` and `New`.
  }

  /** Loads performed inside a synchronous scope leave no trace: afterwards the hook is the one
      captured at construction and the cache is exactly the construction-time cache. */
  lemma {:induction false} LoadsInSyncScopeLeaveNoTrace<V, E>(host: Host, id: nat, typeOfReplacement: int,
                                                              transformer: string -> Result<string, string>,
                                                              s0: Runtime, reqs: seq<LoadRequest>, v: V)
    requires s0.hook == Native
    ensures ApplyForBlock(New(id, typeOfReplacement, transformer, s0), s0,
                          LoadingBlock<V, E>(host, New(id, typeOfReplacement, transformer, s0), reqs, v, false))
      == BlockRun(s0, Done(Returned(v)))
  {
    // Follows from the contracts of `RunLoads` (hook kept, cache extended) and `RestoreRequire`.
  }

  /** An asynchronous scope keeps the hook installed after the block hands back its promise, so
      loads made by other tasks in that window still go through `FalafelCompile`; once the promise
      settles the runtime is the construction-time one again and the outcome is passed on. */
  lemma {:induction false} AsyncScopeLeavesNoTrace<V, E>(host: Host, id: nat, typeOfReplacement: int,
                                                         transformer: string -> Result<string, string>,
                                                         s0: Runtime, reqs: seq<LoadRequest>, v: V,
                                                         window: seq<LoadRequest>, outcome: Completion<V, E>)
    requires s0.hook == Native
    ensures
      var inst := New(id, typeOfReplacement, transformer, s0);
      var pending := ApplyForBlock(inst, s0, LoadingBlock<V, E>(host, inst, reqs, v, true));
      && pending.result == Promise
      && pending.after.hook == Falafel(id)
      && (forall req :: Require(host, inst, pending.after, req)
            == LoadThrough(host, pending.after, req, FalafelCompile(inst, host, req)))
      && Settle(inst, RunLoads(host, inst, pending.after, window), outcome) == BlockRun(s0, Done(outcome))
  {
    // Follows from the contracts of `RunLoads`, `InstalledCompile` and `Settle`.
  }

  /** After a synchronous scope, loading a module that was not cached at construction compiles
      the text read from disk, untransformed. */
  lemma {:induction false} LoadAfterScopeIsUntransformed<V, E>(host: Host, id: nat, typeOfReplacement: int,
                                                               transformer: string -> Result<string, string>,
                                                               s0: Runtime, reqs: seq<LoadRequest>, v: V,
                                                               req: LoadRequest)
    requires s0.hook == Native
    requires req.path !in s0.cache
    ensures
      var inst := New(id, typeOfReplacement, transformer, s0);
      var after := ApplyForBlock(inst, s0, LoadingBlock<V, E>(host, inst, reqs, v, false)).after;
      var loaded := Require(host, inst, after, req);
      && (loaded.result.Success? <==> host.syntaxError(req.content).None?)
      && (loaded.result.Success? ==> loaded.result.value == CompiledModule(req.content))
  {
    // Follows from the contracts of `RunLoads`, `RestoreRequire` and `LoadThrough`.
  }

  /** Under `INCLUDE_NODE_MODULES` every uncached load of a JavaScript module while installed
      compiles exactly the transformer's output, first-party and dependency modules alike. */
  lemma IncludeNodeModulesTransformsEveryLoad(host: Host, inst: Interceptor, s: Runtime, req: LoadRequest)
    requires inst.originalCompile == Native && s.hook == Falafel(inst.id)
    requires inst.typeOfReplacement == IncludeNodeModules
    requires req.path !in s.cache
    ensures
      var loaded := Require(host, inst, s, req);
      && (loaded.result.Success? <==>
            inst.transformer(req.content).Success? && host.syntaxError(inst.transformer(req.content).value).None?)
      && (loaded.result.Success? ==> loaded.result.value == CompiledModule(inst.transformer(req.content).value))
      && (inst.transformer(req.content).Failure? ==>
            loaded == Loaded(s, Failure(ParseFailed(inst.transformer(req.content).error))))
  {
  }

  /** A load the policy declines compiles the text read from disk, unchanged, even while installed. */
  lemma IneligibleLoadIsVerbatim(host: Host, inst: Interceptor, s: Runtime, req: LoadRequest)
    requires inst.originalCompile == Native && s.hook == Falafel(inst.id)
    requires ShouldSwap(inst.typeOfReplacement, host, req) == Success(false)
    requires req.path !in s.cache
    ensures
      var loaded := Require(host, inst, s, req);
      && (loaded.result.Success? <==> host.syntaxError(req.content).None?)
      && (loaded.result.Success? ==> loaded.result.value == CompiledModule(req.content))
  {
  }

  /** A failing load changes nothing: the rest of the scope sees the runtime it had before. */
  lemma FailedLoadLeavesRuntime(host: Host, inst: Interceptor, s: Runtime, req: LoadRequest)
    requires Scoped(inst, s)
    ensures Require(host, inst, s, req).result.Failure? ==> Require(host, inst, s, req).after == s
  {
  }

  /** The snapshot belongs to construction, not to activation: a module cached after the
      interceptor was constructed is evicted by `restoreRequire` even when it was cached before
      `replaceRequire` ran, or when `replaceRequire` never ran at all. */
  lemma SnapshotIsTakenAtConstruction(id: nat, typeOfReplacement: int, transformer: string -> Result<string, string>,
                                      s0: Runtime, s: Runtime, path: string)
    requires path !in s0.cache
    ensures path !in RestoreRequire(New(id, typeOfReplacement, transformer, s0), s).cache
    ensures path !in RestoreRequire(New(id, typeOfReplacement, transformer, s0),
                                    ReplaceRequire(New(id, typeOfReplacement, transformer, s0), s)).cache
  {
  }

  /** Under `INCLUDE_NODE_MODULES`, every module cached by a run of loads while installed holds
      the transformer's output for the text of some load of that path: no untransformed text
      enters the cache during the scope. */
  lemma {:induction false} IncludeNodeModulesCachesOnlyTransformedText(host: Host, inst: Interceptor, s: Runtime,
                                                                       reqs: seq<LoadRequest>)
    requires inst.originalCompile == Native && s.hook == Falafel(inst.id)
    requires inst.typeOfReplacement == IncludeNodeModules
    ensures
      var r := RunLoads(host, inst, s, reqs);
      forall k :: k in r.cache && k !in s.cache ==>
        exists i :: 0 <= i < |reqs| && reqs[i].path == k && inst.transformer(reqs[i].content) == Success(r.cache[k].source)
    decreases |reqs|
  {
    if reqs != [] {
      var next := Require(host, inst, s, reqs[0]).after;
      var r := RunLoads(host, inst, s, reqs);
      assert r == RunLoads(host, inst, next, reqs[1..]);
      IncludeNodeModulesCachesOnlyTransformedText(host, inst, next, reqs[1..]);
      forall k | k in r.cache && k !in s.cache
        ensures exists i :: 0 <= i < |reqs| && reqs[i].path == k && inst.transformer(reqs[i].content) == Success(r.cache[k].source)
      {
        if k in next.cache {
          IncludeNodeModulesTransformsEveryLoad(host, inst, s, reqs[0]);
          assert reqs[0].path == k && inst.transformer(reqs[0].content) == Success(r.cache[k].source);
        } else {
          var j :| 0 <= j < |reqs[1..]| && reqs[1..][j].path == k
            && inst.transformer(reqs[1..][j].content) == Success(r.cache[k].source);
          assert reqs[j + 1] == reqs[1..][j];
        }
      }
    }
  }
}
