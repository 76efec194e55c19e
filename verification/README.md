# require-falafel, modelled in Dafny

`RequireFalafel` rewrites the source text of Node modules while they are loaded. It
replaces Node's compile step, `Module.prototype._compile`, with its own `FalafelCompile`.
That step asks a policy (`typeOfReplacement`) whether the module is eligible. An eligible
module's text goes through the falafel transformer before Node compiles it. When the
caller's block finishes, `restoreRequire` puts Node's compile step back. It also deletes
every `require.cache` entry that was not there when the interceptor was constructed. For a
block that returns a promise, this happens only when the promise settles.

The model is a functional state machine over one process-wide `Runtime`. That record holds
the installed hook (`Native`, or `Falafel(id)` for an interceptor) and the module cache
(a map from resolved path to the text that was compiled). The modules are:

- `Results`: `Option` (a value that may be `undefined`) and `Result` (a computation that may throw).
- `Strings`: the substring search of `indexOf(...) != -1`, proved against a substring predicate.
- `NodeModule`: the host as the interceptor sees it. This covers the hook, the cache, the
  load request, and Node's cache discipline around a compile step (`LoadThrough`). A cached
  path is served without compiling. A compiled module is cached only when nothing threw.
  This discipline is Node's, not lib.js's. It is modelled so that whole scopes can be
  stated.
- `RequireFalafel`: lib.js itself. It holds the policy constants, `isNodeModule`,
  the `shouldSwap` decision, `FalafelCompile`, the constructor, `replaceRequire`,
  `restoreRequire`, `applyForBlock` and the later settlement of its promise.
- `Scopes`: loads made through whichever hook is installed, and lemmas about whole scoped runs.

These are parameters of the model rather than computations:
- the transformer is a function from text to rewritten text or a parse-error message;
- `path.relative` is `Host.relative`;
- Node's compiler is reduced to `Host.syntaxError`;
- `module.parent` is `Host.loader`. It is `None` when lib.js is the entry point or was not loaded by
  `require`. Its `path` is `None` on Node versions that lack it.

lib.js does not do everything its tests expect. The model follows lib.js:
- `typeOfReplacement` is never validated. Any value other than 1, 2 or 3 transforms nothing,
  and nothing throws at construction. There is no path-list policy, although the tests use
  one (test/lib.js:98-112) and expect a constructor error for an unknown value
  (test/lib.js:157-176).

Further facts about lib.js that the model keeps:
- The cache snapshot is taken when the interceptor is constructed (lib.js:19). So
  `restoreRequire` also evicts entries cached between construction and `replaceRequire`.
- `restoreRequire` evicts even when `replaceRequire` never ran. It removes every key that is
  new since construction (`Scopes.SnapshotIsTakenAtConstruction`).
- Paths are taken relative to `module.parent.path` (lib.js:12), the directory of the module
  that first required lib.js. When `module.parent` is absent, reading its `path` at lib.js:9
  throws a TypeError (`ParentMissing`) before the unsupported-version check.

## Model

| member | source | states |
|---|---|---|
| Strings.IndexOfFrom | lib.js:13 | the result is -1 exactly when the pattern occurs nowhere at or after the start; otherwise it is the first such occurrence |
| Strings.IndexOf | lib.js:13 | `indexOf(...) != -1` holds exactly when the pattern is a substring, and a found index is the first occurrence |
| RequireFalafel.IsNodeModule | lib.js:8-14 | throws a TypeError when `module.parent` is absent; throws the unsupported-version error when `module.parent.path` is undefined; throws when the path is undefined; otherwise true exactly when the relative path contains `node_modules` |
| RequireFalafel.ShouldSwap | lib.js:23-34 | policy 3 always transforms; policy 1 transforms exactly when the loaded path is outside `node_modules`; policy 2 transforms exactly when the requester's path is outside `node_modules`; every other value transforms nothing; only policies 1 and 2 can throw, with the error for each missing piece |
| RequireFalafel.FalafelCompile | lib.js:21-44 | the single call to the original compile keeps the path; an ineligible load passes the content unchanged; an eligible load passes exactly the transformer's output, or fails with its parse error; a policy error propagates |
| RequireFalafel.New | lib.js:16-20 | accepts every policy value without throwing, keeps the caller's transformer, and snapshots exactly the installed compile step and the keys of `require.cache` |
| RequireFalafel.ReplaceRequire | lib.js:73-75 | installs this interceptor's compile step and leaves the cache untouched |
| RequireFalafel.RestoreRequire | lib.js:77-84 | reinstalls the hook captured at construction; keeps exactly the cached keys that are in the snapshot, with their entries untouched |
| RequireFalafel.ApplyForBlock | lib.js:51-71 | the block runs with the hook installed and its value, exception or promise is handed back; a synchronous finish ends with the construction-time hook and no key outside the snapshot; a promise leaves the runtime as the block left it |
| RequireFalafel.Settle | lib.js:60-65 | when the inner promise settles, its outcome is forwarded unchanged and the runtime is exactly what `restoreRequire` makes of it: the construction-time hook is back, no key outside the snapshot remains, and every snapshot key still cached keeps its entry |
| Scopes.ReplaceRequireIdempotent | lib.js:73-75 | installing twice equals installing once, so hooks do not stack |
| Scopes.RestoreRequireIdempotent | lib.js:77-84 | restoring twice equals restoring once, and a `replaceRequire` before `restoreRequire` makes no difference |
| Scopes.NewThenRestoreIsIdentity | lib.js:16-19 | restoring against the runtime the interceptor was constructed in returns that runtime |
| Scopes.SnapshotIsTakenAtConstruction | lib.js:19 | a key absent at construction is evicted by `restoreRequire`, whether or not `replaceRequire` ran |
| Scopes.SyncScopeLeavesNoTrace | lib.js:51-57 | a synchronous block (value or exception) that only adds cache entries leaves the runtime identical to the one at construction |
| Scopes.LoadsInSyncScopeLeaveNoTrace | test/lib.js:32-49 | any sequence of loads inside a synchronous scope leaves hook and cache exactly as at construction |
| Scopes.AsyncScopeLeavesNoTrace | lib.js:58-66 | after a block returns a promise, the hook stays installed and loads go through `FalafelCompile`; after settlement the runtime is the construction-time one and the outcome is forwarded |
| Scopes.LoadAfterScopeIsUntransformed | test/lib.js:42-48 | a module not cached at construction, loaded after the scope, compiles its on-disk text unchanged |
| Scopes.IncludeNodeModulesTransformsEveryLoad | lib.js:32-40 | with policy 3 installed, every uncached load of a JavaScript module compiles exactly the transformer's output, and a parse error fails that load leaving the runtime unchanged |
| Scopes.IncludeNodeModulesCachesOnlyTransformedText | test/lib.js:51-62 | with policy 3 installed, every module cached by a run of loads holds the transformer's output for the text of a load of that path |
| Scopes.IneligibleLoadIsVerbatim | lib.js:41-43 | a load the policy declines compiles its on-disk text unchanged even while the hook is installed |
| Scopes.FailedLoadLeavesRuntime | lib.js:36-43 | a load whose `FalafelCompile` throws (policy or parse error), or whose text Node's compiler rejects, changes neither the hook nor the cache |

## Left out

- The falafel parser and visitor are an opaque function from text to rewritten text or a parse-error message.
- `path.relative`, `dirname` and Node's compiler are abstract host functions. Only the `node_modules` substring test is computed.
- Non-numeric `typeOfReplacement` values and JavaScript's loose-equality coercion are left out. The policy is an integer compared with 1, 2 and 3.
- Only loads that reach `Module.prototype._compile` are modelled. `.json` files, native addons and built-in modules bypass the hook.
- `Strings.IndexOfFrom` counts characters rather than UTF-16 code units and does not clamp its start position, unlike JavaScript's `indexOf`. lib.js only tests `!= -1` from position 0, where the two agree.
- Error message strings are left out. Each exception is a constructor of `LoadError`.
- Promise scheduling is not modelled. The settlement of an asynchronous block is a separate later step (`Settle`), and the loads made in the meantime are an explicit sequence.
- Two interceptor instances installed at once, or one built while another was installed, are left out. Loads are modelled only when the interceptor captured Node's own compile step (`Scopes.Scoped`), because lib.js leaves nesting unhandled.
- Cyclic requires are left out. These are loads that see a module while it is still compiling.
- `util.types.isPromise` is reduced to the block's own choice between `Done` and `Promise`. A thenable that is not a native promise counts as `Done`, as in the code.
- Running a module's body is left out. Node's compile step also executes the module, and a body can `require` other modules and then throw; those modules stay cached and only the failing one is evicted. In the model compilation fails only through a syntax error that depends on the text alone, and each load is atomic, so `Scopes.FailedLoadLeavesRuntime` does not cover exceptions thrown by module bodies or the nested loads they make.
