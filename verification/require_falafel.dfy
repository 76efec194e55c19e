/** The `RequireFalafel` interceptor of lib.js: while it is installed, every module Node
    compiles is first offered to a policy, and the text of an eligible module is rewritten by
    the transformer before Node's own compile step sees it. */
module RequireFalafel {
  import opened Results
  import opened Strings
  import opened NodeModule

  /** The recognised values of `typeOfReplacement`. */
  const IncludeNoNodeModules: int := 1
  const IncludeFirstLevelNodeModules: int := 2
  const IncludeNodeModules: int := 3

  /** The directory name that marks third-party packages. */
  const NodeModulesDir: string := "node_modules"

  /** One interceptor:
      - `id` tells its replacement compile step apart from any other hook;
      - `typeOfReplacement`: the policy exactly as given, never validated;
      - `transformer`: falafel run with the caller's visitor, mapping module text to rewritten
        text, or to the message of the parse error it throws;
      - `originalCompile` and `originalCache`: the hook and the cache keys captured when the
        interceptor was constructed. */
  datatype Interceptor = Interceptor(
    id: nat,
    typeOfReplacement: int,
    transformer: string -> Result<string, string>,
    originalCompile: Hook,
    originalCache: set<string>)

  /** `path` lies inside a `node_modules` directory as seen from the directory of the module
      that loaded the interceptor. */
  ghost predicate InsideNodeModules(host: Host, path: string)
    requires ParentDir(host).Some?
  {
    Contains(host.relative(ParentDir(host).value, path), NodeModulesDir)
  }

  /** `isNodeModule(path)`: fails when `module.parent` is absent, fails on hosts without
      `module.parent.path`, fails when `path` is undefined, and otherwise tells whether `path`
      is inside a `node_modules` directory. */
  function IsNodeModule(host: Host, path: Option<string>): (r: Result<bool, LoadError>)
    ensures host.loader.None? ==> r == Failure(ParentMissing)
    ensures host.loader.Some? && ParentDir(host).None? ==> r == Failure(UnsupportedNode)
    ensures ParentDir(host).Some? && path.None? ==> r == Failure(PathNotString)
    ensures ParentDir(host).Some? && path.Some? ==>
      r.Success? && (r.value <==> InsideNodeModules(host, path.value))
  {
    if host.loader.None? then
      Failure(ParentMissing)
    else if host.loader.value.path.None? then
      Failure(UnsupportedNode)
    else if path.None? then
      Failure(PathNotString)
    else
      Success(IndexOf(host.relative(host.loader.value.path.value, path.value), NodeModulesDir) != -1)
  }

  /** `!isNodeModule(path)`, with the exception passed on. */
  function NotNodeModule(host: Host, path: Option<string>): Result<bool, LoadError> {
    var inside :- IsNodeModule(host, path);
    Success(!inside)
  }

  /** The `shouldSwap` decision of `FalafelCompile`: the three policy tests run one after the
      other, and only policies 1 and 2 consult `isNodeModule`, so only they can throw. */
  function ShouldSwap(typeOfReplacement: int, host: Host, req: LoadRequest): (r: Result<bool, LoadError>)
    ensures typeOfReplacement == IncludeNodeModules ==> r == Success(true)
    ensures typeOfReplacement !in {IncludeNoNodeModules, IncludeFirstLevelNodeModules, IncludeNodeModules} ==>
      r == Success(false)
    ensures typeOfReplacement == IncludeNoNodeModules ==>
      && (r.Failure? <==> ParentDir(host).None?)
      && (host.loader.None? ==> r == Failure(ParentMissing))
      && (host.loader.Some? && ParentDir(host).None? ==> r == Failure(UnsupportedNode))
      && (r.Success? ==> (r.value <==> !InsideNodeModules(host, req.path)))
    ensures typeOfReplacement == IncludeFirstLevelNodeModules ==>
      && (req.parent.None? ==> r == Failure(ParentMissing))
      && (req.parent.Some? && host.loader.None? ==> r == Failure(ParentMissing))
      && (req.parent.Some? && host.loader.Some? && ParentDir(host).None? ==> r == Failure(UnsupportedNode))
      && (req.parent.Some? && ParentDir(host).Some? && req.parent.value.path.None? ==> r == Failure(PathNotString))
      && (r.Success? <==> req.parent.Some? && ParentDir(host).Some? && req.parent.value.path.Some?)
      && (r.Success? ==> (r.value <==> !InsideNodeModules(host, req.parent.value.path.value)))
    ensures r.Failure? ==> typeOfReplacement in {IncludeNoNodeModules, IncludeFirstLevelNodeModules}
  {
    var afterNoNodeModules :-
      if typeOfReplacement == IncludeNoNodeModules then NotNodeModule(host, Some(req.path))
      else Success(false);
    var afterFirstLevel :-
      if typeOfReplacement == IncludeFirstLevelNodeModules then
        (if req.parent.None? then Failure(ParentMissing) else NotNodeModule(host, req.parent.value.path))
      else Success(afterNoNodeModules);
    Success(if typeOfReplacement == IncludeNodeModules then true else afterFirstLevel)
  }

  /** `FalafelCompile(content, path)`: the single call it makes to the original compile step,
      or the exception it throws before making it. */
  function FalafelCompile(inst: Interceptor, host: Host, req: LoadRequest): (r: Result<CompileCall, LoadError>)
    ensures r.Success? ==> r.value.path == req.path
    ensures ShouldSwap(inst.typeOfReplacement, host, req).Failure? ==>
      r == Failure(ShouldSwap(inst.typeOfReplacement, host, req).error)
    ensures ShouldSwap(inst.typeOfReplacement, host, req) == Success(false) ==>
      r == Success(CompileCall(req.content, req.path))
    ensures ShouldSwap(inst.typeOfReplacement, host, req) == Success(true) ==>
      && (r.Success? <==> inst.transformer(req.content).Success?)
      && (r.Success? ==> r.value.content == inst.transformer(req.content).value)
      && (r.Failure? ==> r.error == ParseFailed(inst.transformer(req.content).error))
  {
    var swap :- ShouldSwap(inst.typeOfReplacement, host, req);
    if swap then
      match inst.transformer(req.content)
      case Failure(message) => Failure(ParseFailed(message))
      case Success(rewritten) => Success(CompileCall(rewritten, req.path))
    else
      Success(CompileCall(req.content, req.path))
  }

  /** `new RequireFalafel(typeOfReplacement, transformer)`: accepts every policy value and
      snapshots the installed compile step and the keys of `require.cache`. */
  function New(id: nat, typeOfReplacement: int, transformer: string -> Result<string, string>,
               s: Runtime): (r: Interceptor)
    ensures r.id == id && r.typeOfReplacement == typeOfReplacement
    ensures r.transformer == transformer
    ensures r.originalCompile == s.hook
    ensures r.originalCache == s.cache.Keys
  {
    Interceptor(id, typeOfReplacement, transformer, s.hook, s.cache.Keys)
  }

  /** `replaceRequire()`: installs this interceptor's compile step and touches nothing else. */
  function ReplaceRequire(inst: Interceptor, s: Runtime): (r: Runtime)
    ensures r.hook == Falafel(inst.id)
    ensures r.cache == s.cache
  {
    s.(hook := Falafel(inst.id))
  }

  /** `restoreRequire()`: reinstalls the compile step captured at construction and deletes
      every cache entry whose key was not in the construction-time snapshot. */
  function RestoreRequire(inst: Interceptor, s: Runtime): (r: Runtime)
    ensures r.hook == inst.originalCompile
    ensures forall k :: k in r.cache <==> k in s.cache && k in inst.originalCache
    ensures forall k :: k in r.cache ==> r.cache[k] == s.cache[k]
  {
    Runtime(inst.originalCompile, map k | k in s.cache && k in inst.originalCache :: s.cache[k])
  }

  /** How a block, or the call that ran it, finished synchronously: with a value or an exception. */
  datatype Completion<+V, +E> = Returned(value: V) | Threw(error: E)

  /** What a block, or a promise once settled, hands back: a completion that is already
      known, or a promise that settles later. */
  datatype BlockResult<+V, +E> = Done(completion: Completion<V, E>) | Promise

  /** The runtime a block leaves behind and what it handed back. */
  datatype BlockRun<+V, +E> = BlockRun(after: Runtime, result: BlockResult<V, E>)

  /** `applyForBlock(block)`: installs the hook, runs `block`, and either restores at once
      (whether `block` returned or threw) or, when `block` returned a promise, leaves the hook
      installed and hands back a promise that restores when the inner one settles. */
  function ApplyForBlock<V, E>(inst: Interceptor, s: Runtime, block: Runtime -> BlockRun<V, E>): (r: BlockRun<V, E>)
    ensures r.result == block(ReplaceRequire(inst, s)).result
    ensures r.result.Done? ==> r.after == RestoreRequire(inst, block(ReplaceRequire(inst, s)).after)
    ensures r.result.Done? ==> r.after.hook == inst.originalCompile && r.after.cache.Keys <= inst.originalCache
    ensures r.result.Promise? ==> r.after == block(ReplaceRequire(inst, s)).after
  {
    var run := block(ReplaceRequire(inst, s));
    match run.result
    case Done(_) => BlockRun(RestoreRequire(inst, run.after), run.result)
    case Promise => run
  }

  /** The settlement of the promise `applyForBlock` returned: the inner promise has settled
      with `outcome`; `restoreRequire` runs and the outcome is passed on unchanged. */
  function Settle<V, E>(inst: Interceptor, s: Runtime, outcome: Completion<V, E>): (r: BlockRun<V, E>)
    ensures r.result == Done(outcome)
    ensures r.after == RestoreRequire(inst, s)
    ensures r.after.hook == inst.originalCompile
    ensures r.after.cache.Keys <= inst.originalCache
    ensures forall k :: k in r.after.cache ==> k in s.cache && r.after.cache[k] == s.cache[k]
    ensures forall k :: k in s.cache && k in inst.originalCache ==> k in r.after.cache
  {
    BlockRun(RestoreRequire(inst, s), Done(outcome))
  }
}
