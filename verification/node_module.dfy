/** The parts of Node's module system that the interceptor touches, as an external
    service: the hookable compile step `Module.prototype._compile`, the module cache
    `require.cache` keyed by resolved path, and the loader's cache discipline. */
module NodeModule {
  import opened Results

  /** Which compile step `Module.prototype._compile` currently holds: Node's own, or
      the replacement built by the interceptor with identity `owner`. */
  datatype Hook = Native | Falafel(owner: nat)

  /** A cache entry: the module compiled from `source`. */
  datatype CompiledModule = CompiledModule(source: string)

  /** The process-wide state shared by every load: the installed compile step and `require.cache`. */
  datatype Runtime = Runtime(hook: Hook, cache: map<string, CompiledModule>)

  /** A module that required another (`this.parent`, `module.parent`); its `path`, the
      module's directory, is undefined on Node versions that do not expose it. */
  datatype ParentModule = ParentModule(path: Option<string>)

  /** What a load can see of its host:
      - `loader`: the module that first required the interceptor's own module (`module.parent`),
        `None` when that module is the entry point or was not loaded by `require`;
      - `relative`: `path.relative`, left abstract;
      - `syntaxError`: Node's compiler, reduced to the syntax error it reports for a text, if any. */
  datatype Host = Host(
    loader: Option<ParentModule>,
    relative: (string, string) -> string,
    syntaxError: string -> Option<string>)

  /** `module.parent.path`, when `module.parent` exists and exposes it. */
  function ParentDir(host: Host): Option<string> {
    if host.loader.None? then None else host.loader.value.path
  }

  /** One load of a JavaScript module, the kind Node sends through `Module.prototype._compile`:
      the resolved path, the text read from disk, and the requesting module. */
  datatype LoadRequest = LoadRequest(path: string, content: string, parent: Option<ParentModule>)

  /** The arguments a compile step hands to Node's compiler: `_compile(content, path)`. */
  datatype CompileCall = CompileCall(content: string, path: string)

  /** Every exception a load can raise:
      - `UnsupportedNode`: the host does not expose `module.parent.path`;
      - `ParentMissing`: `module.parent` or `this.parent` is absent, so reading `.path` on it fails;
      - `PathNotString`: `path.relative` was given an undefined path;
      - `ParseFailed`: the transformer could not parse the module text;
      - `CompileFailed`: Node's compiler rejected the text it was given. */
  datatype LoadError =
    | UnsupportedNode
    | ParentMissing
    | PathNotString
    | ParseFailed(message: string)
    | CompileFailed(message: string)

  /** The result of a load together with the runtime it leaves behind. */
  datatype Loaded = Loaded(after: Runtime, result: Result<CompiledModule, LoadError>)

  /** `cache'` keeps every entry of `cache` untouched, and may hold more. */
  ghost predicate Extends(cache: map<string, CompiledModule>, cache': map<string, CompiledModule>) {
    forall k :: k in cache ==> k in cache' && cache'[k] == cache[k]
  }

  /** Node's loader around a compile step: a cached path is served from the cache without
      compiling; otherwise `compile` decides the text, Node compiles it, and the module is
      cached under its path only when nothing threw. */
  function LoadThrough(host: Host, s: Runtime, req: LoadRequest,
                       compile: Result<CompileCall, LoadError>): (r: Loaded)
    requires compile.Success? ==> compile.value.path == req.path
    ensures r.after.hook == s.hook
    ensures Extends(s.cache, r.after.cache)
    ensures r.after.cache.Keys <= s.cache.Keys + {req.path}
    ensures req.path in s.cache ==> r == Loaded(s, Success(s.cache[req.path]))
    ensures req.path !in s.cache ==>
      (r.result.Success? <==> compile.Success? && host.syntaxError(compile.value.content).None?)
    ensures req.path !in s.cache && r.result.Success? ==>
      && r.result.value == CompiledModule(compile.value.content)
      && req.path in r.after.cache && r.after.cache[req.path] == r.result.value
    ensures r.result.Failure? ==> r.after == s
    ensures req.path !in s.cache && compile.Failure? ==> r.result == Failure(compile.error)
    ensures req.path !in s.cache && compile.Success? && host.syntaxError(compile.value.content).Some? ==>
      r.result == Failure(CompileFailed(host.syntaxError(compile.value.content).value))
  {
    if req.path in s.cache then
      Loaded(s, Success(s.cache[req.path]))
    else
      match compile
      case Failure(e) => Loaded(s, Failure(e))
      case Success(call) =>
        match host.syntaxError(call.content)
        case Some(message) => Loaded(s, Failure(CompileFailed(message)))
        case None =>
          var m := CompiledModule(call.content);
          Loaded(s.(cache := s.cache[req.path := m]), Success(m))
  }
}
