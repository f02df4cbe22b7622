/** What `RenderOutput` shows for an execution result: the captured standard
  * output when there is any, otherwise the text the Ruby engine's `as_xaml`
  * hook makes of the value, after `LoadInspector` has required the viewer
  * files for the value's type. */
module Rendering {
  import opened Exceptions
  import opened DotNetText
  import opened FlowDocument
  import opened Scripting

  /** Where `LoadInspector` looks for viewer files. */
  const ViewersDirectory := "c:\\dev\\repl\\Viewers\\"

  /** `String.Format(@"c:\dev\repl\Viewers\{0}.viewer{1}", className, extension)`. */
  function ViewerPath(className: string, extension: string): string
  {
    ViewersDirectory + className + ".viewer" + extension
  }

  /** The viewer file for `className` under each extension, in the extensions' order. */
  function ViewerPaths(className: string, extensions: seq<string>): (r: seq<string>)
    ensures |r| == |extensions|
    ensures forall i :: 0 <= i < |r| ==> r[i] == ViewerPath(className, extensions[i])
  {
    if extensions == [] then []
    else [ViewerPath(className, extensions[0])] + ViewerPaths(className, extensions[1..])
  }

  /** The paths among `paths` that exist, in order. */
  function Existing(isFile: string -> bool, paths: seq<string>): (r: seq<string>)
    ensures |r| <= |paths|
    ensures forall p :: p in r <==> p in paths && isFile(p)
  {
    if paths == [] then []
    else if isFile(paths[0]) then [paths[0]] + Existing(isFile, paths[1..])
    else Existing(isFile, paths[1..])
  }

  /** The viewer probe of `LoadInspector`'s loop: every path that exists is
    * required into `engine`, in order; the first one that fails to load stops
    * the loop with its exception. The result lists the files required. */
  function RequireViewers(host: Host, engine: Engine, paths: seq<string>): (r: Result<seq<string>>)
    ensures r.Ok? ==> r.value == Existing(host.fileExists, paths)
    ensures r.Ok? ==> forall p :: p in r.value ==> host.require(engine, p).None?
  {
    if paths == [] then Ok([])
    else if !host.fileExists(paths[0]) then RequireViewers(host, engine, paths[1..])
    else match host.require(engine, paths[0])
      case Some(e) => Err(e)
      case None => Prepend([paths[0]], RequireViewers(host, engine, paths[1..]))
  }

  /** A probe that fails stops at the first existing file that fails to load,
    * every existing file before it having loaded. */
  lemma {:induction false} FirstFailure(host: Host, engine: Engine, paths: seq<string>)
    requires RequireViewers(host, engine, paths).Err?
    ensures var e := RequireViewers(host, engine, paths).error;
            exists i :: 0 <= i < |paths| && host.fileExists(paths[i]) && host.require(engine, paths[i]) == Some(e)
                        && forall j :: 0 <= j < i && host.fileExists(paths[j]) ==> host.require(engine, paths[j]).None?
  {
    var e := RequireViewers(host, engine, paths).error;
    if host.fileExists(paths[0]) && host.require(engine, paths[0]).Some? {
      assert host.require(engine, paths[0]) == Some(e);
    } else {
      FirstFailure(host, engine, paths[1..]);
      var i :| 0 <= i < |paths| - 1 && host.fileExists(paths[1..][i]) && host.require(engine, paths[1..][i]) == Some(e)
               && forall j :: 0 <= j < i && host.fileExists(paths[1..][j]) ==> host.require(engine, paths[1..][j]).None?;
      assert host.fileExists(paths[i + 1]) && host.require(engine, paths[i + 1]) == Some(e);
      forall j | 0 <= j < i + 1 && host.fileExists(paths[j])
        ensures host.require(engine, paths[j]).None?
      {
        if j > 0 {
          assert paths[j] == paths[1..][j - 1];
        }
      }
    }
  }

  /** `loaded` followed by what `r` loaded, or `r`'s exception. */
  function Prepend(loaded: seq<string>, r: Result<seq<string>>): Result<seq<string>>
  {
    match r
    case Ok(rest) => Ok(loaded + rest)
    case Err(e) => Err(e)
  }

  /** One step of the probe: a missing file is skipped, a file that fails to
    * load ends it with that exception, a file that loads joins `loaded`. */
  lemma {:induction false} RequireStep(host: Host, engine: Engine, loaded: seq<string>, paths: seq<string>)
    requires paths != []
    ensures !host.fileExists(paths[0]) ==>
              Prepend(loaded, RequireViewers(host, engine, paths)) == Prepend(loaded, RequireViewers(host, engine, paths[1..]))
    ensures host.fileExists(paths[0]) && host.require(engine, paths[0]).Some? ==>
              Prepend(loaded, RequireViewers(host, engine, paths)) == Err(host.require(engine, paths[0]).value)
    ensures host.fileExists(paths[0]) && host.require(engine, paths[0]).None? ==>
              Prepend(loaded, RequireViewers(host, engine, paths))
              == Prepend(loaded + [paths[0]], RequireViewers(host, engine, paths[1..]))
  {
    var rest := RequireViewers(host, engine, paths[1..]);
    if rest.Ok? {
      assert loaded + ([paths[0]] + rest.value) == loaded + [paths[0]] + rest.value;
    }
  }

  /** Before the probe nothing is loaded; after it nothing is left to probe. */
  lemma PrependEnds(loaded: seq<string>, r: Result<seq<string>>)
    ensures Prepend([], r) == r
    ensures Prepend(loaded, Ok([])) == Ok(loaded)
  {
    if r.Ok? {
      assert [] + r.value == r.value;
    }
    assert loaded + [] == loaded;
  }

  /** `LoadInspector(obj)`: nothing for null or for a type already in
    * `viewers`, otherwise the probe of the type's viewer files under the
    * current engine's extensions. */
  function LoadViewers(host: Host, current: Engine, viewers: set<string>, obj: Value): Result<seq<string>>
  {
    if obj == Null || TypeFullName(obj) in viewers then Ok([])
    else RequireViewers(host, current, ViewerPaths(TypeFullName(obj), host.getFileExtensions(current)))
  }

  /** `InsertInspectedResult`: load the viewers, call `as_xaml` on the Ruby
    * engine, and colorize the result under the current engine when it is a
    * Ruby string; anything else is not implemented. */
  function Inspection(host: Host, current: Engine, ruby: Engine, viewers: set<string>, obj: Value): Result<seq<Fragment>>
  {
    match LoadViewers(host, current, viewers, obj)
    case Err(e) => Err(e)
    case Ok(_) =>
      match host.invokeMember(ruby, obj, "as_xaml")
      case Err(e) => Err(e)
      case Ok(MutableString(s)) => Ok(host.colorize(current, s))
      case Ok(_) => Err(NoUIElementInsertion)
  }

  /** `RenderOutput`: the runs it inserts for `result`, or the exception it throws. */
  function Rendered(host: Host, current: Engine, ruby: Engine, viewers: set<string>, result: Value): Result<seq<Fragment>>
  {
    match host.readStandardOutput(current)
    case Some(output) => Ok(host.colorize(current, TrimEnd(output)))
    case None => Inspection(host, current, ruby, viewers, result)
  }

  /** Captured output, when the engine has any (even the empty string), is
    * what is shown, trimmed at the end; neither the value nor anything the
    * inspection protocol would consult makes a difference. */
  lemma CapturedOutputWins(h1: Host, h2: Host, current: Engine, ruby: Engine, viewers: set<string>, v1: Value, v2: Value)
    requires h1.readStandardOutput == h2.readStandardOutput && h1.colorize == h2.colorize
    requires h1.readStandardOutput(current).Some?
    ensures Rendered(h1, current, ruby, viewers, v1) == Rendered(h2, current, ruby, viewers, v2)
            == Ok(h1.colorize(current, TrimEnd(h1.readStandardOutput(current).value)))
  {
  }

  /** Without captured output the type's viewer files are loaded first, and
    * an exception from one of them ends the rendering; once they are loaded
    * the value is inspected by the Ruby engine, whichever language is
    * current. A Ruby string is colorized under the current language, any
    * other result of `as_xaml` is not implemented. */
  lemma NoOutputInspects(host: Host, current: Engine, ruby: Engine, viewers: set<string>, v: Value)
    requires host.readStandardOutput(current).None?
    ensures var load := LoadViewers(host, current, viewers, v);
            var hook := host.invokeMember(ruby, v, "as_xaml");
            && (load.Err? ==> Rendered(host, current, ruby, viewers, v) == Err(load.error))
            && (load.Ok? && hook.Ok? && hook.value.MutableString? ==>
                  Rendered(host, current, ruby, viewers, v) == Ok(host.colorize(current, hook.value.s)))
            && (load.Ok? && hook.Ok? && !hook.value.MutableString? ==>
                  Rendered(host, current, ruby, viewers, v) == Err(NoUIElementInsertion))
            && (load.Ok? && hook.Err? ==> Rendered(host, current, ruby, viewers, v) == Err(hook.error))
  {
  }

  /** Nothing is loaded for null or for a type whose viewers are loaded, and
    * only files that exist are required. */
  lemma LoadedViewersExist(host: Host, current: Engine, viewers: set<string>, obj: Value)
    requires LoadViewers(host, current, viewers, obj).Ok?
    ensures var loaded := LoadViewers(host, current, viewers, obj).value;
            && (obj == Null ==> loaded == [])
            && (obj != Null && TypeFullName(obj) in viewers ==> loaded == [])
            && (obj != Null && TypeFullName(obj) !in viewers ==>
                  loaded == Existing(host.fileExists, ViewerPaths(TypeFullName(obj), host.getFileExtensions(current))))
  {
  }
}
