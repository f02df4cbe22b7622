/** The script engines behind the REPL and the values they exchange with it.
  *
  * The engines (`RubyEngine`, `PythonEngine`, both `DlrEngine`s), the
  * colorizer and the file system are outside this model. What the control
  * asks of them is gathered in `Host`: each operation of the control takes
  * the host as it is at the time of the call, so a guest program that changes
  * its engine's state between two calls is a different host for the second call. */
module Scripting {
  import opened Exceptions
  import opened FlowDocument

  /** The two engines `InitializeScriptEngines` creates. */
  datatype Engine = RubyEngine | PythonEngine
  {
    /** `DlrEngine.Name`, the key the engine is registered under. */
    function Name(): string
    {
      match this
      case RubyEngine => "ruby"
      case PythonEngine => "python"
    }
  }

  /** The objects that flow through `Execute` and the inspection protocol. */
  datatype Value =
    | Null
      /** A .NET `System.String`, such as the "Switched to ..." confirmation. */
    | ClrString(s: string)
      /** An IronRuby `MutableString`, what a Ruby method returns as text. */
    | MutableString(s: string)
      /** Any other object, known by its runtime type and its identity. */
    | Object(typeName: string, handle: nat)

  /** `obj.GetType().FullName`. */
  function TypeFullName(v: Value): string
    requires v != Null
  {
    match v
    case ClrString(_) => "System.String"
    case MutableString(_) => "IronRuby.Builtins.MutableString"
    case Object(t, _) => t
  }

  /** The engines, the colorizer and the file system, as the control calls them. */
  datatype Host = Host(
    /** `engine.Execute(code)`: a value, or the error the guest code raised. */
    execute: (Engine, string) -> Result<Value>,
    /** `engine.ReadStandardOutput()`: the captured output, `None` for null. */
    readStandardOutput: Engine -> Option<string>,
    /** `engine.InvokeMember(obj, name)`. */
    invokeMember: (Engine, Value, string) -> Result<Value>,
    /** `engine.GetFileExtensions()`, in the engine's order. */
    getFileExtensions: Engine -> seq<string>,
    /** `engine.Require(path)`: `Some(e)` when loading the file throws `e`. */
    require: (Engine, string) -> Option<Exception>,
    /** `File.Exists(path)`. */
    fileExists: string -> bool,
    /** `Colorizer.Colorize(engine, code, null)`: the styled runs for `code`. */
    colorize: (Engine, string) -> seq<Fragment>,
    /** `Colorizer.ColorizeErrors(message)`. */
    colorizeErrors: string -> seq<Fragment>)
}
