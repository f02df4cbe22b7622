/** What `Repl.Execute` does with a line of input: a `%name` directive switches
  * the current language, anything else runs on the current engine. */
module Dispatcher {
  import opened Exceptions
  import opened DotNetText
  import opened Scripting

  /** The language a `%` directive names: `code.StartsWith("%")`, then
    * `code.Substring(code.IndexOf('%') + 1).Trim()`; `None` for ordinary code. */
  function ParseDirective(code: string): (r: Option<string>)
    ensures r.Some? <==> |code| > 0 && code[0] == '%'
    ensures r.Some? ==> |r.value| < |code|
  {
    if |code| > 0 && code[0] == '%' then Some(Trim(code[1..])) else None
  }

  /** The language a directive names carries no surrounding white space. */
  lemma DirectiveTrimmed(code: string)
    requires ParseDirective(code).Some?
    ensures var name := ParseDirective(code).value;
            name == [] || (!IsWhiteSpace(name[0]) && !IsWhiteSpace(name[|name| - 1]))
  {
    TrimFacts(code[1..]);
  }

  /** A directive surrounded by white space names the language between it:
    * `"%  python \r\n"` switches to `"python"`. */
  lemma DirectiveName(lead: string, name: string, trail: string)
    requires AllWhiteSpace(lead) && AllWhiteSpace(trail)
    requires name == [] || (!IsWhiteSpace(name[0]) && !IsWhiteSpace(name[|name| - 1]))
    ensures ParseDirective("%" + lead + name + trail) == Some(name)
  {
    assert ("%" + lead + name + trail)[1..] == lead + name + trail;
    TrimPadded(lead, name, trail);
  }

  /** The outcome of `Execute`: what it returns or throws, and the current language afterwards. */
  datatype Dispatched = Dispatched(result: Result<Value>, current: string)

  /** `Execute(code)` against the language map and the current language. */
  function Dispatch(languageMap: map<string, Engine>, current: string, code: string, host: Host): (d: Dispatched)
    requires current in languageMap
    ensures d.current in languageMap
    ensures d.current != current ==> ParseDirective(code) == Some(d.current) && d.result == Ok(ClrString("Switched to " + d.current))
    ensures d.result.Err? ==> d.current == current
  {
    match ParseDirective(code)
    case Some(language) =>
      if language in languageMap then Dispatched(Ok(ClrString("Switched to " + language)), language)
      else Dispatched(Err(ApplicationException("Unknown language requested: " + language)), current)
    case None => Dispatched(host.execute(languageMap[current], code), current)
  }
}
