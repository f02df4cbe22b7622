/** The `Repl` control: a session over two script engines (one of them
  * current, switched by `%name` directives) and the flow document the user
  * types into, where each run of a selection is echoed as colorized code and
  * followed by its rendered result, or by an error. */
module ReplControl {
  import opened Exceptions
  import opened DotNetText
  import opened FlowDocument
  import opened Scripting
  import opened Dispatcher
  import opened Rendering

  /** The first two steps of `RunSelection`'s try block, at the level of values. */
  datatype Echoing =
      /** A step threw `error` after creating the inlines `created`, leaving the document as it was. */
    | EchoFailed(created: seq<InlineKind>, error: Exception)
      /** The selection's runs `echo` and a line break went in after the inline `end`. */
    | Echoed(end: nat, echo: seq<Fragment>)

  /** `ColorizeSelection` then `InsertLineBreak`, for `selection` under the
    * engine `engine` and the document `doc`: the selection's end must be in an
    * inline, that inline in a paragraph, and the colorized text not empty. */
  function EchoOf(engine: Engine, doc: Document, selection: TextRange, host: Host): (e: Echoing)
    ensures e.Echoed? ==> selection.end == InInline(e.end) && FindParagraph(doc, e.end).Some?
    ensures e.Echoed? ==> e.echo == host.colorize(engine, selection.text) != []
    ensures selection.end.OutsideInline? ==> e == EchoFailed([], NotAnInline)
    ensures selection.end.InInline? ==>
              var echo := host.colorize(engine, selection.text);
              && (FindParagraph(doc, selection.end.inline).None? ==> e == EchoFailed(RunsOf(echo), NoParagraph))
              && (FindParagraph(doc, selection.end.inline).Some? && echo == [] ==> e == EchoFailed([], ArgumentOutOfRange))
              && (FindParagraph(doc, selection.end.inline).Some? && echo != [] ==> e.Echoed?)
  {
    match InlineUnder(selection.end)
    case Err(e) => EchoFailed([], e)
    case Ok(end) =>
      var echo := host.colorize(engine, selection.text);
      if FindParagraph(doc, end).None? then EchoFailed(RunsOf(echo), NoParagraph)
      else if echo == [] then EchoFailed([], ArgumentOutOfRange)
      else Echoed(end, echo)
  }

  /** What the `try` block of `RunSelection` comes to, at the level of values. */
  datatype Attempt =
      /** Every step ran: the echoed code and the rendered result, and the
        * language current afterwards. */
    | Completed(echo: seq<Fragment>, rendered: seq<Fragment>, current: string)
      /** A step threw `error`: the inlines created before it, whether the
        * echoed code and its line break were already in the document, and
        * the language current afterwards (a switch is not undone). */
    | Failed(created: seq<InlineKind>, echoed: bool, current: string, error: Exception)

  /** `Execute(code)` then `RenderOutput` of its value under the engine
    * current afterwards: the runs rendered or the exception thrown, and the
    * language current afterwards. */
  function Response(languageMap: map<string, Engine>, current: string, ruby: Engine, viewers: set<string>,
                    code: string, host: Host): (Result<seq<Fragment>>, string)
    requires current in languageMap
  {
    var d := Dispatch(languageMap, current, code, host);
    match d.result
    case Err(e) => (Err(e), d.current)
    case Ok(v) => (Rendered(host, languageMap[d.current], ruby, viewers, v), d.current)
  }

  /** The try block of `RunSelection` for `selection`, from the session and
    * the document before it: the echo, the response, then the empty line. */
  function Attempted(languageMap: map<string, Engine>, current: string, ruby: Engine, viewers: set<string>,
                     doc: Document, selection: TextRange, host: Host): Attempt
    requires current in languageMap
  {
    Combined(current, EchoOf(languageMap[current], doc, selection, host),
             Response(languageMap, current, ruby, viewers, selection.text, host))
  }

  /** The echo `e` under the language `current`, followed when it succeeds
    * by `response`: the first exception ends the attempt, and so does a
    * response without runs. */
  function Combined(current: string, e: Echoing, response: (Result<seq<Fragment>>, string)): Attempt
  {
    match e
    case EchoFailed(created, error) => Failed(created, false, current, error)
    case Echoed(_, echo) =>
      var created := RunsOf(echo) + [LineBreak];
      match response.0
      case Err(error) => Failed(created, true, response.1, error)
      case Ok(runs) =>
        if runs == [] then Failed(created, true, response.1, ArgumentOutOfRange)
        else Completed(echo, runs, response.1)
  }

  /** Regrouping the inlines created so far with those created next; proved
    * apart from the composition lemmas, whose context makes it costly. */
  lemma AppendAssoc<T>(a: seq<T>, b: seq<T>, c: seq<T>)
    ensures a + (b + c) == a + b + c
  {
  }

  /** The inlines the try block creates, in creation order. */
  function AttemptedInlines(o: Attempt): seq<InlineKind>
  {
    match o
    case Completed(echo, rendered, _) =>
      RunsOf(echo) + [LineBreak] + RunsOf(rendered) + [LineBreak, Run("", Default)]
    case Failed(created, _, _, _) => created
  }

  /** The document the try block leaves: everything it inserted sits, in
    * creation order, right after the inline the selection ends in. */
  function AttemptedDocument(doc: Document, selection: TextRange, o: Attempt, created: seq<nat>): Document
  {
    if (o.Completed? || o.echoed) && selection.end.InInline? && FindParagraph(doc, selection.end.inline).Some?
    then SpliceAfter(doc, selection.end.inline, created)
    else doc
  }

  /** Runs for `frags` were created and inserted after `position`, or
    * `frags` is the exception thrown before anything was created: the
    * inlines `inl` and document `doc` left, from `inl0` and `doc0`, and what
    * was returned. */
  predicate InsertedOn(position: nat, frags: Result<seq<Fragment>>,
                       inl0: seq<InlineKind>, doc0: Document, r: Result<nat>, inl: seq<InlineKind>, doc: Document)
  {
    match frags
    case Err(e) => r == Err(e) && inl == inl0 && doc == doc0
    case Ok(f) =>
      && inl == inl0 + RunsOf(f)
      && (r, doc) == InsertElementsOutcome(doc0, position, Range(|inl0|, |inl|))
  }

  /** An insertion that returned an inline had runs to insert and a
    * position in a paragraph: the block went in after the position, and the
    * inline returned, its last, is in a paragraph too. */
  lemma InsertedLands(position: nat, frags: Result<seq<Fragment>>,
                      inl0: seq<InlineKind>, doc0: Document, r: Result<nat>, inl: seq<InlineKind>, doc: Document)
    requires Below(doc0, |inl0|)
    requires InsertedOn(position, frags, inl0, doc0, r, inl, doc) && r.Ok?
    ensures frags.Ok? && frags.value != [] && inl == inl0 + RunsOf(frags.value)
    ensures FindParagraph(doc0, position).Some? && doc == SpliceAfter(doc0, position, Range(|inl0|, |inl|))
    ensures r.value == |inl| - 1 && FindParagraph(doc, r.value).Some?
  {
    var n0, n := |inl0|, |inl|;
    assert frags.Ok? && FindParagraph(doc0, position).Some? && n0 < n;
    ChainRanges(doc0, position, n0, n, n);
  }

  /** `Echo`'s effect on values: the inlines `inl` and document `doc` it
    * leaves, starting from `inl0` and `doc0`, and what it returns. */
  predicate EchoedOn(e: Echoing, inl0: seq<InlineKind>, doc0: Document, r: Result<nat>, inl: seq<InlineKind>, doc: Document)
  {
    match e
    case EchoFailed(created, error) => r == Err(error) && inl == inl0 + created && doc == doc0
    case Echoed(end, echo) =>
      && FindParagraph(doc0, end).Some?
      && inl == inl0 + RunsOf(echo) + [LineBreak] && r == Ok(|inl| - 1)
      && doc == SpliceAfter(doc0, end, Range(|inl0|, |inl|))
  }

  /** What the steps after `Execute` do with `rendered`: nothing and its
    * exception, or its runs, a line break and an empty run after `position`,
    * with the caret and the selection's end at the empty run. */
  predicate RespondedOn(rendered: Result<seq<Fragment>>, position: nat,
                        inl0: seq<InlineKind>, doc0: Document, caret0: TextPointer, end0: TextPointer,
                        r: Result<nat>, inl: seq<InlineKind>, doc: Document, caret: TextPointer, end: TextPointer)
    requires FindParagraph(doc0, position).Some?
  {
    if rendered.Err? || rendered.value == [] then
      && r == (if rendered.Err? then Err(rendered.error) else Err(ArgumentOutOfRange))
      && inl == inl0 && doc == doc0 && caret == caret0 && end == end0
    else
      && inl == inl0 + RunsOf(rendered.value) + [LineBreak, Run("", Default)]
      && doc == SpliceAfter(doc0, position, Range(|inl0|, |inl|))
      && r == Ok(|inl| - 1) && caret == InInline(|inl| - 1) && end == caret
  }

  /** What the `try` block of `RunSelection` leaves when it comes to `o`:
    * the inlines it created, inserted in creation order after the inline the
    * selection ends in, and the caret at the empty run when every step ran. */
  predicate TriedOn(o: Attempt, selection: TextRange,
                    inl0: seq<InlineKind>, doc0: Document, caret0: TextPointer, end0: TextPointer,
                    r: Result<nat>, inl: seq<InlineKind>, doc: Document, caret: TextPointer, end: TextPointer)
  {
    && inl == inl0 + AttemptedInlines(o)
    && doc == AttemptedDocument(doc0, selection, o, Range(|inl0|, |inl|))
    && (o.Completed? ==> r == Ok(|inl| - 1) && caret == InInline(|inl| - 1) && end == caret)
    && (o.Failed? ==> r == Err(o.error) && caret == caret0 && end == end0)
  }

  /** The selection colorized after the inline its end is in, then, when
    * that returned an inline, a line break after it: together, the echo. */
  lemma EchoComposes(engine: Engine, selection: TextRange, host: Host,
                     inl0: seq<InlineKind>, doc0: Document, r1: Result<nat>, inl1: seq<InlineKind>, doc1: Document,
                     r: Result<nat>, inl: seq<InlineKind>, doc: Document)
    requires Below(doc0, |inl0|)
    requires !selection.end.InInline? ==> r1 == Err(NotAnInline) && inl1 == inl0 && doc1 == doc0
    requires selection.end.InInline? ==>
               InsertedOn(selection.end.inline, Ok(host.colorize(engine, selection.text)), inl0, doc0, r1, inl1, doc1)
    requires r1.Err? ==> r == Err(r1.error) && inl == inl1 && doc == doc1
    requires r1.Ok? ==> inl == inl1 + [LineBreak] && (r, doc) == InsertElementsOutcome(doc1, r1.value, [|inl1|])
    ensures EchoedOn(EchoOf(engine, doc0, selection, host), inl0, doc0, r, inl, doc)
  {
    if r1.Ok? {
      EchoAppends(engine, selection, host, inl0, doc0, r1, inl1, doc1, r, inl, doc);
    } else {
      EchoStops(engine, selection, host, inl0, doc0, r1, inl1, doc1);
    }
  }

  /** When colorizing the selection threw, so did the echo, keeping the runs
    * it created out of the document. */
  lemma EchoStops(engine: Engine, selection: TextRange, host: Host,
                  inl0: seq<InlineKind>, doc0: Document, r1: Result<nat>, inl1: seq<InlineKind>, doc1: Document)
    requires !selection.end.InInline? ==> r1 == Err(NotAnInline) && inl1 == inl0 && doc1 == doc0
    requires selection.end.InInline? ==>
               InsertedOn(selection.end.inline, Ok(host.colorize(engine, selection.text)), inl0, doc0, r1, inl1, doc1)
    requires r1.Err?
    ensures EchoedOn(EchoOf(engine, doc0, selection, host), inl0, doc0, r1, inl1, doc1)
  {
    var echo := host.colorize(engine, selection.text);
    if selection.end.InInline? {
      assert inl1 == inl0 + RunsOf(echo);
      if echo == [] {
        assert inl1 == inl0 + [];
      }
    }
  }

  /** When colorizing the selection returned its last run, the echo is that
    * block followed by the line break, after the inline the selection ends in. */
  lemma EchoAppends(engine: Engine, selection: TextRange, host: Host,
                    inl0: seq<InlineKind>, doc0: Document, r1: Result<nat>, inl1: seq<InlineKind>, doc1: Document,
                    r: Result<nat>, inl: seq<InlineKind>, doc: Document)
    requires Below(doc0, |inl0|)
    requires !selection.end.InInline? ==> r1 == Err(NotAnInline)
    requires selection.end.InInline? ==>
               InsertedOn(selection.end.inline, Ok(host.colorize(engine, selection.text)), inl0, doc0, r1, inl1, doc1)
    requires r1.Ok? && inl == inl1 + [LineBreak] && (r, doc) == InsertElementsOutcome(doc1, r1.value, [|inl1|])
    ensures EchoedOn(EchoOf(engine, doc0, selection, host), inl0, doc0, r, inl, doc)
  {
    var echo := host.colorize(engine, selection.text);
    var end, n0, n1 := selection.end.inline, |inl0|, |inl1|;
    InsertedLands(end, Ok(echo), inl0, doc0, r1, inl1, doc1);
    assert r == Ok(n1) && doc == SpliceAfter(doc0, end, Range(n0, n1 + 1)) by {
      ChainRanges(doc0, end, n0, n1, n1 + 1);
      assert Range(n1, n1 + 1) == [n1];
    }
  }

  /** An echo that returned a line break left it in a paragraph. */
  lemma EchoLands(e: Echoing, inl0: seq<InlineKind>, doc0: Document, r: Result<nat>, inl: seq<InlineKind>, doc: Document)
    requires Below(doc0, |inl0|) && EchoedOn(e, inl0, doc0, r, inl, doc) && r.Ok?
    ensures FindParagraph(doc, r.value).Some?
  {
    match e
    case EchoFailed(_, _) =>
    case Echoed(end, echo) =>
      ChainRanges(doc0, end, |inl0|, |inl|, |inl|);
  }

  /** The echo followed, when it returned a line break, by the response to
    * the selected code after that line break, is the `try` block's attempt:
    * the steps compose without undoing anything. */
  lemma TryComposes(current: string, e: Echoing, response: (Result<seq<Fragment>>, string), selection: TextRange,
                    inl0: seq<InlineKind>, doc0: Document, caret0: TextPointer, end0: TextPointer,
                    r2: Result<nat>, inl2: seq<InlineKind>, doc2: Document,
                    r: Result<nat>, inl: seq<InlineKind>, doc: Document, caret: TextPointer, end: TextPointer, after: string)
    requires Below(doc0, |inl0|)
    requires EchoedOn(e, inl0, doc0, r2, inl2, doc2)
    requires e.Echoed? ==> selection.end == InInline(e.end)
    requires r2.Err? ==>
               r == Err(r2.error) && inl == inl2 && doc == doc2 && caret == caret0 && end == end0 && after == current
    requires r2.Ok? ==>
               && FindParagraph(doc2, r2.value).Some?
               && RespondedOn(response.0, r2.value, inl2, doc2, caret0, end0, r, inl, doc, caret, end)
               && after == response.1
    ensures var o := Combined(current, e, response);
            o.current == after && TriedOn(o, selection, inl0, doc0, caret0, end0, r, inl, doc, caret, end)
  {
    var o := Combined(current, e, response);
    if e.Echoed? {
      var created := RunsOf(e.echo) + [LineBreak];
      var n0, n2 := |inl0|, |inl2|;
      assert inl2 == inl0 + created && r2.value == n2 - 1;
      if o.Completed? {
        var runs := response.0.value;
        assert inl == inl0 + AttemptedInlines(o) by {
          AppendAssoc(inl0, created + RunsOf(runs), [LineBreak, Run("", Default)]);
          AppendAssoc(inl0, created, RunsOf(runs));
        }
        ChainRanges(doc0, e.end, n0, n2, |inl|);
      }
    }
  }

  /** A line break `n0` inserted after an inline in a paragraph, then the
    * next new inline after the line break: one block of two after the inline. */
  lemma EmptyLineSteps(doc0: Document, position: nat, n0: nat, r4: Result<nat>, doc4: Document)
    requires FindParagraph(doc0, position).Some? && Below(doc0, n0) && Below(doc4, n0 + 1)
    requires (r4, doc4) == InsertElementsOutcome(doc0, position, [n0])
    ensures r4 == Ok(n0) && FindParagraph(doc4, n0).Some? && Detached(doc4, n0 + 1)
    ensures var (r5, doc5) := InsertElementsOutcome(doc4, n0, [n0 + 1]);
            r5 == Ok(n0 + 1) && doc5 == SpliceAfter(doc0, position, Range(n0, n0 + 2))
  {
    assert Range(n0, n0 + 1) == [n0];
    ChainRanges(doc0, position, n0, n0 + 1, n0 + 2);
    assert Range(n0 + 1, n0 + 2) == [n0 + 1];
    FreshIsDetached(doc4, n0 + 1, n0 + 1);
  }

  /** The rendered runs inserted after `position`, then, when that
    * returned an inline, an empty line after it with the caret at its empty
    * run: together, the response to `rendered`. */
  lemma RespondComposes(rendered: Result<seq<Fragment>>, position: nat,
                        inl0: seq<InlineKind>, doc0: Document, caret0: TextPointer, end0: TextPointer,
                        r3: Result<nat>, inl3: seq<InlineKind>, doc3: Document,
                        r: Result<nat>, inl: seq<InlineKind>, doc: Document, caret: TextPointer, end: TextPointer)
    requires FindParagraph(doc0, position).Some? && Below(doc0, |inl0|)
    requires InsertedOn(position, rendered, inl0, doc0, r3, inl3, doc3)
    requires r3.Err? ==> r == Err(r3.error) && inl == inl3 && doc == doc3 && caret == caret0 && end == end0
    requires r3.Ok? ==>
               && FindParagraph(doc3, r3.value).Some?
               && inl == inl3 + [LineBreak, Run("", Default)]
               && doc == SpliceAfter(doc3, r3.value, Range(|inl3|, |inl|))
               && r == Ok(|inl| - 1) && caret == InInline(|inl| - 1) && end == caret
    ensures RespondedOn(rendered, position, inl0, doc0, caret0, end0, r, inl, doc, caret, end)
  {
    var n0, n3 := |inl0|, |inl3|;
    if rendered.Err? {
      assert r3 == Err(rendered.error) && inl3 == inl0 && doc3 == doc0;
    } else if rendered.value == [] {
      assert r3 == Err(ArgumentOutOfRange) && inl3 == inl0 + [] && doc3 == doc0;
    } else {
      assert inl3 == inl0 + RunsOf(rendered.value);
      assert r3 == Ok(n3 - 1) && doc3 == SpliceAfter(doc0, position, Range(n0, n3)) by {
        InsertedLands(position, rendered, inl0, doc0, r3, inl3, doc3);
      }
      assert doc == SpliceAfter(doc0, position, Range(n0, |inl|)) by {
        ChainRanges(doc0, position, n0, n3, |inl|);
      }
    }
  }

  /** The `catch` block's effect on values: nothing when the selection's end
    * `anchor` is not in an inline, otherwise the error message of `error`
    * inserted after that inline. */
  predicate RecoveredOn(error: Exception, host: Host, anchor: TextPointer,
                        inl0: seq<InlineKind>, doc0: Document, r: Result<nat>, inl: seq<InlineKind>, doc: Document)
  {
    match InlineUnder(anchor)
    case Err(e) => r == Err(e) && inl == inl0 && doc == doc0
    case Ok(x) => InsertedOn(x, Ok(host.colorizeErrors(error.Message())), inl0, doc0, r, inl, doc)
  }

  /** `RunSelection` for a non-empty selection whose try block comes to `o`:
    * what the try block left when it completed; when it threw, the caret
    * and the selection's end where they were and the error message rendered
    * on top of what the try block left, with nothing rolled back. */
  predicate RanOn(o: Attempt, selection: TextRange, host: Host,
                  inl0: seq<InlineKind>, doc0: Document, caret0: TextPointer, end0: TextPointer,
                  r: Result<nat>, inl: seq<InlineKind>, doc: Document, caret: TextPointer, end: TextPointer)
  {
    match o
    case Completed(_, _, _) => TriedOn(o, selection, inl0, doc0, caret0, end0, r, inl, doc, caret, end)
    case Failed(created, _, _, error) =>
      var n0 := |inl0|;
      var tried := AttemptedDocument(doc0, selection, o, Range(n0, n0 + |created|));
      && caret == caret0 && end == end0
      && RecoveredOn(error, host, end0, inl0 + created, tried, r, inl, doc)
  }

  /** The try block, then the `catch` block when it threw, make up `RunSelection`. */
  lemma RunComposes(o: Attempt, selection: TextRange, host: Host,
                    inl0: seq<InlineKind>, doc0: Document, caret0: TextPointer, end0: TextPointer,
                    rt: Result<nat>, inlt: seq<InlineKind>, doct: Document,
                    r: Result<nat>, inl: seq<InlineKind>, doc: Document, caret: TextPointer, end: TextPointer)
    requires TriedOn(o, selection, inl0, doc0, caret0, end0, rt, inlt, doct, caret, end)
    requires rt.Ok? ==> r == rt && inl == inlt && doc == doct
    requires rt.Err? ==> RecoveredOn(rt.error, host, end, inlt, doct, r, inl, doc)
    ensures RanOn(o, selection, host, inl0, doc0, caret0, end0, r, inl, doc, caret, end)
  {
  }

  /** Once the selection is echoed, a `%name` directive for a registered
    * language leaves that language current whether or not rendering the
    * confirmation throws; one for an unknown language ends the attempt with
    * its exception after the echo, the language unchanged. */
  lemma DirectiveAttempt(languageMap: map<string, Engine>, current: string, ruby: Engine, viewers: set<string>,
                         doc: Document, selection: TextRange, host: Host)
    requires current in languageMap
    requires ParseDirective(selection.text).Some?
    requires EchoOf(languageMap[current], doc, selection, host).Echoed?
    ensures var name := ParseDirective(selection.text).value;
            var echo := EchoOf(languageMap[current], doc, selection, host).echo;
            var o := Attempted(languageMap, current, ruby, viewers, doc, selection, host);
            && (name in languageMap ==> o.current == name)
            && (name !in languageMap ==>
                  o == Failed(RunsOf(echo) + [LineBreak], true, current,
                              ApplicationException("Unknown language requested: " + name)))
  {
  }

  /** Ordinary code leaves the language as it was, whatever the outcome;
    * once echoed, it runs verbatim on the current engine. An error it raises
    * ends the attempt after the echo; the value it returns is what gets
    * rendered, and the attempt completes exactly when that gives runs. */
  lemma CodeAttempt(languageMap: map<string, Engine>, current: string, ruby: Engine, viewers: set<string>,
                    doc: Document, selection: TextRange, host: Host)
    requires current in languageMap
    requires ParseDirective(selection.text).None?
    ensures var o := Attempted(languageMap, current, ruby, viewers, doc, selection, host);
            var e := EchoOf(languageMap[current], doc, selection, host);
            var run := host.execute(languageMap[current], selection.text);
            && o.current == current
            && (e.Echoed? && run.Err? ==> o == Failed(RunsOf(e.echo) + [LineBreak], true, current, run.error))
            && (e.Echoed? && run.Ok? ==>
                  var rendered := Rendered(host, languageMap[current], ruby, viewers, run.value);
                  && (rendered.Ok? && rendered.value != [] ==> o == Completed(e.echo, rendered.value, current))
                  && (rendered.Ok? && rendered.value == [] ==>
                        o == Failed(RunsOf(e.echo) + [LineBreak], true, current, ArgumentOutOfRange))
                  && (rendered.Err? ==> o == Failed(RunsOf(e.echo) + [LineBreak], true, current, rendered.error)))
  {
  }

  /** When every step of the try block ran, the inlines right after the one
    * the selection ends in are, in document order: the echoed code, a line
    * break, the rendered result, a line break and an empty run, where the
    * caret is. */
  lemma CompletedInOrder(languageMap: map<string, Engine>, current: string, ruby: Engine, viewers: set<string>,
                         selection: TextRange, host: Host,
                         inl0: seq<InlineKind>, doc0: Document, caret0: TextPointer, end0: TextPointer,
                         r: Result<nat>, inl: seq<InlineKind>, doc: Document, caret: TextPointer, end: TextPointer)
    requires current in languageMap
    requires var o := Attempted(languageMap, current, ruby, viewers, doc0, selection, host);
             o.Completed? && RanOn(o, selection, host, inl0, doc0, caret0, end0, r, inl, doc, caret, end)
    ensures var o := Attempted(languageMap, current, ruby, viewers, doc0, selection, host);
            var shown := RunsOf(o.echo) + [LineBreak] + RunsOf(o.rendered) + [LineBreak, Run("", Default)];
            && selection.end.InInline? && FindParagraph(doc0, selection.end.inline).Some?
            && |inl0| <= |inl|
            && var block := Range(|inl0|, |inl|);
            && doc == SpliceAfter(doc0, selection.end.inline, block)
            && |block| == |shown|
            && (forall i :: 0 <= i < |block| ==> block[i] < |inl| && inl[block[i]] == shown[i])
            && r == Ok(block[|block| - 1]) && caret == InInline(block[|block| - 1])
  {
    var o := Attempted(languageMap, current, ruby, viewers, doc0, selection, host);
    var n0 := |inl0|;
    var block := Range(n0, |inl|);
    forall i | 0 <= i < |block|
      ensures block[i] < |inl| && inl[block[i]] == AttemptedInlines(o)[i]
    {
      RangeAt(n0, |inl|, i);
    }
    RangeAt(n0, |inl|, |block| - 1);
  }

  /** When a step of the try block threw, nothing it did is undone: the
    * inlines it created stay, and when the echo went in, every inline it
    * inserted is still in the document after the error message. */
  lemma NothingRolledBack(languageMap: map<string, Engine>, current: string, ruby: Engine, viewers: set<string>,
                          selection: TextRange, host: Host,
                          inl0: seq<InlineKind>, doc0: Document, caret0: TextPointer, end0: TextPointer,
                          r: Result<nat>, inl: seq<InlineKind>, doc: Document, caret: TextPointer, end: TextPointer)
    requires current in languageMap
    requires var o := Attempted(languageMap, current, ruby, viewers, doc0, selection, host);
             o.Failed? && RanOn(o, selection, host, inl0, doc0, caret0, end0, r, inl, doc, caret, end)
    ensures var o := Attempted(languageMap, current, ruby, viewers, doc0, selection, host);
            && inl0 + o.created <= inl
            && (o.echoed ==> forall y :: |inl0| <= y < |inl0| + |o.created| ==> !Detached(doc, y))
  {
    var o := Attempted(languageMap, current, ruby, viewers, doc0, selection, host);
    var e := EchoOf(languageMap[current], doc0, selection, host);
    var n0 := |inl0|;
    var n1 := n0 + |o.created|;
    var tried := AttemptedDocument(doc0, selection, o, Range(n0, n1));
    var anchor := InlineUnder(end0);
    if anchor.Ok? {
      var f := host.colorizeErrors(o.error.Message());
      assert inl == inl0 + o.created + RunsOf(f);
      assert inl0 + o.created <= inl by {
        assert inl[..n1] == inl0 + o.created;
      }
    }
    if o.echoed {
      assert e.Echoed? && tried == SpliceAfter(doc0, e.end, Range(n0, n1));
      forall y | n0 <= y < n1
        ensures !Detached(doc, y)
      {
        RangeHolds(n0, n1, y);
        SpliceKeeps(doc0, e.end, Range(n0, n1), y);
        if anchor.Ok? && FindParagraph(tried, anchor.value).Some? && n1 < |inl| {
          SpliceKeeps(tried, anchor.value, Range(n1, |inl|), y);
        }
      }
    }
  }

  class Repl {
    /** `_languageMap`: the engines by name. */
    var languageMap: map<string, Engine>
    /** `_currentEngine`: the name of the current language. */
    var currentEngine: string
    /** `_rubyEngine`: the engine every value is inspected with. */
    var rubyEngine: Engine
    /** `_viewers`: the types whose viewers are loaded (no method adds to it). */
    var viewers: set<string>

    /** The document: each paragraph's inlines, in order. */
    var paragraphs: Document
    /** Every inline created so far, by identity. */
    var inlines: seq<InlineKind>
    /** `MainRepl.CaretPosition`. */
    var caret: TextPointer
    /** `MainRepl.Selection.End`. */
    var selectionEnd: TextPointer

    /** The current language is always registered, each engine under its own
      * name; inspection goes through the Ruby engine; the document holds only
      * inlines that were created. */
    ghost predicate Valid()
      reads this`languageMap, this`currentEngine, this`rubyEngine, this`paragraphs, this`inlines
    {
      && currentEngine in languageMap
      && (forall name :: name in languageMap ==> languageMap[name].Name() == name)
      && rubyEngine == RubyEngine
      && Below(paragraphs, |inlines|)
    }

    /** `new Repl()` over the document `InitializeComponent` loads. */
    constructor (document: Document, created: seq<InlineKind>, caret: TextPointer, selectionEnd: TextPointer)
      requires Below(document, |created|)
      ensures Valid()
      ensures languageMap == map["ruby" := RubyEngine, "python" := PythonEngine]
      ensures currentEngine == "ruby" && rubyEngine == RubyEngine && viewers == {}
      ensures paragraphs == document && inlines == created
      ensures this.caret == caret && this.selectionEnd == selectionEnd
    {
      languageMap := map[];
      currentEngine := "";
      rubyEngine := RubyEngine;
      viewers := {};
      paragraphs := document;
      inlines := created;
      this.caret := caret;
      this.selectionEnd := selectionEnd;
      new;
      InitializeScriptEngines();
    }

    /** Registers the Ruby and Python engines under their names, keeps the
      * Ruby engine for inspection and makes "ruby" current. */
    method InitializeScriptEngines()
      requires languageMap == map[] && Below(paragraphs, |inlines|)
      modifies this`languageMap, this`rubyEngine, this`currentEngine
      ensures Valid()
      ensures languageMap == map["ruby" := RubyEngine, "python" := PythonEngine]
      ensures rubyEngine == RubyEngine && currentEngine == "ruby"
    {
      var engine := RubyEngine;
      languageMap := languageMap[engine.Name() := engine];
      rubyEngine := engine;
      engine := PythonEngine;
      languageMap := languageMap[engine.Name() := engine];
      currentEngine := "ruby";
    }

    /** `CurrentEngine`: never fails, since the current language is registered. */
    function CurrentEngine(): (e: Engine)
      reads this
      requires Valid()
      ensures e.Name() == currentEngine
    {
      languageMap[currentEngine]
    }

    /** `Execute(code)`: a `%name` directive switches to a registered language
      * or throws; any other input runs unchanged on the current engine. */
    method Execute(code: string, host: Host) returns (r: Result<Value>)
      requires Valid()
      modifies this`currentEngine
      ensures Valid()
      ensures Dispatched(r, currentEngine) == old(Dispatch(languageMap, currentEngine, code, host))
      ensures ParseDirective(code).Some? && ParseDirective(code).value in languageMap ==>
                currentEngine == ParseDirective(code).value && r == Ok(ClrString("Switched to " + currentEngine))
      ensures ParseDirective(code).Some? && ParseDirective(code).value !in languageMap ==>
                currentEngine == old(currentEngine)
                && r == Err(ApplicationException("Unknown language requested: " + ParseDirective(code).value))
      ensures ParseDirective(code).None? ==>
                currentEngine == old(currentEngine) && r == host.execute(old(CurrentEngine()), code)
    {
      if |code| > 0 && code[0] == '%' {
        var language := Trim(code[1..]);
        if language in languageMap {
          currentEngine := language;
        } else {
          return Err(ApplicationException("Unknown language requested: " + language));
        }
        return Ok(ClrString("Switched to " + language));
      } else {
        return host.execute(CurrentEngine(), code);
      }
    }

    /** `GetParagraph(position)`: the paragraph holding the inline, or the
      * exception for an inline whose parent is not a paragraph. */
    function GetParagraph(position: nat): (r: Result<nat>)
      reads this
      ensures r.Ok? ==> r.value < |paragraphs| && position in paragraphs[r.value]
      ensures r.Err? ==> r.error == NoParagraph && Detached(paragraphs, position)
    {
      match FindParagraph(paragraphs, position)
      case Some(k) => Ok(k)
      case None => Err(NoParagraph)
    }

    /** `InsertElements`-style outcome: what was returned or thrown and the
      * document left behind, for inserting `block` after `position`. */
    twostate predicate Spliced(position: nat, block: seq<nat>, new r: Result<nat>)
      reads this
    {
      (r, paragraphs) == InsertElementsOutcome(old(paragraphs), position, block)
    }

    /** `new Run(...)` / `new LineBreak()`: a new inline, in no paragraph yet. */
    method NewInline(kind: InlineKind) returns (id: nat)
      requires Valid()
      modifies this`inlines
      ensures Valid()
      ensures inlines == old(inlines) + [kind] && id == |old(inlines)|
    {
      id := |inlines|;
      inlines := inlines + [kind];
      BelowGrows(paragraphs, id, |inlines|);
    }

    /** The runs `Colorizer` creates for `frags`. */
    method NewRuns(frags: seq<Fragment>) returns (ids: seq<nat>)
      requires Valid()
      modifies this`inlines
      ensures Valid()
      ensures inlines == old(inlines) + RunsOf(frags)
      ensures ids == Range(|old(inlines)|, |inlines|)
    {
      ids := Range(|inlines|, |inlines| + |frags|);
      inlines := inlines + RunsOf(frags);
      BelowGrows(paragraphs, |old(inlines)|, |inlines|);
    }

    /** `InsertInline(position, element)`: `element` right after `position`
      * in its paragraph, everything else in place; returns `element`. */
    method InsertInline(position: nat, element: nat) returns (r: Result<nat>)
      requires Valid()
      requires element < |inlines| && Detached(paragraphs, element)
      modifies this`paragraphs
      ensures Valid()
      ensures Spliced(position, [element], r)
    {
      var paragraph := GetParagraph(position);
      if paragraph.Err? {
        return Err(paragraph.error);
      }
      var k := paragraph.value;
      paragraphs := paragraphs[k := InsertAfter(paragraphs[k], position, element)];
      SpliceInParagraph(old(paragraphs), position, [element]);
      SpliceBelow(old(paragraphs), position, [element], |inlines|);
      return Ok(element);
    }

    /** `InsertLineBreak(position)`: a new line break right after `position`. */
    method InsertLineBreak(position: nat) returns (r: Result<nat>)
      requires Valid()
      modifies this`paragraphs, this`inlines
      ensures Valid()
      ensures inlines == old(inlines) + [LineBreak]
      ensures Spliced(position, [|old(inlines)|], r)
    {
      var lineBreak := NewInline(LineBreak);
      FreshIsDetached(paragraphs, lineBreak, lineBreak);
      r := InsertInline(position, lineBreak);
    }

    /** `InsertElements(position, runs)`: the runs right after `position`, in
      * their order, by inserting each right after `position` from the last
      * one back to the first; returns the last run. */
    method InsertElements(position: nat, runs: seq<nat>) returns (r: Result<nat>)
      requires Valid()
      requires Distinct(runs)
      requires forall x :: x in runs ==> x < |inlines| && Detached(paragraphs, x)
      modifies this`paragraphs
      ensures Valid()
      ensures Spliced(position, runs, r)
    {
      var paragraph := GetParagraph(position);
      if paragraph.Err? {
        return Err(paragraph.error);
      }
      if |runs| == 0 {
        return Err(ArgumentOutOfRange);
      }
      var end := runs[|runs| - 1];
      InsertEachAfter(paragraph.value, position, runs);
      assert paragraphs == SpliceAfter(old(paragraphs), position, runs) by {
        BackwardLoopSplices(old(paragraphs), position, runs, paragraph.value);
      }
      SpliceBelow(old(paragraphs), position, runs, |inlines|);
      return Ok(end);
    }

    /** The loop of `InsertElements`: from the last of `runs` back to the
      * first, each inserted right after `position` in paragraph `k`. */
    method InsertEachAfter(k: nat, position: nat, runs: seq<nat>)
      requires k < |paragraphs| && position in paragraphs[k]
      modifies this`paragraphs
      ensures paragraphs == old(paragraphs)[k := InsertEachBackward(old(paragraphs)[k], position, runs)]
    {
      ghost var s := paragraphs[k];
      var i: int := |runs| - 1;
      while i >= 0
        invariant -1 <= i < |runs|
        invariant paragraphs == old(paragraphs)[k := InsertEachBackward(s, position, runs[i + 1..])]
      {
        assert runs[i..][0] == runs[i] && runs[i..][1..] == runs[i + 1..];
        paragraphs := paragraphs[k := InsertAfter(paragraphs[k], position, runs[i])];
        i := i - 1;
      }
      assert runs[0..] == runs;
    }

    /** `InsertColorizedCode(position, code)`: `code` colorized under the
      * current language, inserted after `position`. */
    method InsertColorizedCode(position: nat, code: string, host: Host) returns (r: Result<nat>)
      requires Valid()
      modifies this`paragraphs, this`inlines
      ensures Valid()
      ensures InsertedOn(position, Ok(host.colorize(old(CurrentEngine()), code)), old(inlines), old(paragraphs), r, inlines, paragraphs)
    {
      var runs := NewRuns(host.colorize(CurrentEngine(), code));
      FreshRange(paragraphs, |old(inlines)|, |inlines|);
      r := InsertElements(position, runs);
    }

    /** `RenderError(position, error)`: the error message in error style,
      * inserted after `position`. */
    method RenderError(position: nat, error: string, host: Host) returns (r: Result<nat>)
      requires Valid()
      modifies this`paragraphs, this`inlines
      ensures Valid()
      ensures InsertedOn(position, Ok(host.colorizeErrors(error)), old(inlines), old(paragraphs), r, inlines, paragraphs)
    {
      var runs := NewRuns(host.colorizeErrors(error));
      FreshRange(paragraphs, |old(inlines)|, |inlines|);
      r := InsertElements(position, runs);
    }

    /** `LoadInspector(obj)`: for a non-null value whose type is not in
      * `viewers`, requires into the current engine each viewer file for the
      * type that exists, in the order of the engine's extensions; returns the
      * files required. */
    method LoadInspector(obj: Value, host: Host) returns (r: Result<seq<string>>)
      requires Valid()
      ensures r == LoadViewers(host, CurrentEngine(), viewers, obj)
    {
      if obj == Null {
        return Ok([]);
      }
      if TypeFullName(obj) in viewers {
        return Ok([]);
      }
      var engine := CurrentEngine();
      var className := TypeFullName(obj);
      var extensions := host.getFileExtensions(engine);
      ghost var paths := ViewerPaths(className, extensions);
      var loaded := [];
      assert paths[0..] == paths;
      PrependEnds(loaded, RequireViewers(host, engine, paths));
      for i := 0 to |extensions|
        invariant Prepend(loaded, RequireViewers(host, engine, paths[i..])) == RequireViewers(host, engine, paths)
      {
        var viewerPath := ViewerPath(className, extensions[i]);
        assert paths[i..][0] == viewerPath && paths[i..][1..] == paths[i + 1..];
        RequireStep(host, engine, loaded, paths[i..]);
        if host.fileExists(viewerPath) {
          var failure := host.require(engine, viewerPath);
          if failure.Some? {
            return Err(failure.value);
          }
          loaded := loaded + [viewerPath];
        }
      }
      assert paths[|extensions|..] == [];
      PrependEnds(loaded, Ok([]));
      return Ok(loaded);
    }

    /** `InsertInspectedResult(position, obj)`: the viewers for `obj` loaded,
      * then the Ruby engine's `as_xaml` of it colorized after `position` when
      * it is a Ruby string; anything else throws. */
    method InsertInspectedResult(position: nat, obj: Value, host: Host) returns (r: Result<nat>)
      requires Valid()
      modifies this`paragraphs, this`inlines
      ensures Valid()
      ensures InsertedOn(position, old(Inspection(host, CurrentEngine(), rubyEngine, viewers, obj)), old(inlines), old(paragraphs),
                         r, inlines, paragraphs)
    {
      var loaded := LoadInspector(obj, host);
      if loaded.Err? {
        return Err(loaded.error);
      }
      var result := host.invokeMember(rubyEngine, obj, "as_xaml");
      if result.Err? {
        return Err(result.error);
      }
      if result.value.MutableString? {
        r := InsertColorizedCode(position, result.value.s, host);
      } else {
        return Err(NoUIElementInsertion);
      }
    }

    /** `RenderOutput(position, result)`: the current engine's captured
      * output, when it is not null, trimmed at the end and colorized;
      * otherwise the inspected result. */
    method RenderOutput(position: nat, result: Value, host: Host) returns (r: Result<nat>, ghost rendered: Result<seq<Fragment>>)
      requires Valid()
      modifies this`paragraphs, this`inlines
      ensures Valid()
      ensures rendered == old(Rendered(host, CurrentEngine(), rubyEngine, viewers, result))
      ensures InsertedOn(position, rendered, old(inlines), old(paragraphs), r, inlines, paragraphs)
    {
      rendered := Rendered(host, CurrentEngine(), rubyEngine, viewers, result);
      var output := host.readStandardOutput(CurrentEngine());
      if output.Some? {
        r := InsertColorizedCode(position, TrimEnd(output.value), host);
      } else {
        r := InsertInspectedResult(position, result, host);
      }
    }

    /** `ColorizeSelection(selection)`: the selection's text colorized after
      * the inline its end is in. */
    method ColorizeSelection(selection: TextRange, host: Host) returns (r: Result<nat>)
      requires Valid()
      modifies this`paragraphs, this`inlines
      ensures Valid()
      ensures selection.end.OutsideInline? ==>
                r == Err(NotAnInline) && inlines == old(inlines) && paragraphs == old(paragraphs)
      ensures selection.end.InInline? ==>
                InsertedOn(selection.end.inline, Ok(host.colorize(old(CurrentEngine()), selection.text)),
                           old(inlines), old(paragraphs), r, inlines, paragraphs)
    {
      var position := InlineUnder(selection.end);
      if position.Err? {
        return Err(position.error);
      }
      r := InsertColorizedCode(position.value, selection.text, host);
    }

    /** The first two steps of `RunSelection`'s try block: the selection
      * colorized after the inline its end is in, then a line break; returns
      * the line break. */
    method Echo(selection: TextRange, host: Host) returns (r: Result<nat>)
      requires Valid()
      modifies this`paragraphs, this`inlines
      ensures Valid()
      ensures EchoedOn(old(EchoOf(CurrentEngine(), paragraphs, selection, host)), old(inlines), old(paragraphs), r, inlines, paragraphs)
    {
      ghost var inl0, doc0, engine := inlines, paragraphs, CurrentEngine();
      var run1 := ColorizeSelection(selection, host);
      ghost var inl1, doc1 := inlines, paragraphs;
      if run1.Err? {
        r := Err(run1.error);
      } else {
        r := InsertLineBreak(run1.value);
      }
      EchoComposes(engine, selection, host, inl0, doc0, run1, inl1, doc1, r, inlines, paragraphs);
    }

    /** The last steps of `RunSelection`'s try block: a line break after
      * `position`, then an empty run after it, where the caret goes (which
      * collapses the selection); returns the empty run. */
    method InsertEmptyLine(position: nat) returns (r: nat)
      requires Valid() && FindParagraph(paragraphs, position).Some?
      modifies this`paragraphs, this`inlines, this`caret, this`selectionEnd
      ensures Valid()
      ensures inlines == old(inlines) + [LineBreak, Run("", Default)]
      ensures paragraphs == SpliceAfter(old(paragraphs), position, Range(|old(inlines)|, |inlines|))
      ensures r == |inlines| - 1 && caret == InInline(r) && selectionEnd == caret
    {
      ghost var doc0, n0 := paragraphs, |inlines|;
      var run4 := InsertLineBreak(position);
      EmptyLineSteps(doc0, position, n0, run4, paragraphs);
      var empty := NewInline(Run("", Default));
      var run5 := InsertInline(run4.value, empty);
      caret := InInline(run5.value);
      selectionEnd := caret;
      return run5.value;
    }

    /** The steps of `RunSelection`'s try block after `Execute`: what the code
      * gave rendered after `position`, then an empty line where the caret
      * goes; returns the empty run. */
    method Respond(position: nat, result: Value, host: Host) returns (r: Result<nat>, ghost rendered: Result<seq<Fragment>>)
      requires Valid() && FindParagraph(paragraphs, position).Some?
      modifies this`paragraphs, this`inlines, this`caret, this`selectionEnd
      ensures Valid()
      ensures rendered == old(Rendered(host, CurrentEngine(), rubyEngine, viewers, result))
      ensures RespondedOn(rendered, position, old(inlines), old(paragraphs), old(caret), old(selectionEnd),
                          r, inlines, paragraphs, caret, selectionEnd)
    {
      ghost var inl0, doc0, caret0, end0 := inlines, paragraphs, caret, selectionEnd;
      var run3;
      run3, rendered := RenderOutput(position, result, host);
      ghost var inl3, doc3 := inlines, paragraphs;
      if run3.Err? {
        r := Err(run3.error);
      } else {
        InsertedLands(position, rendered, inl0, doc0, run3, inl3, doc3);
        var run5 := InsertEmptyLine(run3.value);
        r := Ok(run5);
      }
      RespondComposes(rendered, position, inl0, doc0, caret0, end0, run3, inl3, doc3,
                      r, inlines, paragraphs, caret, selectionEnd);
    }

    /** The steps of `RunSelection`'s try block after the echo: run `code`,
      * then respond after `position` with what it gave. */
    method RunEchoed(position: nat, code: string, host: Host) returns (r: Result<nat>)
      requires Valid() && FindParagraph(paragraphs, position).Some?
      modifies this`paragraphs, this`inlines, this`currentEngine, this`caret, this`selectionEnd
      ensures Valid()
      ensures var (rendered, after) := old(Response(languageMap, currentEngine, rubyEngine, viewers, code, host));
              && currentEngine == after
              && RespondedOn(rendered, position, old(inlines), old(paragraphs), old(caret), old(selectionEnd),
                             r, inlines, paragraphs, caret, selectionEnd)
    {
      var value := Execute(code, host);
      if value.Err? {
        return Err(value.error);
      }
      ghost var rendered;
      r, rendered := Respond(position, value.value, host);
    }

    /** The `try` block of `RunSelection`: echo the selection colorized after
      * the inline its end is in, a line break, run the code, render what it
      * gives, a line break and an empty run, where the caret goes. The first
      * exception stops it, and nothing done before is undone. */
    method TryRun(selection: TextRange, host: Host) returns (r: Result<nat>)
      requires Valid()
      modifies this`paragraphs, this`inlines, this`currentEngine, this`caret, this`selectionEnd
      ensures Valid()
      ensures var o := old(Attempted(languageMap, currentEngine, rubyEngine, viewers, paragraphs, selection, host));
              && currentEngine == o.current
              && TriedOn(o, selection, old(inlines), old(paragraphs), old(caret), old(selectionEnd),
                         r, inlines, paragraphs, caret, selectionEnd)
    {
      ghost var inl0, doc0, caret0, end0 := inlines, paragraphs, caret, selectionEnd;
      ghost var map0, current0, ruby0, viewers0 := languageMap, currentEngine, rubyEngine, viewers;
      var run2 := Echo(selection, host);
      ghost var inl2, doc2 := inlines, paragraphs;
      if run2.Err? {
        r := Err(run2.error);
      } else {
        EchoLands(EchoOf(map0[current0], doc0, selection, host), inl0, doc0, run2, inl2, doc2);
        r := RunEchoed(run2.value, selection.text, host);
      }
      TryComposes(current0, EchoOf(map0[current0], doc0, selection, host),
                  Response(map0, current0, ruby0, viewers0, selection.text, host), selection, inl0, doc0, caret0, end0,
                  run2, inl2, doc2, r, inlines, paragraphs, caret, selectionEnd, currentEngine);
    }

    /** What `RunSelection(selection)` did: for an empty selection, nothing
      * but the inline under its start; otherwise the try block, and when it
      * threw, the exception's message rendered after the inline under
      * `MainRepl.Selection.End`, on top of what the try block left. */
    twostate predicate RanSelection(new selection: TextRange, new host: Host, new r: Result<nat>)
      reads this
      requires old(Valid())
    {
      if selection.isEmpty then
        && r == InlineUnder(selection.start)
        && currentEngine == old(currentEngine) && inlines == old(inlines) && paragraphs == old(paragraphs)
        && caret == old(caret) && selectionEnd == old(selectionEnd)
      else
        var o := Attempted(old(languageMap), old(currentEngine), old(rubyEngine), old(viewers), old(paragraphs), selection, host);
        && currentEngine == o.current
        && RanOn(o, selection, host, old(inlines), old(paragraphs), old(caret), old(selectionEnd),
                 r, inlines, paragraphs, caret, selectionEnd)
    }

    /** `RunSelection(selection)`: run the selected code, leaving it echoed,
      * its result and an empty line after it, or the error message. */
    method RunSelection(selection: TextRange, host: Host) returns (r: Result<nat>)
      requires Valid()
      modifies this`paragraphs, this`inlines, this`currentEngine, this`caret, this`selectionEnd
      ensures Valid()
      ensures languageMap == old(languageMap) && rubyEngine == old(rubyEngine) && viewers == old(viewers)
      ensures RanSelection(selection, host, r)
    {
      if selection.isEmpty {
        return InlineUnder(selection.start);
      }
      ghost var o := Attempted(languageMap, currentEngine, rubyEngine, viewers, paragraphs, selection, host);
      ghost var inl0, doc0, caret0, end0 := inlines, paragraphs, caret, selectionEnd;
      var attempt := TryRun(selection, host);
      ghost var inlt, doct := inlines, paragraphs;
      if attempt.Ok? {
        r := attempt;
      } else {
        r := Recover(attempt.error, host);
      }
      RunComposes(o, selection, host, inl0, doc0, caret0, end0, attempt, inlt, doct,
                  r, inlines, paragraphs, caret, selectionEnd);
    }

    /** The `catch` block of `RunSelection`: the exception's message rendered
      * after the inline under `MainRepl.Selection.End`. */
    method Recover(error: Exception, host: Host) returns (r: Result<nat>)
      requires Valid()
      modifies this`paragraphs, this`inlines
      ensures Valid()
      ensures RecoveredOn(error, host, old(selectionEnd), old(inlines), old(paragraphs), r, inlines, paragraphs)
    {
      var anchor := InlineUnder(selectionEnd);
      if anchor.Err? {
        return Err(anchor.error);
      }
      r := RenderError(anchor.value, error.Message(), host);
    }

    /** `RunCurrentLine()`: `RunSelection` over the range from the start of
      * the caret's line to the caret; where the line starts, its text and
      * whether the range is empty come from the layout, outside this model. */
    method RunCurrentLine(lineStart: TextPointer, lineText: string, lineEmpty: bool, host: Host) returns (r: Result<nat>)
      requires Valid()
      modifies this`paragraphs, this`inlines, this`currentEngine, this`caret, this`selectionEnd
      ensures Valid()
      ensures RanSelection(TextRange(lineStart, old(caret), lineEmpty, lineText), host, r)
    {
      var selection := TextRange(lineStart, caret, lineEmpty, lineText);
      r := RunSelection(selection, host);
    }
  }
}
