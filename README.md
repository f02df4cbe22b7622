# A verified model of the REPL control's core

The `Core.Repl` WPF user control (`Core/Repl.xaml.cs`) is an interactive
read-eval-print loop embedded in a rich-text flow document. The user types
code into the document, selects it (or puts the caret at the end of a line)
and runs it. The control then:

- echoes the selected code, colorized, right after the inline the selection
  ends in, followed by a line break;
- runs the code on the current script engine, unless it is a `%name`
  directive, which switches the current language instead;
- renders what the code gave (the engine's captured standard output when
  there is any, otherwise the value as the Ruby engine's `as_xaml` inspection
  hook shows it), then a line break and an empty run where the caret goes;
- when any of these steps throws, renders the exception's message in error
  style after the inline under the editor's selection end, undoing nothing.

This project models that core in Dafny and proves what it promises.

- `exceptions.dfy`, module `Exceptions`: `Option` for `null` and `Result`
  for "returns or throws". Each exception the control raises carries its
  message text.
- `scripting.dfy`, module `Scripting`: the two engines, the values they
  exchange with the control, and `Host`. A `Host` bundles the engines' calls,
  the colorizer and the file system as total functions; each operation takes
  the host for the duration of the call.
- `dotnet_text.dfy`, module `DotNetText`: `Char.IsWhiteSpace`, `TrimStart`,
  `TrimEnd` and `Trim`, with their characterising lemmas.
- `dispatcher.dfy`, module `Dispatcher`: `Execute` as a function. It either
  switches the language or runs the code verbatim.
- `flow_document.dfy`, module `FlowDocument`: the document as paragraphs of
  inline identities, `InlineCollection.InsertAfter`, and the splice
  (`SpliceAfter`) that every insertion comes to. The lemmas cover order,
  chaining and "nothing removed".
- `rendering.dfy`, module `Rendering`: `LoadInspector`'s viewer probe,
  `InsertInspectedResult` and `RenderOutput` as functions.
- `repl_control.dfy`, module `ReplControl`, has two parts.
  - The class `Repl` holds the session fields `_languageMap`,
    `_currentEngine`, `_rubyEngine` and `_viewers`, plus the editor state: the
    document, the inlines created so far, the caret and the selection's end.
    Its methods are the control's operations, each proved against the
    functions above.
  - The try block of `RunSelection` is specified as a value (`Attempted`).
    The lemmas show how its steps compose and what it leaves behind.

Inlines are named by their identity, allocated in creation order. So "the
runs just created" is a range of identities, and the order of a block in a
paragraph can be stated exactly.

## Model

| member | source | states |
|---|---|---|
| DotNetText.TrimEndFacts | Core/Repl.xaml.cs:186 | `TrimEnd` keeps a prefix of the output that is empty or ends in a non-white-space character, and what it drops is all white space |
| DotNetText.TrimStartFacts | Core/Repl.xaml.cs:115 | `TrimStart` keeps a suffix that is empty or starts with a non-white-space character, and drops only white space |
| DotNetText.TrimFacts | Core/Repl.xaml.cs:115 | what `Trim` leaves neither starts nor ends with white space |
| DotNetText.TrimPadded | Core/Repl.xaml.cs:115 | `Trim` of a text that neither starts nor ends with white space, padded by white space on both sides, is that text |
| Dispatcher.ParseDirective | Core/Repl.xaml.cs:113-115 | input is a directive exactly when it starts with `%`; the language it names is shorter than the input |
| Dispatcher.DirectiveTrimmed | Core/Repl.xaml.cs:115 | the language a directive names has no surrounding white space |
| Dispatcher.DirectiveName | Core/Repl.xaml.cs:113-115 | `%` followed by white space, a name and white space names exactly that name |
| Dispatcher.Dispatch | Core/Repl.xaml.cs:112-125 | the current language stays registered; it only changes by a directive naming it, which returns "Switched to " + name; a thrown exception leaves the language unchanged |
| FlowDocument.InlineUnder | Core/Repl.xaml.cs:127-132 | `GetInlineUnderPosition` succeeds exactly when the pointer's parent is an inline, which it returns; otherwise it throws the "not pointing to an Inline" exception |
| FlowDocument.FindParagraph | Core/Repl.xaml.cs:134-139 | the paragraph found holds the inline; there is none exactly when no paragraph holds it |
| FlowDocument.InsertBlockHolds | Core/Repl.xaml.cs:143 | after inserting a block after `p`, a paragraph holds exactly what it held plus the block |
| FlowDocument.InsertBlockIsSlice | Core/Repl.xaml.cs:143 | the block lands right after the first `p`, with the rest of the paragraph unchanged around it |
| FlowDocument.InsertBlockTwice | Core/Repl.xaml.cs:154-156 | two blocks inserted after the same `p`: the one inserted last comes first |
| FlowDocument.BackwardInsertionKeepsOrder | Core/Repl.xaml.cs:154-156 | inserting each run right after `p`, from the last run back to the first, leaves the runs in their own order after `p` |
| FlowDocument.ForwardInsertionReverses | Core/Repl.xaml.cs:154-156 | the same loop run from first to last would reverse the runs, which is why the loop counts down |
| FlowDocument.SpliceInParagraph | Core/Repl.xaml.cs:141-145 | inserting after an inline changes only the paragraph holding it, by inserting the block in that paragraph |
| FlowDocument.SpliceIsSlice | Core/Repl.xaml.cs:151-158 | after `InsertElements` the paragraph is prefix ++ [position] ++ runs ++ suffix, and every other paragraph is unchanged |
| FlowDocument.SpliceKeeps | Core/Repl.xaml.cs:141-145 | an insertion removes nothing: afterwards an inline is in the document exactly when it was before or is one of the inserted block (both directions) |
| FlowDocument.SpliceChain | Core/Repl.xaml.cs:232-236 | inserting after the last inline of a block just inserted is one insertion of both blocks, in order |
| FlowDocument.ChainRanges | Core/Repl.xaml.cs:232-236 | successive blocks of newly created inlines, each inserted after the previous block's last inline, form one block in creation order |
| Rendering.ViewerPaths | Core/Repl.xaml.cs:100-101 | one viewer path per engine extension, in the extensions' order, each `c:\dev\repl\Viewers\<type>.viewer<ext>` |
| Rendering.Existing | Core/Repl.xaml.cs:102 | the paths kept are exactly the given paths that exist |
| Rendering.RequireViewers | Core/Repl.xaml.cs:100-105 | when the probe succeeds, it required exactly the viewer files that exist, in order, and none of them failed to load |
| Rendering.FirstFailure | Core/Repl.xaml.cs:100-105 | when the probe fails, it fails with the exception of the first existing file that failed to load; every existing file before that one loaded |
| Rendering.RequireStep | Core/Repl.xaml.cs:100-105 | one iteration of the probe: a missing file is skipped, a file that fails to load ends the probe with its exception, a file that loads joins the files loaded |
| Rendering.LoadedViewersExist | Core/Repl.xaml.cs:93-108 | nothing is loaded for null or for a type already in `_viewers`; otherwise only existing viewer files are loaded |
| Rendering.CapturedOutputWins | Core/Repl.xaml.cs:184-188 | when the engine's captured output is not null, even if empty, it is what gets rendered, trimmed at the end; neither the value nor the inspection hook makes a difference |
| Rendering.NoOutputInspects | Core/Repl.xaml.cs:174-182 | without captured output the type's viewer files are loaded first, and an exception from one of them is what rendering throws. Once they have loaded, the value goes to the Ruby engine's `as_xaml`: a Ruby string result is colorized under the current language, any other result throws `NotImplementedError`, and an exception from `as_xaml` propagates |
| ReplControl.EchoOf | Core/Repl.xaml.cs:168-172 | the echo succeeds exactly when the selection ends in an inline that is in a paragraph and the colorized code is non-empty, and then it is the colorized selection text. Each failure is given: a selection end outside an inline throws "not pointing to an Inline" having created nothing; an inline in no paragraph throws "not have a Paragraph" after the colorized runs were created; empty colorized code throws the out-of-range exception |
| ReplControl.InsertedLands | Core/Repl.xaml.cs:151-158 | an insertion that returned an inline had runs and a position in a paragraph, put the runs after the position, and returned the last run, which is now in a paragraph |
| ReplControl.EchoComposes | Core/Repl.xaml.cs:232-233 | `ColorizeSelection` followed by `InsertLineBreak` is the echo: the colorized runs and then a line break, after the inline the selection ends in, or the first exception with nothing inserted |
| ReplControl.EmptyLineSteps | Core/Repl.xaml.cs:235-236 | a line break after an inline, then a new run after the line break, form one two-inline block after that inline |
| ReplControl.RespondComposes | Core/Repl.xaml.cs:234-239 | rendering the result, then a line break and an empty run after it, is the response: the rendered runs, the line break and the empty run in that order, with the caret at the empty run |
| ReplControl.TryComposes | Core/Repl.xaml.cs:230-239 | the echo followed by running and responding is the try block's attempt: the same inlines in the same order, the same return value, and the language current afterwards |
| ReplControl.RunComposes | Core/Repl.xaml.cs:226-243 | the try block, followed when it throws by the catch block, is `RunSelection` |
| ReplControl.DirectiveAttempt | Core/Repl.xaml.cs:230-234 | once echoed, a `%name` directive for a registered language leaves that language current even if rendering then throws; one for an unknown language fails with "Unknown language requested: " + name after the echo, with the language unchanged |
| ReplControl.CodeAttempt | Core/Repl.xaml.cs:230-236 | ordinary code never changes the language. Once echoed, it runs verbatim on the current engine. An error it raises ends the attempt after the echo. The value it returns is what gets rendered: the attempt completes with those runs when there are some, and otherwise fails after the echo with the rendering's exception, or with the out-of-range exception for no runs |
| ReplControl.CompletedInOrder | Core/Repl.xaml.cs:230-239 | when every step runs, the inlines right after the selection's end are, in order: the echoed code, a line break, the rendered result, a line break and an empty run. The caret is at the empty run, which is returned |
| ReplControl.NothingRolledBack | Core/Repl.xaml.cs:240-242 | when a step throws, the inlines it created are kept and, once the echo went in, every inline it inserted is still in the document after the error message |
| ReplControl.Repl.constructor | Core/Repl.xaml.cs:26-33 | a new control registers "ruby" and "python", makes "ruby" current, keeps the Ruby engine for inspection, and has loaded no viewers |
| ReplControl.Repl.InitializeScriptEngines | Core/Repl.xaml.cs:84-91 | each engine is registered under its own name, the Ruby engine is kept for inspection, and "ruby" becomes current, so the current language is a key of the map |
| ReplControl.Repl.CurrentEngine | Core/Repl.xaml.cs:22-24 | the lookup cannot fail, since the current language is always registered, and the engine returned is the one whose name is current |
| ReplControl.Repl.Execute | Core/Repl.xaml.cs:112-125 | a directive for a known name switches to it and returns "Switched to " + name; one for an unknown name throws "Unknown language requested: " + name and leaves the state unchanged; other input runs verbatim on the current engine; the state stays valid |
| ReplControl.Repl.GetParagraph | Core/Repl.xaml.cs:134-139 | returns the paragraph holding the inline, or throws the "not have a Paragraph" exception when no paragraph holds it |
| ReplControl.Repl.InsertInline | Core/Repl.xaml.cs:141-145 | the element goes right after the position in its paragraph and is returned, with nothing else changed; or the `GetParagraph` exception with the document unchanged |
| ReplControl.Repl.InsertLineBreak | Core/Repl.xaml.cs:147-149 | one new line break, inserted right after the position |
| ReplControl.Repl.InsertElements | Core/Repl.xaml.cs:151-158 | the runs go right after the position, in their order, and the last run is returned. The `GetParagraph` exception, or the out-of-range exception for an empty list, leaves the document unchanged |
| ReplControl.Repl.InsertEachAfter | Core/Repl.xaml.cs:154-156 | the loop's document is the backward insertion of the runs into the paragraph |
| ReplControl.Repl.InsertColorizedCode | Core/Repl.xaml.cs:160-162 | new runs for the code, colorized under the current engine, are inserted after the position |
| ReplControl.Repl.RenderError | Core/Repl.xaml.cs:164-166 | new runs for the error message in error style are inserted after the position |
| ReplControl.Repl.LoadInspector | Core/Repl.xaml.cs:93-108 | the loop requires exactly what the probe function says: the existing viewer files for a new non-null type in extension order, stopping at the first that fails to load, and nothing for null or a known type |
| ReplControl.Repl.InsertInspectedResult | Core/Repl.xaml.cs:174-182 | the runs inserted, or the exception thrown, are those of the inspection of the value |
| ReplControl.Repl.RenderOutput | Core/Repl.xaml.cs:184-188 | the runs inserted, or the exception thrown, are those the rendering function gives for the value under the current engine |
| ReplControl.Repl.ColorizeSelection | Core/Repl.xaml.cs:168-172 | the selection's text, colorized, is inserted after the inline its end is in; a selection that does not end in an inline throws with nothing changed |
| ReplControl.Repl.Echo | Core/Repl.xaml.cs:231-233 | the document and inlines afterwards, and the line break returned, are those the echo function gives |
| ReplControl.Repl.InsertEmptyLine | Core/Repl.xaml.cs:235-238 | a line break and then an empty run, inserted as one block after the position; the caret and the selection's end move to the empty run, which is returned |
| ReplControl.Repl.Respond | Core/Repl.xaml.cs:234-239 | the rendered runs, a line break and an empty run go after the position, with the caret and the selection's end at the empty run; or the exception with the caret unchanged |
| ReplControl.Repl.RunEchoed | Core/Repl.xaml.cs:234-239 | `Execute` then the response, with the language current afterwards being the one `Execute` left |
| ReplControl.Repl.TryRun | Core/Repl.xaml.cs:230-239 | the state afterwards is what the attempt says: the inlines created, the block after the selection's end, the return value or exception, the caret, and the language |
| ReplControl.Repl.Recover | Core/Repl.xaml.cs:240-242 | the exception's message in error style goes after the inline under the editor's selection end; when that pointer is not in an inline, the catch block itself throws |
| ReplControl.Repl.RunSelection | Core/Repl.xaml.cs:226-243 | an empty selection changes nothing and returns the inline under its start. Otherwise the try block runs, and when it throws, the catch block runs on what it left, undoing nothing; the engines and viewers are unchanged |
| ReplControl.Repl.RunCurrentLine | Core/Repl.xaml.cs:245-248 | `RunSelection` over the range from the start of the caret's line to the caret |

## Left out

- `InitializePlugins` (`Core/Repl.xaml.cs:58-82`): environment variables, directory creation and copying an embedded resource to disk. This is file-system I/O.
- `EnsureApplicationResources` and `LoadResources`: WPF application setup.
- `MainRepl_PreviewKeyDown` and the key extension methods: keyboard dispatch. The model starts at the operations the keys call.
- `SaveDocument`: serialising the document to a file.
- `InsertSmartLineBreak`, `ChangeRunUnderCursorToDefaultTextStyle`, `AddExternalObject`: editor conveniences outside the run protocol.
- `selection.Text = String.Empty` inside the try block of `RunSelection` (`Core/Repl.xaml.cs:237`) is not modelled. `ReplControl.Repl.RunSelection` (through `RanSelection`) and `ReplControl.CompletedInOrder` describe the document before that deletion. The deletion removes the selected text, which can remove whole inlines inside the selection (the line break of a two-line selection, say) and merge the paragraphs the selection spans. So the real document afterwards can differ from the model's in which inlines it holds, not only in their text.
- Caret and text-pointer geometry. A pointer is seen only through its parent inline. `run5.ElementStart` is the position just before the empty run, whose parent is the paragraph; the model assumes the caret set there ends up in the empty run. For `RunCurrentLine`, the start of the caret's line, the line's text and whether the range is empty are parameters.
- Setting `MainRepl.CaretPosition` is modelled as moving the selection's end to the caret too (the selection collapses).
- The engines, the colorizer and the file system are the `Host`'s functions. Their source is not part of this model.
  - The host is fixed for the duration of one call. In particular, the captured output `RenderOutput` reads is a function of the engine given with the host, not something `Execute` just produced.
  - The colorizer, `ReadStandardOutput`, `GetFileExtensions` and `File.Exists` are assumed not to throw.
- `RubyEngine.Name` and `PythonEngine.Name` are taken to be "ruby" and "python"; `InitializeScriptEngines` makes "ruby" current.
- `DotNetText.IsWhiteSpace` is the white-space set of .NET Framework 4.6 and later (Unicode 6.3 and later), which `Trim` and `TrimEnd` use. On .NET 3.5, `Trim` also removes U+200B and U+FEFF but not U+180E, U+202F or U+205F. On .NET 4.0 to 4.5, U+180E counts as white space. Those sets are not modelled.
- `code.StartsWith("%")` is culture-sensitive in .NET. The model checks the first character, and `IndexOf('%')` is then 0.
- `_viewers` is keyed by `Type`; the model keys it by the type's full name. No method of the control adds to it, so types are probed again on every display, and no "probed at most once" property is claimed.
- `ReplControl.Repl.InsertElements` and `ReplControl.Repl.InsertInline`: they require the inlines inserted to be distinct and in no paragraph, which holds for every caller's freshly created inlines. WPF's behaviour when inserting an inline that already has a parent is not modelled.

Behaviour the model follows, as the code has it:

- Captured output is rendered whenever it is not null, even when it is empty or only white space.
- The catch block catches every exception, including the control's own "not pointing to an Inline" and "not have a Paragraph" checks, and renders its message.
- `_viewers` is never written, so there is no memoisation.
- The error message is anchored at the editor's selection end (`MainRepl.Selection.End`), not at the end of the range being run.
