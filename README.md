# Genzor generation engine: a Dafny model

Genzor generates files from a tree of components. A user builds a tree of
generator components. The engine renders the tree, classifies each rendered
component and hands the resulting file-system items to an `IFileSystem` sink:

- A file component (`IFileComponent`, which has a `Name`) becomes a `File`.
  Its content is all text rendered beneath it, in order.
- A directory component becomes a `Directory` holding the items rendered
  beneath it.
- Any other component is a transparent wrapper. Its text and its items pass
  through to the enclosing component.
- A directory component beneath a file component is an error
  (`InvalidGeneratorComponentContent`) that names the misplaced directory.
- An exception thrown by a user component reaches the caller unchanged.
  The whole tree is rendered before it is walked, so such an exception wins
  over any misplaced directory, wherever the two sit in the tree.
- The top-level items are appended to the sink's `Root` in generation order.

The renderer's implementation is not modelled. The walker follows what
tests/genzor.tests/GenzorRendererTest.cs and tests/genzor.tests/GeneratorTest.cs
assert. Beside the engine sits the sample's
`Document.OutputFileName`: the file name with spaces turned into underscores,
followed by `.html`.

Files:

- `file_system.dfy` (module `GenzorFileSystem`): the `Item` datatype
  (`File`, `Directory`) and the sink class `FileSystem`. Its `Root` is a
  `seq<Item>` and `AddItem` appends to it.
- `render_tree.dfy` (module `RenderTree`): rendered frames (`Frame`), the
  enclosing-component context, errors, and the walker `WalkFrame`/`Walk`.
  The walker returns a `Result` of the items and the loose text. `Throws`
  says which exception kinds a tree's components throw. `Render` first
  looks for the first exception thrown while rendering (`FirstFailure`),
  and walks only when there is none.
- `render_tree_properties.dfy` (module `RenderTreeProperties`): reference
  definitions (`Flatten`, `PlainText`, `Raises`, `Simple`,
  `Expected`, `Wrapped`) and the lemmas that connect `Walk`, `FirstFailure`
  and `Render` to them.
- `generation.dfy` (module `Generation`): the session class
  `GenzorRenderer`. Its `InvokeGenerator` walks a generator's rendering and
  then calls `AddItem` once per top-level item, in order. The module also
  has one method per test scenario. Each runs a generator against a fresh
  file system and states the resulting `Root`.
- `document.dfy` (module `Documents`): `Document` and `OutputFileName`.

Choices the tests leave open:

- Text placed directly inside a directory component is dropped, because a
  directory has no content.
- A file component nested in a file component is emitted as an item of its
  own, right after the outer file. Its text is not inlined into the outer
  file.
- Text rendered outside every file and directory component (directly in
  the generator or in wrappers at the top) is dropped: only items reach the
  file system.
- When a tree has both a throwing component and a misplaced directory, the
  exception is reported, because rendering completes before the walk.
- When several components throw, or several directories are misplaced, the
  first one in depth-first declaration order is reported.

No property is claimed about text in a directory or about top-level text.
The nested-file choice is fixed by `WalkTextIsFlatten`: a file's content is
only the text reachable through wrappers, so the text of a nested file
component does not appear in it.

On failure the walk completes before anything is appended. So in this model
a failing invocation leaves `Root` exactly as it was.

The `InvalidGeneratorComponentContent` error carries only the misplaced
directory's name, because that is all the asserted message contains
(tests/genzor.tests/GenzorRendererTest.cs:77).

## Model

| member | source | states |
|---|---|---|
| `GenzorFileSystem.FileSystem.constructor` | src/genzor/FileSystem/IFileSystem.cs:7-10 | a new file system's root holds zero items, a valid state |
| `GenzorFileSystem.FileSystem.AddItem` | src/genzor/FileSystem/IFileSystem.cs:12-16 | the root becomes the old root plus the item at the end; it grows by exactly one; every earlier item stays in place and in order |
| `GenzorFileSystem.AddTwiceKeepsBoth` | src/genzor/FileSystem/IFileSystem.cs:12-16 | adding the same item twice leaves both copies: no deduplication |
| `RenderTree.WalkFrame` | tests/genzor.tests/GenzorRendererTest.cs:67-78 | a component walked beneath a file, if it succeeds, yields only files, never a directory |
| `RenderTree.Walk` | tests/genzor.tests/GenzorRendererTest.cs:67-78 | a frame sequence walked beneath a file, if it succeeds, yields only files, never a directory |
| `RenderTreeProperties.WalkAppend` | tests/genzor.tests/GenzorRendererTest.cs:122-171 | walking two consecutive frame sequences is walking each in turn: the first error wins, otherwise items and text are concatenated in order |
| `RenderTreeProperties.WrapperTransparent` | tests/genzor.tests/GenzorRendererTest.cs:109-120 | a non-file, non-directory component can be spliced away: its frames behave as if declared in its place, anywhere in a sequence and in any context |
| `RenderTreeProperties.WrappedTransparent` | tests/genzor.tests/GenzorRendererTest.cs:109-120 | any number of wrapper levels around a component leave the walk's outcome unchanged |
| `RenderTreeProperties.WalkErrorOrigin` | tests/genzor.tests/GenzorRendererTest.cs:67-78 | every reported error is raised by a frame the walker reaches: a throwing user component with that kind, or a directory beneath a file with that name |
| `RenderTreeProperties.RaisedErrorFails` | tests/genzor.tests/GenzorRendererTest.cs:67-78 | whenever a reached frame throws or a directory sits beneath a file, the walk fails |
| `RenderTreeProperties.WalkFailsIffRaises` | tests/genzor.tests/GenzorRendererTest.cs:22-78 | the walk fails if and only if some reached frame raises an error |
| `RenderTreeProperties.SoleErrorReachesCaller` | tests/genzor.tests/GenzorRendererTest.cs:67-78 | when the only error a tree can raise is e, the walk ends with exactly e |
| `RenderTree.FrameFailure` | tests/genzor.tests/GenzorRendererTest.cs:22-31 | rendering one component reports an exception exactly when something in it throws, and the kind reported is one thrown inside it |
| `RenderTree.FirstFailure` | tests/genzor.tests/GenzorRendererTest.cs:22-31 | rendering a frame sequence reports an exception exactly when some component in it throws, and the kind reported is one thrown in it |
| `RenderTree.Render` | tests/genzor.tests/GeneratorTest.cs:52-63 | a throwing component anywhere in a generator, even beneath a misplaced directory, makes the invocation fail with a user failure of a kind thrown in the tree; when nothing throws, the outcome is the walk's |
| `RenderTreeProperties.RaisesUserImpliesThrows` | tests/genzor.tests/GenzorRendererTest.cs:22-31 | a user failure the walker can reach is an exception some component of the tree throws |
| `RenderTreeProperties.RenderDirectoryUnderFile` | tests/genzor.tests/GenzorRendererTest.cs:67-78 | when no component throws and a directory sits beneath a file, the invocation fails with `InvalidGeneratorComponentContent` for a misplaced directory of the tree |
| `RenderTreeProperties.WrappedFailure` | tests/genzor.tests/GenzorRendererTest.cs:22-31 | wrapping a component in any number of wrappers does not change the exception its rendering reports |
| `RenderTreeProperties.WalkTextIsFlatten` | tests/genzor.tests/GenzorRendererTest.cs:93-107 | a successful walk's text is the literal text of the frames, through wrappers, concatenated in declaration order |
| `RenderTreeProperties.PlainTextWalk` | tests/genzor.tests/GenzorRendererTest.cs:80-107 | text and wrapped text never fail and produce no items, only their concatenated text |
| `RenderTreeProperties.SimpleTreeWalk` | tests/genzor.tests/GenzorRendererTest.cs:122-187 | outside a file, a tree of file and directory components yields exactly the items it stands for, in declaration order, with directories holding their own items |
| `RenderTreeProperties.SiblingOrder` | tests/genzor.tests/GenzorRendererTest.cs:122-171 | sibling file and directory components yield one item each, in their declared order, with their own names and kinds: nothing reordered or dropped |
| `RenderTreeProperties.FileOfText` | tests/genzor.tests/GenzorRendererTest.cs:33-65 | a file component holding only text yields exactly one file with that name and the concatenated text as content |
| `RenderTreeProperties.DirectoryUnderFileFails` | tests/genzor.tests/GenzorRendererTest.cs:67-78 | a directory anywhere beneath a file, also through wrappers, makes the walk fail; with no throwing component, the error names a misplaced directory |
| `RenderTreeProperties.DirectoryAfterTextInFile` | tests/genzor.tests/GenzorRendererTest.cs:67-78 | a directory declared in a file after plain text fails with `InvalidGeneratorComponentContent` naming that directory |
| `Generation.GenzorRenderer.InvokeGenerator` | tests/genzor.tests/GenzorRendererTest.cs:122-139 | on success the top-level items are appended to the root in generation order after what was there; on failure the render's error (a thrown exception, else the walker's) is returned and the root is unchanged |
| `Generation.InvokeOnEmpty` | tests/genzor.tests/GeneratorTest.cs:17-28 | against a fresh file system, the resulting root is exactly the generated items, or empty on failure |
| `Generation.InvokeThrowing` | tests/genzor.tests/GenzorRendererTest.cs:22-31 | a generator that throws, even beneath wrappers, makes the invocation fail with the same error kind, and nothing is added |
| `Generation.InvokeFileGenerator` | tests/genzor.tests/GenzorRendererTest.cs:48-65 | for any name n and content c, the root holds exactly one file, named n with content c |
| `Generation.InvokeFileWithDirectory` | tests/genzor.tests/GenzorRendererTest.cs:67-78 | a file holding a directory fails with `InvalidGeneratorComponentContent` naming that directory, and the root stays empty |
| `Generation.InvokeFileWithNestedChildren` | tests/genzor.tests/GenzorRendererTest.cs:93-107 | the file's content is child 1's text followed by the nested child 2's text |
| `Generation.InvokeWrappedFile` | tests/genzor.tests/GenzorRendererTest.cs:109-120 | a file beneath any number of wrappers is the single root item, under its own name |
| `Generation.InvokeTwoFiles` | tests/genzor.tests/GenzorRendererTest.cs:122-139 | two sibling files are the root, in generation order |
| `Generation.InvokeTwoDirectories` | tests/genzor.tests/GenzorRendererTest.cs:154-171 | two sibling directories are the root, in generation order |
| `Generation.InvokeDirectoryWithFile` | tests/genzor.tests/GenzorRendererTest.cs:173-187 | a directory with a file child is the single root item, and the file is its single child, not a root item |
| `Generation.InvokeHelloWorld` | tests/genzor.tests/GeneratorTest.cs:30-50 | the hello-world generator leaves exactly one root item, a file named `HelloWorld.txt` |
| `Documents.ReplaceSpaces` | samples/GenzorStandAloneConsoleApp/Document.cs:11 | same length; each space becomes an underscore, every other character stays |
| `Documents.OutputFileName` | samples/GenzorStandAloneConsoleApp/Document.cs:11 | five characters longer than the name, ends with `.html`, holds no space, and agrees with the name character by character, with spaces as underscores |
| `Documents.NoSpacesUnchanged` | samples/GenzorStandAloneConsoleApp/Document.cs:11 | a name without spaces is not changed by the replacement |
| `Documents.OutputFileNameWithoutSpaces` | samples/GenzorStandAloneConsoleApp/Document.cs:11 | without spaces in the name, the output name is the name followed by `.html` |
| `Documents.ReplaceSpacesIdempotent` | samples/GenzorStandAloneConsoleApp/Document.cs:11 | replacing spaces twice is replacing them once |
| `Documents.DefaultOutputFileName` | samples/GenzorStandAloneConsoleApp/Document.cs:11-13 | a document with default (empty) fields is written to `.html` |

## Left out

- The rendering substrate (component instantiation, frame diffing, the
  `IComponent` contract). Its output is taken as given, as the `Frame` tree.
  A user component that throws while rendering is the `Fail` frame.
- Asynchrony (`Task`, awaiting). Invocation is a synchronous method that
  returns an `Outcome`.
- Parameter views built from property selectors or name/value pairs. They
  rely on expression trees and reflection. A generator's parameters appear
  directly as the fields of its rendered frames (the name and content of a
  file component).
- The test generators (`StaticFileGenerator`, `TwoFileGenerator`, ...) are
  not modelled. Each scenario method builds the frame tree its test name
  describes, over universally quantified names and texts.
- The `Generator` facade used by tests/genzor.tests/GeneratorTest.cs is not
  modelled separately. The same `GenzorRenderer` session stands for it.
- Generation.GenzorRenderer.InvokeGenerator: the model walks the whole tree
  before appending anything, so it does not capture an implementation that
  appends items while walking and leaves the items appended before a
  failure in place; its failure case promises an unchanged `Root`, which
  such an implementation would not give.
- The concrete disk-backed and fake file systems, the dependency-injection
  and logging setup, and all of the stand-alone program (disk reads,
  console logging, host bootstrap).
- That `Root` is read-only to callers: Dafny has no read-only view of a
  field, so `Root` is a plain field. `AddItem` is the only method that
  changes it.
- The disabled rule that a directory may hold only file and directory
  components is not enforced. It is commented out in the tests.
- File-name validation, which is only a TODO in the tests.
- The parameter type-mismatch error, because parameter views are left out
  (see above).
- The exact exception message text. Errors are a tagged variant that
  carries the error kind or the misplaced directory's name.
