/**
 * The generation session: render a generator, walk its frames, and append
 * the top-level items to the file-system sink in generation order.
 */
module Generation {
  import opened GenzorFileSystem
  import opened RenderTree
  import opened RenderTreeProperties

  /** How an invocation ends: normally, or with the error that unwound it. */
  datatype Outcome = Success | Failure(error: Error)

  class GenzorRenderer {
    /** The sink every invocation appends to. */
    const fileSystem: FileSystem

    constructor (fileSystem: FileSystem)
      ensures this.fileSystem == fileSystem
    {
      this.fileSystem := fileSystem;
    }

    /** Invokes the generator whose rendering is `generator`. On success the
        top-level items are appended to the root, in order, after what was
        there; on failure the error reaches the caller and the root is left
        as it was. */
    method InvokeGenerator(generator: Frame) returns (r: Outcome)
      modifies fileSystem
      ensures Render(generator).Ok? ==>
                r == Success &&
                fileSystem.Root == old(fileSystem.Root) + Render(generator).value.items
      ensures Render(generator).Err? ==>
                r == Failure(Render(generator).error) &&
                fileSystem.Root == old(fileSystem.Root)
    {
      var walked := Render(generator);
      if walked.Err? {
        return Failure(walked.error);
      }
      var items := walked.value.items;
      var i := 0;
      while i < |items|
        invariant 0 <= i <= |items|
        invariant fileSystem.Root == old(fileSystem.Root) + items[..i]
      {
        fileSystem.AddItem(items[i]);
        i := i + 1;
      }
      assert items[..i] == items;
      r := Success;
    }
  }

  /** Runs `generator` against a fresh, empty file system and returns the
      outcome and the resulting root. */
  method InvokeOnEmpty(generator: Frame) returns (r: Outcome, root: seq<Item>)
    ensures Render(generator).Ok? ==> r == Success && root == Render(generator).value.items
    ensures Render(generator).Err? ==> r == Failure(Render(generator).error) && root == []
  {
    var fs := new FileSystem();
    var renderer := new GenzorRenderer(fs);
    r := renderer.InvokeGenerator(generator);
    root := fs.Root;
  }

  /** A generator that throws, possibly beneath wrappers: the same error
      kind reaches the caller and nothing is added. */
  method InvokeThrowing(kind: string, depth: nat) returns (r: Outcome, root: seq<Item>)
    ensures r == Failure(UserNodeFailure(kind)) && root == []
  {
    WrappedFailure(depth, Fail(kind));
    r, root := InvokeOnEmpty(Wrapped(depth, Fail(kind)));
  }

  /** A file generator given a name and a text content yields exactly that
      file. */
  method InvokeFileGenerator(name: string, content: string) returns (r: Outcome, root: seq<Item>)
    ensures r == Success && root == [File(name, content)]
  {
    ReferenceSingle(Text(content));
    FileOfText(name, [Text(content)], TopLevel);
    ReferenceSingle(FileComponent(name, [Text(content)]));
    SimpleNoFailure([FileComponent(name, [Text(content)])]);
    r, root := InvokeOnEmpty(FileComponent(name, [Text(content)]));
  }

  /** A file generator whose content holds a directory fails with an error
      naming that directory, and nothing is added. */
  method InvokeFileWithDirectory(fileName: string, directoryName: string)
    returns (r: Outcome, root: seq<Item>)
    ensures r == Failure(InvalidGeneratorComponentContent(directoryName)) && root == []
  {
    DirectoryAfterTextInFile(fileName, [], directoryName, [], [], TopLevel);
    assert [] + [DirectoryComponent(directoryName, [])] + [] == [DirectoryComponent(directoryName, [])];
    assert [DirectoryComponent(directoryName, [])][1..] == [];
    assert [FileComponent(fileName, [DirectoryComponent(directoryName, [])])][1..] == [];
    assert FrameFailure(DirectoryComponent(directoryName, [])) == FirstFailure([]) == None;
    assert FirstFailure([DirectoryComponent(directoryName, [])]) == None;
    assert FirstFailure([FileComponent(fileName, [DirectoryComponent(directoryName, [])])]) == None;
    r, root := InvokeOnEmpty(FileComponent(fileName, [DirectoryComponent(directoryName, [])]));
  }

  /** Text rendered by a child component, and by a child nested in it, is
      part of the file's content, in declaration order. */
  method InvokeFileWithNestedChildren(name: string, child1: string, child2: string)
    returns (r: Outcome, root: seq<Item>)
    ensures r == Success && root == [File(name, child1 + child2)]
  {
    var inner := [Text(child1), Wrapper([Text(child2)])];
    var body := [Wrapper(inner)];
    ReferenceSingle(Text(child2));
    ReferenceSingle(Wrapper([Text(child2)]));
    ReferenceSingle(Text(child1));
    FlattenAppend([Text(child1)], [Wrapper([Text(child2)])]);
    PlainTextAppend([Text(child1)], [Wrapper([Text(child2)])]);
    assert [Text(child1)] + [Wrapper([Text(child2)])] == inner;
    ReferenceSingle(Wrapper(inner));
    FileOfText(name, body, TopLevel);
    ReferenceSingle(FileComponent(name, body));
    SimpleNoFailure([FileComponent(name, body)]);
    r, root := InvokeOnEmpty(FileComponent(name, body));
  }

  /** A file beneath several levels of wrappers is still the single
      top-level item, under its own name. */
  method InvokeWrappedFile(depth: nat, name: string, content: string)
    returns (r: Outcome, root: seq<Item>)
    ensures r == Success && root == [File(name, content)]
  {
    WrappedTransparent(depth, FileComponent(name, [Text(content)]), TopLevel);
    ReferenceSingle(Text(content));
    FileOfText(name, [Text(content)], TopLevel);
    ReferenceSingle(FileComponent(name, [Text(content)]));
    SimpleNoFailure([FileComponent(name, [Text(content)])]);
    WrappedFailure(depth, FileComponent(name, [Text(content)]));
    r, root := InvokeOnEmpty(Wrapped(depth, FileComponent(name, [Text(content)])));
  }

  /** Two sibling files appear in the root in generation order. */
  method InvokeTwoFiles(first: string, second: string) returns (r: Outcome, root: seq<Item>)
    ensures r == Success && root == [File(first, ""), File(second, "")]
  {
    var files := [FileComponent(first, []), FileComponent(second, [])];
    ReferenceSingle(FileComponent(first, []));
    ReferenceSingle(FileComponent(second, []));
    SimpleAppend([FileComponent(first, [])], [FileComponent(second, [])]);
    assert [FileComponent(first, [])] + [FileComponent(second, [])] == files;
    SimpleTreeWalk(files, TopLevel);
    WalkSingle(Wrapper(files), TopLevel);
    ReferenceSingle(Wrapper(files));
    SimpleNoFailure([Wrapper(files)]);
    r, root := InvokeOnEmpty(Wrapper(files));
  }

  /** Two sibling directories appear in the root in generation order. */
  method InvokeTwoDirectories(first: string, second: string) returns (r: Outcome, root: seq<Item>)
    ensures r == Success && root == [Directory(first, []), Directory(second, [])]
  {
    var dirs := [DirectoryComponent(first, []), DirectoryComponent(second, [])];
    ReferenceSingle(DirectoryComponent(first, []));
    ReferenceSingle(DirectoryComponent(second, []));
    SimpleAppend([DirectoryComponent(first, [])], [DirectoryComponent(second, [])]);
    assert [DirectoryComponent(first, [])] + [DirectoryComponent(second, [])] == dirs;
    SimpleTreeWalk(dirs, TopLevel);
    WalkSingle(Wrapper(dirs), TopLevel);
    ReferenceSingle(Wrapper(dirs));
    SimpleNoFailure([Wrapper(dirs)]);
    r, root := InvokeOnEmpty(Wrapper(dirs));
  }

  /** A directory with a file child yields one root item, the directory,
      whose single child is the file. */
  method InvokeDirectoryWithFile(directoryName: string, fileName: string)
    returns (r: Outcome, root: seq<Item>)
    ensures r == Success && root == [Directory(directoryName, [File(fileName, "")])]
  {
    var tree := [DirectoryComponent(directoryName, [FileComponent(fileName, [])])];
    ReferenceSingle(FileComponent(fileName, []));
    ReferenceSingle(tree[0]);
    SimpleTreeWalk(tree, TopLevel);
    SimpleNoFailure(tree);
    r, root := InvokeOnEmpty(tree[0]);
  }

  /** The hello-world generator: one file component named HelloWorld.txt
      with no content. */
  function HelloWorldGenerator(): Frame
  {
    FileComponent("HelloWorld.txt", [])
  }

  /** Invoking the hello-world generator leaves exactly one item in the
      root: a file named HelloWorld.txt. */
  method InvokeHelloWorld() returns (r: Outcome, root: seq<Item>)
    ensures r == Success && |root| == 1
    ensures root[0].File? && root[0].name == "HelloWorld.txt"
  {
    FileOfText("HelloWorld.txt", [], TopLevel);
    ReferenceSingle(HelloWorldGenerator());
    SimpleNoFailure([HelloWorldGenerator()]);
    r, root := InvokeOnEmpty(HelloWorldGenerator());
  }
}
