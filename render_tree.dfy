/**
 * The render-tree walker: turns the rendered frames of a generator into
 * file-system items. A file component becomes a File whose content is the
 * text rendered beneath it; a directory component becomes a Directory whose
 * children are the items rendered beneath it; every other component is a
 * transparent wrapper whose text and items pass through to the enclosing
 * context.
 */
module RenderTree {
  import opened GenzorFileSystem

  /** One rendered frame: literal text, or a component with its own rendered
      child frames. `Fail` is a user component whose rendering throws an
      exception of the given kind. */
  datatype Frame =
    | Text(text: string)
    | FileComponent(name: string, children: seq<Frame>)
    | DirectoryComponent(name: string, children: seq<Frame>)
    | Wrapper(children: seq<Frame>)
    | Fail(kind: string)

  /** The kind of component the walker is currently beneath. */
  datatype Context = TopLevel | InFile | InDirectory

  datatype Error =
    | UserNodeFailure(kind: string)
      /** a directory component beneath a file component, naming the directory */
    | InvalidGeneratorComponentContent(directoryName: string)

  datatype Result<T> = Ok(value: T) | Err(error: Error)

  datatype Option<T> = None | Some(value: T)

  /** What walking a frame sequence produces: the items, in order, and the
      text that is not claimed by a file of its own. */
  datatype Output = Output(items: seq<Item>, text: string)

  /** No directory among `items`: what a file component may hold. */
  predicate OnlyFiles(items: seq<Item>)
  {
    forall i :: 0 <= i < |items| ==> items[i].File?
  }

  /** Joins the outcomes of two consecutive frame sequences; the first error
      in declaration order wins. */
  function Join(a: Result<Output>, b: Result<Output>): Result<Output>
  {
    if a.Err? then a
    else if b.Err? then b
    else Ok(Output(a.value.items + b.value.items, a.value.text + b.value.text))
  }

  /** Walks one frame beneath a component of kind `ctx`.
      A file component nested in a file component is emitted as an item of
      its own right after the outer file and is not inlined into its text;
      text directly inside a directory is dropped. */
  function WalkFrame(f: Frame, ctx: Context): (r: Result<Output>)
    ensures ctx == InFile && r.Ok? ==> OnlyFiles(r.value.items)
    decreases f
  {
    match f
    case Text(t) => Ok(Output([], t))
    case FileComponent(n, ch) =>
      (match Walk(ch, InFile)
       case Err(e) => Err(e)
       case Ok(sub) => Ok(Output([File(n, sub.text)] + sub.items, "")))
    case DirectoryComponent(n, ch) =>
      if ctx == InFile then Err(InvalidGeneratorComponentContent(n))
      else
        (match Walk(ch, InDirectory)
         case Err(e) => Err(e)
         case Ok(sub) => Ok(Output([Directory(n, sub.items)], "")))
    case Wrapper(ch) => Walk(ch, ctx)
    case Fail(k) => Err(UserNodeFailure(k))
  }

  /** Walks `frames` in declaration order beneath a component of kind `ctx`. */
  function Walk(frames: seq<Frame>, ctx: Context): (r: Result<Output>)
    ensures ctx == InFile && r.Ok? ==> OnlyFiles(r.value.items)
    decreases frames
  {
    if frames == [] then Ok(Output([], ""))
    else Join(WalkFrame(frames[0], ctx), Walk(frames[1..], ctx))
  }

  /** Rendering `f` throws an exception of kind `k` somewhere. */
  predicate ThrowsFrame(f: Frame, k: string)
    decreases f
  {
    match f
    case Text(_) => false
    case Fail(k') => k' == k
    case FileComponent(_, ch) => Throws(ch, k)
    case DirectoryComponent(_, ch) => Throws(ch, k)
    case Wrapper(ch) => Throws(ch, k)
  }

  /** Rendering some frame of `frames` throws an exception of kind `k`. */
  predicate Throws(frames: seq<Frame>, k: string)
    decreases frames
  {
    frames != [] && (ThrowsFrame(frames[0], k) || Throws(frames[1..], k))
  }

  /** The kind of the first exception, in depth-first declaration order,
      thrown while rendering `f` and everything beneath it. */
  function FrameFailure(f: Frame): (r: Option<string>)
    ensures r.Some? ==> ThrowsFrame(f, r.value)
    ensures r.None? ==> forall k :: !ThrowsFrame(f, k)
    decreases f
  {
    match f
    case Text(_) => None
    case Fail(k) => Some(k)
    case FileComponent(_, ch) => FirstFailure(ch)
    case DirectoryComponent(_, ch) => FirstFailure(ch)
    case Wrapper(ch) => FirstFailure(ch)
  }

  /** The kind of the first exception, in depth-first declaration order,
      thrown while rendering `frames`; none exactly when nothing throws. */
  function FirstFailure(frames: seq<Frame>): (r: Option<string>)
    ensures r.Some? ==> Throws(frames, r.value)
    ensures r.None? ==> forall k :: !Throws(frames, k)
    decreases frames
  {
    if frames == [] then None
    else if FrameFailure(frames[0]).Some? then FrameFailure(frames[0])
    else FirstFailure(frames[1..])
  }

  /** Renders one generator and walks the result outside any component.
      The whole tree is rendered before it is walked, so an exception
      thrown anywhere in it reaches the caller ahead of any misplaced
      directory; when nothing throws, the outcome is the walk's. */
  function Render(root: Frame): (r: Result<Output>)
    ensures (exists k :: Throws([root], k)) ==>
              r.Err? && r.error.UserNodeFailure? && Throws([root], r.error.kind)
    ensures (forall k :: !Throws([root], k)) ==> r == Walk([root], TopLevel)
  {
    match FirstFailure([root])
    case Some(k) => Err(UserNodeFailure(k))
    case None => Walk([root], TopLevel)
  }
}
