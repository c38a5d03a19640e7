/**
 * Reference definitions for what the walker produces, and the lemmas that
 * tie `RenderTree.Walk` to them.
 */
module RenderTreeProperties {
  import opened GenzorFileSystem
  import opened RenderTree

  /** The text a file component collects from one frame: literal text,
      also through transparent wrappers, but never the text of a nested file
      or directory component. */
  function FlattenFrame(f: Frame): string
    decreases f
  {
    match f
    case Text(t) => t
    case Wrapper(ch) => Flatten(ch)
    case _ => ""
  }

  /** The text a file component collects from `frames`, in order. */
  function Flatten(frames: seq<Frame>): string
    decreases frames
  {
    if frames == [] then "" else FlattenFrame(frames[0]) + Flatten(frames[1..])
  }

  /** `f` is text, possibly inside transparent wrappers. */
  predicate PlainTextFrame(f: Frame)
    decreases f
  {
    match f
    case Text(_) => true
    case Wrapper(ch) => PlainText(ch)
    case _ => false
  }

  /** `frames` holds only text, possibly inside transparent wrappers. */
  predicate PlainText(frames: seq<Frame>)
    decreases frames
  {
    frames == [] || (PlainTextFrame(frames[0]) && PlainText(frames[1..]))
  }

  /** The walker, beneath a component of kind `ctx`, reaches in `f` a frame
      that raises `e`: a failing user component, or a directory component
      placed beneath a file component. */
  predicate RaisesFrame(f: Frame, ctx: Context, e: Error)
    decreases f
  {
    match f
    case Text(_) => false
    case Fail(k) => e == UserNodeFailure(k)
    case FileComponent(_, ch) => Raises(ch, InFile, e)
    case DirectoryComponent(n, ch) =>
      if ctx == InFile then e == InvalidGeneratorComponentContent(n)
      else Raises(ch, InDirectory, e)
    case Wrapper(ch) => Raises(ch, ctx, e)
  }

  /** Some frame of `frames` raises `e` beneath a component of kind `ctx`. */
  predicate Raises(frames: seq<Frame>, ctx: Context, e: Error)
    decreases frames
  {
    frames != [] && (RaisesFrame(frames[0], ctx, e) || Raises(frames[1..], ctx, e))
  }

  /** `f` is a file component holding only text, a directory component
      holding a simple tree, or a wrapper around a simple tree. */
  predicate SimpleFrame(f: Frame)
    decreases f
  {
    match f
    case FileComponent(_, ch) => PlainText(ch)
    case DirectoryComponent(_, ch) => Simple(ch)
    case Wrapper(ch) => Simple(ch)
    case _ => false
  }

  /** A tree of file and directory components (possibly inside wrappers)
      whose files hold only text and whose directories hold only such trees. */
  predicate Simple(frames: seq<Frame>)
    decreases frames
  {
    frames == [] || (SimpleFrame(frames[0]) && Simple(frames[1..]))
  }

  /** The items a simple frame stands for. */
  function ExpectedFrame(f: Frame): seq<Item>
    requires SimpleFrame(f)
    decreases f
  {
    match f
    case FileComponent(n, ch) => [File(n, Flatten(ch))]
    case DirectoryComponent(n, ch) => [Directory(n, Expected(ch))]
    case Wrapper(ch) => Expected(ch)
  }

  /** The items a simple tree stands for, declared order preserved. */
  function Expected(frames: seq<Frame>): seq<Item>
    requires Simple(frames)
    decreases frames
  {
    if frames == [] then [] else ExpectedFrame(frames[0]) + Expected(frames[1..])
  }

  /** `f` inside `depth` levels of transparent wrappers. */
  function Wrapped(depth: nat, f: Frame): Frame
  {
    if depth == 0 then f else Wrapper([Wrapped(depth - 1, f)])
  }

  /** The text a file collects from two consecutive frame sequences is the
      text of each, in order. */
  lemma {:induction false} FlattenAppend(a: seq<Frame>, b: seq<Frame>)
    ensures Flatten(a + b) == Flatten(a) + Flatten(b)
    decreases a
  {
    if a == [] {
      assert a + b == b;
    } else {
      assert (a + b)[0] == a[0];
      assert (a + b)[1..] == a[1..] + b;
      FlattenAppend(a[1..], b);
    }
  }

  /** Two consecutive frame sequences are plain text exactly when each is. */
  lemma {:induction false} PlainTextAppend(a: seq<Frame>, b: seq<Frame>)
    ensures PlainText(a + b) == (PlainText(a) && PlainText(b))
    decreases a
  {
    if a == [] {
      assert a + b == b;
    } else {
      assert (a + b)[0] == a[0];
      assert (a + b)[1..] == a[1..] + b;
      PlainTextAppend(a[1..], b);
    }
  }

  /** Two consecutive frame sequences form a simple tree exactly when each
      does, and then they stand for the items of each, in order. */
  lemma {:induction false} SimpleAppend(a: seq<Frame>, b: seq<Frame>)
    ensures Simple(a + b) == (Simple(a) && Simple(b))
    ensures Simple(a + b) ==> Expected(a + b) == Expected(a) + Expected(b)
    decreases a
  {
    if a == [] {
      assert a + b == b;
    } else {
      assert (a + b)[0] == a[0];
      assert (a + b)[1..] == a[1..] + b;
      SimpleAppend(a[1..], b);
    }
  }

  /** The reference definitions on a one-frame sequence are those of the
      frame. */
  lemma ReferenceSingle(f: Frame)
    ensures Flatten([f]) == FlattenFrame(f)
    ensures PlainText([f]) == PlainTextFrame(f)
    ensures Simple([f]) == SimpleFrame(f)
    ensures Simple([f]) ==> Expected([f]) == ExpectedFrame(f)
  {
  }

  /** The empty output is a unit of `Join` on both sides. */
  lemma JoinUnit(a: Result<Output>)
    ensures Join(a, Ok(Output([], ""))) == a
    ensures Join(Ok(Output([], "")), a) == a
  {
    if a.Ok? {
      assert a.value.items + [] == a.value.items && [] + a.value.items == a.value.items;
      assert a.value.text + "" == a.value.text && "" + a.value.text == a.value.text;
    }
  }

  lemma JoinAssociative(a: Result<Output>, b: Result<Output>, c: Result<Output>)
    ensures Join(Join(a, b), c) == Join(a, Join(b, c))
  {
    if a.Ok? && b.Ok? && c.Ok? {
      var x, y, z := a.value, b.value, c.value;
      assert (x.items + y.items) + z.items == x.items + (y.items + z.items);
      assert (x.text + y.text) + z.text == x.text + (y.text + z.text);
    }
  }

  /** Walking a single frame is taking that frame's step. */
  lemma WalkSingle(f: Frame, ctx: Context)
    ensures Walk([f], ctx) == WalkFrame(f, ctx)
  {
    assert [f][1..] == [];
    JoinUnit(WalkFrame(f, ctx));
  }

  /** Walking two consecutive frame sequences is walking each in turn. */
  lemma {:induction false} WalkAppend(a: seq<Frame>, b: seq<Frame>, ctx: Context)
    ensures Walk(a + b, ctx) == Join(Walk(a, ctx), Walk(b, ctx))
    decreases a
  {
    if a == [] {
      assert a + b == b;
      JoinUnit(Walk(b, ctx));
    } else {
      assert (a + b)[0] == a[0];
      assert (a + b)[1..] == a[1..] + b;
      WalkAppend(a[1..], b, ctx);
      JoinAssociative(WalkFrame(a[0], ctx), Walk(a[1..], ctx), Walk(b, ctx));
    }
  }

  /** A transparent wrapper is spliced away: its frames behave as if they
      were declared in its place. */
  lemma WrapperTransparent(pre: seq<Frame>, mid: seq<Frame>, post: seq<Frame>, ctx: Context)
    ensures Walk(pre + [Wrapper(mid)] + post, ctx) == Walk(pre + mid + post, ctx)
  {
    WalkAppend(pre + [Wrapper(mid)], post, ctx);
    WalkAppend(pre, [Wrapper(mid)], ctx);
    WalkAppend(pre + mid, post, ctx);
    WalkAppend(pre, mid, ctx);
    WalkSingle(Wrapper(mid), ctx);
  }

  /** Any number of wrapper levels around a component changes nothing. */
  lemma {:induction false} WrappedTransparent(depth: nat, f: Frame, ctx: Context)
    ensures Walk([Wrapped(depth, f)], ctx) == Walk([f], ctx)
  {
    if depth > 0 {
      WrappedTransparent(depth - 1, f, ctx);
      WalkSingle(Wrapped(depth, f), ctx);
    }
  }

  /** Every error the walker reports is raised by a frame it reaches. */
  lemma {:induction false} WalkErrorOrigin(frames: seq<Frame>, ctx: Context)
    ensures Walk(frames, ctx).Err? ==> Raises(frames, ctx, Walk(frames, ctx).error)
    decreases frames
  {
    if frames != [] {
      match frames[0] {
        case Text(_) =>
        case Fail(_) =>
        case FileComponent(_, ch) => WalkErrorOrigin(ch, InFile);
        case DirectoryComponent(_, ch) => WalkErrorOrigin(ch, InDirectory);
        case Wrapper(ch) => WalkErrorOrigin(ch, ctx);
      }
      WalkErrorOrigin(frames[1..], ctx);
    }
  }

  /** Whenever a reached frame raises, the walk fails. */
  lemma {:induction false} RaisedErrorFails(frames: seq<Frame>, ctx: Context, e: Error)
    requires Raises(frames, ctx, e)
    ensures Walk(frames, ctx).Err?
    decreases frames
  {
    if Raises(frames[1..], ctx, e) {
      RaisedErrorFails(frames[1..], ctx, e);
    } else {
      match frames[0] {
        case Fail(_) =>
        case FileComponent(_, ch) => RaisedErrorFails(ch, InFile, e);
        case DirectoryComponent(_, ch) =>
          if ctx != InFile { RaisedErrorFails(ch, InDirectory, e); }
        case Wrapper(ch) => RaisedErrorFails(ch, ctx, e);
      }
    }
  }

  /** The walk fails exactly when some reached frame raises an error. */
  lemma WalkFailsIffRaises(frames: seq<Frame>, ctx: Context)
    ensures Walk(frames, ctx).Err? <==> exists e :: Raises(frames, ctx, e)
  {
    WalkErrorOrigin(frames, ctx);
    if Walk(frames, ctx).Err? {
      var e := Walk(frames, ctx).error;
      assert Raises(frames, ctx, e);
      assert exists e' :: Raises(frames, ctx, e');
    } else if e :| Raises(frames, ctx, e) {
      RaisedErrorFails(frames, ctx, e);
    }
  }

  /** When the only error a tree can raise is `e`, the walk ends with
      exactly `e`. */
  lemma SoleErrorReachesCaller(frames: seq<Frame>, ctx: Context, e: Error)
    requires Raises(frames, ctx, e)
    requires forall e' :: Raises(frames, ctx, e') ==> e' == e
    ensures Walk(frames, ctx) == Err(e)
  {
    RaisedErrorFails(frames, ctx, e);
    WalkErrorOrigin(frames, ctx);
  }

  /** The text a successful walk yields is the literal text of the frames,
      in declaration order, through wrappers only. */
  lemma {:induction false} WalkTextIsFlatten(frames: seq<Frame>, ctx: Context)
    requires Walk(frames, ctx).Ok?
    ensures Walk(frames, ctx).value.text == Flatten(frames)
    decreases frames
  {
    if frames != [] {
      match frames[0] {
        case Text(_) =>
        case FileComponent(_, _) =>
        case DirectoryComponent(_, _) =>
        case Wrapper(ch) => WalkTextIsFlatten(ch, ctx);
        case Fail(_) =>
      }
      WalkTextIsFlatten(frames[1..], ctx);
    }
  }

  /** Plain text never fails and produces no items, only its text. */
  lemma {:induction false} PlainTextWalk(frames: seq<Frame>, ctx: Context)
    requires PlainText(frames)
    ensures Walk(frames, ctx) == Ok(Output([], Flatten(frames)))
    decreases frames
  {
    if frames != [] {
      match frames[0] {
        case Text(_) =>
        case Wrapper(ch) => PlainTextWalk(ch, ctx);
      }
      PlainTextWalk(frames[1..], ctx);
      var none: seq<Item> := [];
      assert none + none == none;
    }
  }

  /** Outside a file, a simple tree produces exactly the items it stands
      for, in declaration order, and no loose text. */
  lemma {:induction false} SimpleTreeWalk(frames: seq<Frame>, ctx: Context)
    requires Simple(frames) && ctx != InFile
    ensures Walk(frames, ctx) == Ok(Output(Expected(frames), ""))
    decreases frames
  {
    if frames != [] {
      match frames[0] {
        case FileComponent(_, ch) =>
          PlainTextWalk(ch, InFile);
          assert [File(frames[0].name, Flatten(ch))] + [] == [File(frames[0].name, Flatten(ch))];
        case DirectoryComponent(_, ch) => SimpleTreeWalk(ch, InDirectory);
        case Wrapper(ch) => SimpleTreeWalk(ch, ctx);
      }
      SimpleTreeWalk(frames[1..], ctx);
      assert "" + "" == "";
    }
  }

  /** Sibling file and directory components yield one item each, in their
      declared order, with their own names and kinds: nothing is reordered
      or dropped. */
  lemma {:induction false} SiblingOrder(frames: seq<Frame>)
    requires Simple(frames)
    requires forall i :: 0 <= i < |frames| ==>
               frames[i].FileComponent? || frames[i].DirectoryComponent?
    ensures |Expected(frames)| == |frames|
    ensures forall i :: 0 <= i < |frames| ==>
              Expected(frames)[i].name == frames[i].name &&
              (Expected(frames)[i].File? <==> frames[i].FileComponent?)
    decreases frames
  {
    if frames != [] {
      SiblingOrder(frames[1..]);
      var rest := Expected(frames[1..]);
      assert forall i :: 1 <= i < |frames| ==> frames[1..][i - 1] == frames[i];
    }
  }

  /** A file whose content is only text yields one file with that name and
      the concatenated text as content. */
  lemma FileOfText(name: string, body: seq<Frame>, ctx: Context)
    requires PlainText(body)
    ensures Walk([FileComponent(name, body)], ctx) ==
            Ok(Output([File(name, Flatten(body))], ""))
  {
    PlainTextWalk(body, InFile);
    WalkSingle(FileComponent(name, body), ctx);
    assert [File(name, Flatten(body))] + [] == [File(name, Flatten(body))];
  }

  /** A directory component placed anywhere beneath a file component, also
      through wrappers and nested files, makes the walk fail; when nothing
      else in the file can fail, the error names a misplaced directory. */
  lemma DirectoryUnderFileFails(name: string, body: seq<Frame>, d: string, ctx: Context)
    requires Raises(body, InFile, InvalidGeneratorComponentContent(d))
    ensures Walk([FileComponent(name, body)], ctx).Err?
    ensures (forall k :: !Raises(body, InFile, UserNodeFailure(k))) ==>
              exists d' :: Walk([FileComponent(name, body)], ctx) ==
                             Err(InvalidGeneratorComponentContent(d')) &&
                           Raises(body, InFile, InvalidGeneratorComponentContent(d'))
  {
    RaisedErrorFails(body, InFile, InvalidGeneratorComponentContent(d));
    WalkErrorOrigin(body, InFile);
    var e := Walk(body, InFile).error;
    if e.InvalidGeneratorComponentContent? {
      assert Walk([FileComponent(name, body)], ctx) ==
             Err(InvalidGeneratorComponentContent(e.directoryName));
    }
  }

  /** A directory declared after plain text in a file is reported by its
      own name. */
  lemma DirectoryAfterTextInFile(name: string, pre: seq<Frame>, d: string,
                                 ch: seq<Frame>, post: seq<Frame>, ctx: Context)
    requires PlainText(pre)
    ensures Walk([FileComponent(name, pre + [DirectoryComponent(d, ch)] + post)], ctx) ==
            Err(InvalidGeneratorComponentContent(d))
  {
    PlainTextWalk(pre, InFile);
    WalkAppend(pre, [DirectoryComponent(d, ch)], InFile);
    WalkAppend(pre + [DirectoryComponent(d, ch)], post, InFile);
  }

  /** A user failure the walk can meet is also an exception the render
      phase finds, so the render phase never lets it through to the walk. */
  lemma {:induction false} RaisesUserImpliesThrows(frames: seq<Frame>, ctx: Context, k: string)
    requires Raises(frames, ctx, UserNodeFailure(k))
    ensures Throws(frames, k)
    decreases frames
  {
    if Raises(frames[1..], ctx, UserNodeFailure(k)) {
      RaisesUserImpliesThrows(frames[1..], ctx, k);
    } else {
      match frames[0] {
        case Fail(_) =>
        case FileComponent(_, ch) => RaisesUserImpliesThrows(ch, InFile, k);
        case DirectoryComponent(_, ch) =>
          if ctx != InFile { RaisesUserImpliesThrows(ch, InDirectory, k); }
        case Wrapper(ch) => RaisesUserImpliesThrows(ch, ctx, k);
      }
    }
  }

  /** A directory component anywhere beneath a file component, in a
      generator where nothing throws, makes the invocation fail with
      `InvalidGeneratorComponentContent` naming a misplaced directory. */
  lemma RenderDirectoryUnderFile(root: Frame, d: string)
    requires Raises([root], TopLevel, InvalidGeneratorComponentContent(d))
    requires forall k :: !Throws([root], k)
    ensures Render(root).Err? && Render(root).error.InvalidGeneratorComponentContent?
    ensures Raises([root], TopLevel, Render(root).error)
  {
    RaisedErrorFails([root], TopLevel, InvalidGeneratorComponentContent(d));
    WalkErrorOrigin([root], TopLevel);
    var e := Walk([root], TopLevel).error;
    if e.UserNodeFailure? {
      RaisesUserImpliesThrows([root], TopLevel, e.kind);
      assert false;
    }
  }

  /** Plain text throws nothing. */
  lemma {:induction false} PlainTextNoFailure(frames: seq<Frame>)
    requires PlainText(frames)
    ensures FirstFailure(frames) == None
    decreases frames
  {
    if frames != [] {
      match frames[0] {
        case Text(_) =>
        case Wrapper(ch) => PlainTextNoFailure(ch);
      }
      PlainTextNoFailure(frames[1..]);
    }
  }

  /** A simple tree throws nothing. */
  lemma {:induction false} SimpleNoFailure(frames: seq<Frame>)
    requires Simple(frames)
    ensures FirstFailure(frames) == None
    decreases frames
  {
    if frames != [] {
      match frames[0] {
        case FileComponent(_, ch) => PlainTextNoFailure(ch);
        case DirectoryComponent(_, ch) => SimpleNoFailure(ch);
        case Wrapper(ch) => SimpleNoFailure(ch);
      }
      SimpleNoFailure(frames[1..]);
    }
  }

  /** Wrappers do not change what the render phase throws. */
  lemma {:induction false} WrappedFailure(depth: nat, f: Frame)
    ensures FirstFailure([Wrapped(depth, f)]) == FirstFailure([f])
  {
    assert [Wrapped(depth, f)][1..] == [] && [f][1..] == [];
    if depth > 0 {
      WrappedFailure(depth - 1, f);
    }
  }
}
