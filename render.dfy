/** Serialising a vnode tree into a buffer: `renderVNode`,
    `renderVNodeChildren`, `renderElementVNode` and `renderTeleportVNode`.

    What a node does is given by `Emit`: the chunks it pushes, in order, and
    the teleport entries it files, in order. The methods push into a real
    `Buffer` and file into a real `RenderContext`, and are proved to do
    exactly what `Emit` says. */
module Render {
  import opened Shared
  import opened Buffers
  import opened Attrs
  import opened Components
  import opened Teleports

  /** A buffer built by `createBuffer`: its flags are exact. */
  type ExactBuffer = b: BufferValue | FlagsExact(b) witness BufferValue([], false)

  /** Teleport entries as `ssrRenderTeleport` files them: each built by `createBuffer`. */
  type ExactRegistrations = regs: seq<Registration> | forall i :: 0 <= i < |regs| ==> ChunkFlagsExact(regs[i].entry)
    witness []

  /** The children shapes an element's `shapeFlag` distinguishes. */
  datatype ElementChildren =
    | NoChildren
    | TextChildren(text: string)      // TEXT_CHILDREN
    | ArrayChildren(nodes: seq<VNode>) // ARRAY_CHILDREN

  /** A normalised vnode. A component is opaque: what `renderComponentVNode`
      returns for it, its buffer or (`async`) a promise of that buffer, and
      the teleport entries its sub-tree files while it renders. */
  datatype VNode =
    | TextNode(text: string)
    | CommentNode(text: string)
    | StaticNode(html: string)
    | FragmentNode(children: seq<VNode>)
    | ElementNode(id: nat, tag: string, props: seq<Prop>, elementChildren: ElementChildren, scopeId: string)
    | ComponentNode(output: ExactBuffer, async: bool, filed: ExactRegistrations)
    | TeleportNode(teleportProps: seq<Prop>, teleportChildren: seq<VNode>)
    | SuspenseNode(content: VNode)    // ssContent
    | InvalidNode                     // any other type: a warning, nothing pushed

  /** Where a subtree is rendered: the helpers, the component arena, and the
      component whose render produced the subtree (`parentComponent`). */
  datatype Env = Env(f: Facade, arena: seq<Instance>, parent: Option<nat>)

  predicate ValidEnv(env: Env)
  {
    Components.WellFormed(env.arena) && InArena(env.arena, env.parent)
  }

  /** The effect of rendering: chunks pushed and teleport entries filed. */
  datatype Emission = Emission(pushes: seq<Chunk>, regs: seq<Registration>)

  const Nothing := Emission([], [])

  function Pushing(cs: seq<Chunk>): Emission
  {
    Emission(cs, [])
  }

  /** One rendering step after another. */
  function Then(a: Emission, b: Emission): Emission
  {
    Emission(a.pushes + b.pushes, a.regs + b.regs)
  }

  const FragmentOpen := "<!--[-->"
  const FragmentClose := "<!--]-->"

  function CommentText(f: Facade, text: string): string
  {
    if text != "" then "<!--" + f.escapeHtmlComment(text) + "-->" else "<!---->"
  }

  /** The entries a component files while `renderComponentVNode` runs: those
      of its sub-tree when it renders at once; an async component renders its
      sub-tree only after its promise settles. */
  function ComponentFiled(async: bool, filed: seq<Registration>): seq<Registration>
  {
    if async then [] else filed
  }

  /** `push(renderComponentVNode(vnode))`. */
  function ComponentChunk(output: ExactBuffer, async: bool): Chunk
  {
    if async then Pending(SettledBuffer(output)) else Child(output)
  }

  /** A truthy `innerHTML` is pushed as it is. The unrollers add a string's
      text, walk an array by index, and find no `length` on any other value,
      which then adds nothing. No promise is ever inside. */
  function RawChunk(v: Value): (c: Chunk)
    ensures ChunkFlagsExact(c) && !IsAsync(c) && ChunkSyncOnly(c)
    ensures c.Text? <==> v.String?
    ensures FlattenChunk(c) == SyncChunkText(c)
  {
    match v
    case String(s) => Text(s)
    case Array(es) =>
      var items := seq(|es|, i requires 0 <= i < |es| => RawChunk(es[i]));
      RawItemsExact(items);
      Child(BufferValue(items, false))
    case _ => Child(BufferValue([], false))
  }

  /** Entries made by `RawChunk` form an array whose `false` flag is exact. */
  lemma RawItemsExact(items: seq<Chunk>)
    requires forall i :: 0 <= i < |items| ==> ChunkFlagsExact(items[i]) && !IsAsync(items[i]) && ChunkSyncOnly(items[i])
    ensures FlagsExact(BufferValue(items, false)) && SyncOnly(items)
    ensures Flatten(items) == SyncText(items)
  {
    SyncWalkComplete(items);
  }

  /** An `innerHTML` array of strings unrolls to the strings joined in order. */
  lemma {:induction false} RawStringsJoined(ss: seq<string>)
    ensures FlattenChunk(RawChunk(Array(seq(|ss|, i requires 0 <= i < |ss| => String(ss[i]))))) == Concat(ss)
    decreases |ss|
  {
    var es := seq(|ss|, i requires 0 <= i < |ss| => String(ss[i]));
    var items := seq(|es|, i requires 0 <= i < |es| => RawChunk(es[i]));
    assert RawChunk(Array(es)) == Child(BufferValue(items, false));
    if ss != [] {
      var n := |ss| - 1;
      var es' := seq(|ss[..n]|, i requires 0 <= i < |ss[..n]| => String(ss[..n][i]));
      var items' := seq(|es'|, i requires 0 <= i < |es'| => RawChunk(es'[i]));
      assert items[..n] == items';
      RawStringsJoined(ss[..n]);
      assert RawChunk(Array(es')) == Child(BufferValue(items', false));
      assert items[n] == Text(ss[n]);
    }
  }

  function OpenTag(env: Env, id: nat, tag: string, props: seq<Prop>, scopeId: string): string
    requires ValidEnv(env)
  {
    "<" + tag + AttrsText(env.f, props, tag) + ResolveScopeId(env.arena, scopeId, id, env.parent) + ">"
  }

  function CloseTag(tag: string): string
  {
    "</" + tag + ">"
  }

  /** What `renderVNode` does for `n`. */
  function Emit(env: Env, n: VNode): Emission
    requires ValidEnv(env)
    decreases n, 2
  {
    match n
    case TextNode(t) => Pushing([Text(env.f.escapeHtml(t))])
    case CommentNode(t) => Pushing([Text(CommentText(env.f, t))])
    case StaticNode(h) => Pushing([Text(h)])
    case FragmentNode(ns) =>
      Then(Then(Pushing([Text(FragmentOpen)]), EmitChildren(env, ns)), Pushing([Text(FragmentClose)]))
    case ElementNode(_, _, _, _, _) => EmitElement(env, n)
    case ComponentNode(out, async, filed) => Emission([ComponentChunk(out, async)], ComponentFiled(async, filed))
    case TeleportNode(_, _) => EmitTeleport(env, n)
    case SuspenseNode(c) => Emit(env, c)
    case InvalidNode => Nothing
  }

  /** What `renderVNodeChildren` does: each child in array order. */
  function EmitChildren(env: Env, ns: seq<VNode>): Emission
    requires ValidEnv(env)
    decreases ns, 2
  {
    if ns == [] then Nothing
    else Then(EmitChildren(env, ns[..|ns| - 1]), Emit(env, ns[|ns| - 1]))
  }

  /** The entry that replaces an element's children, if any: a truthy
      `innerHTML` as it is, else a truthy `textContent` escaped, else a
      textarea's truthy `value` escaped. */
  function ChildrenOverride(f: Facade, props: seq<Prop>, tag: string): Option<Chunk>
  {
    var innerHTML := Lookup(props, "innerHTML");
    var textContent := Lookup(props, "textContent");
    var value := Lookup(props, "value");
    if Truthy(innerHTML) then Some(RawChunk(innerHTML))
    else if Truthy(textContent) then Some(Text(f.escapeHtml(f.jsString(textContent))))
    else if tag == "textarea" && Truthy(value) then Some(Text(f.escapeHtml(f.jsString(value))))
    else None
  }

  /** What an element's own children push. */
  function EmitElementChildren(env: Env, ch: ElementChildren): Emission
    requires ValidEnv(env)
    decreases ch, 1
  {
    match ch
    case NoChildren => Nothing
    case TextChildren(t) => Pushing([Text(env.f.escapeHtml(t))])
    case ArrayChildren(ns) => EmitChildren(env, ns)
  }

  /** What an element puts between its tags: the override, or its children. */
  function ElementBody(env: Env, n: VNode): Emission
    requires ValidEnv(env) && n.ElementNode?
    decreases n, 0
  {
    match ChildrenOverride(env.f, n.props, n.tag)
    case Some(c) => Pushing([c])
    case None => EmitElementChildren(env, n.elementChildren)
  }

  /** What `renderElementVNode` does. */
  function EmitElement(env: Env, n: VNode): Emission
    requires ValidEnv(env) && n.ElementNode?
    decreases n, 1
  {
    var open := Pushing([Text(OpenTag(env, n.id, n.tag, n.props, n.scopeId))]);
    if env.f.isVoidTag(n.tag) then open
    else Then(Then(open, ElementBody(env, n)), Pushing([Text(CloseTag(n.tag))]))
  }

  /** The teleport's target: its `to` prop when that is a non-empty string. */
  function TeleportTarget(props: seq<Prop>): Option<string>
  {
    var to := Lookup(props, "to");
    if Truthy(to) && to.String? then Some(to.s) else None
  }

  /** `disabled || disabled === ''`. */
  predicate TeleportDisabled(props: seq<Prop>)
  {
    var d := Lookup(props, "disabled");
    Truthy(d) || d == String("")
  }

  /** What `renderTeleportVNode` does. */
  function EmitTeleport(env: Env, n: VNode): Emission
    requires ValidEnv(env) && n.TeleportNode?
    decreases n, 1
  {
    var target := TeleportTarget(n.teleportProps);
    if target.None? then Nothing
    else
      var disabled := TeleportDisabled(n.teleportProps);
      var content := EmitChildren(env, n.teleportChildren);
      Emission(ParentPushes(content.pushes, disabled),
               content.regs + [Registration(target.value, TargetEntry(content.pushes, disabled))])
  }

  // ----- composing steps -----

  lemma ThenStep(st: BufState, tb: TeleportBuffers, a: Emission, b: Emission)
    requires CanAppend(st)
    ensures CanAppend(PushedAll(st, a.pushes))
    ensures PushedAll(PushedAll(st, a.pushes), b.pushes) == PushedAll(st, Then(a, b).pushes)
    ensures RegisteredAll(RegisteredAll(tb, a.regs), b.regs) == RegisteredAll(tb, Then(a, b).regs)
  {
    PushedAllAppend(st, a.pushes, b.pushes);
    RegisteredAllAppend(tb, a.regs, b.regs);
  }

  // ----- the renderer -----

  /** One `push(c)`, seen only through the state it leaves. */
  method PushStep(buf: Buffer, c: Chunk)
    requires buf.Valid() && ChunkFlagsExact(c)
    modifies buf
    ensures buf.Valid() && buf.State() == PushedAll(old(buf.State()), [c])
  {
    buf.Push(c);
  }


  /** `renderVNode(push, vnode, parentComponent)`. */
  method RenderVNode(env: Env, buf: Buffer, n: VNode, ctx: RenderContext)
    requires ValidEnv(env) && buf.Valid() && ctx.Valid()
    modifies buf, ctx
    ensures buf.Valid() && ctx.Valid()
    ensures buf.State() == PushedAll(old(buf.State()), Emit(env, n).pushes)
    ensures ctx.teleportBuffers == RegisteredAll(old(ctx.teleportBuffers), Emit(env, n).regs)
    ensures ctx.teleports == old(ctx.teleports)
    decreases n, 2
  {
    match n {
      case TextNode(_) =>
        RenderLeaf(env, buf, n);
      case CommentNode(_) =>
        RenderLeaf(env, buf, n);
      case StaticNode(_) =>
        RenderLeaf(env, buf, n);
      case FragmentNode(ns) =>
        RenderFragment(env, buf, ns, ctx);
      case ElementNode(_, _, _, _, _) =>
        RenderElementVNode(env, buf, n, ctx);
      case ComponentNode(_, _, _) =>
        RenderComponentVNode(env, buf, n, ctx);
      case TeleportNode(_, _) =>
        RenderTeleportVNode(env, buf, n, ctx);
      case SuspenseNode(c) =>
        RenderVNode(env, buf, c, ctx);
      case InvalidNode =>
        // the source warns about the invalid type
    }
  }

  /** The cases of `renderVNode` that push one string: text, comment and
      static markup. */
  method RenderLeaf(env: Env, buf: Buffer, n: VNode)
    requires ValidEnv(env) && buf.Valid()
    requires n.TextNode? || n.CommentNode? || n.StaticNode?
    modifies buf
    ensures buf.Valid()
    ensures buf.State() == PushedAll(old(buf.State()), Emit(env, n).pushes)
    ensures Emit(env, n).regs == []
  {
    var c;
    match n {
      case TextNode(t) => c := Text(env.f.escapeHtml(t));
      case CommentNode(t) => c := Text(CommentText(env.f, t));
      case StaticNode(h) => c := Text(h);
    }
    assert Emit(env, n) == Pushing([c]);
    PushStep(buf, c);
  }

  /** The component case of `renderVNode`: `renderComponentVNode` files the
      entries of a sub-tree it renders at once, then its result is pushed. */
  method RenderComponentVNode(env: Env, buf: Buffer, n: VNode, ctx: RenderContext)
    requires ValidEnv(env) && buf.Valid() && ctx.Valid() && n.ComponentNode?
    modifies buf, ctx
    ensures buf.Valid() && ctx.Valid()
    ensures buf.State() == PushedAll(old(buf.State()), [ComponentChunk(n.output, n.async)])
    ensures ctx.teleportBuffers == RegisteredAll(old(ctx.teleportBuffers), ComponentFiled(n.async, n.filed))
    ensures ctx.teleports == old(ctx.teleports)
  {
    if !n.async {
      FileAll(ctx, n.filed);
    }
    PushStep(buf, ComponentChunk(n.output, n.async));
  }

  /** Files `regs` one after another, as the `ssrRenderTeleport` calls of a
      sub-tree do. */
  method FileAll(ctx: RenderContext, regs: ExactRegistrations)
    requires ctx.Valid()
    modifies ctx
    ensures ctx.Valid()
    ensures ctx.teleportBuffers == RegisteredAll(old(ctx.teleportBuffers), regs)
    ensures ctx.teleports == old(ctx.teleports)
  {
    ghost var tb0 := ctx.teleportBuffers;
    for i := 0 to |regs|
      invariant ctx.Valid() && ctx.teleports == old(ctx.teleports)
      invariant ctx.teleportBuffers == RegisteredAll(tb0, regs[..i])
    {
      assert regs[..i + 1][..i] == regs[..i];
      ctx.Register(regs[i].target, regs[i].entry);
    }
    assert regs[..|regs|] == regs;
  }

  /** The Fragment case of `renderVNode`. */
  method RenderFragment(env: Env, buf: Buffer, ns: seq<VNode>, ctx: RenderContext)
    requires ValidEnv(env) && buf.Valid() && ctx.Valid()
    modifies buf, ctx
    ensures buf.Valid() && ctx.Valid()
    ensures buf.State() == PushedAll(old(buf.State()), Emit(env, FragmentNode(ns)).pushes)
    ensures ctx.teleportBuffers == RegisteredAll(old(ctx.teleportBuffers), Emit(env, FragmentNode(ns)).regs)
    ensures ctx.teleports == old(ctx.teleports)
    decreases ns, 3
  {
    ghost var st0, tb0 := buf.State(), ctx.teleportBuffers;
    ghost var open, close := Pushing([Text(FragmentOpen)]), Pushing([Text(FragmentClose)]);
    ghost var kids := EmitChildren(env, ns);
    assert Emit(env, FragmentNode(ns)) == Then(Then(open, kids), close);
    PushStep(buf, Text(FragmentOpen));
    assert ctx.teleportBuffers == RegisteredAll(tb0, open.regs);
    RenderVNodeChildren(env, buf, ns, ctx);
    ThenStep(st0, tb0, open, kids);
    PushStep(buf, Text(FragmentClose));
    assert ctx.teleportBuffers == RegisteredAll(RegisteredAll(tb0, Then(open, kids).regs), close.regs);
    ThenStep(st0, tb0, Then(open, kids), close);
  }

  /** `renderVNodeChildren(push, children, parentComponent)`. */
  method RenderVNodeChildren(env: Env, buf: Buffer, ns: seq<VNode>, ctx: RenderContext)
    requires ValidEnv(env) && buf.Valid() && ctx.Valid()
    modifies buf, ctx
    ensures buf.Valid() && ctx.Valid()
    ensures buf.State() == PushedAll(old(buf.State()), EmitChildren(env, ns).pushes)
    ensures ctx.teleportBuffers == RegisteredAll(old(ctx.teleportBuffers), EmitChildren(env, ns).regs)
    ensures ctx.teleports == old(ctx.teleports)
    decreases ns, 2
  {
    ghost var st0, tb0 := buf.State(), ctx.teleportBuffers;
    var i := 0;
    while i < |ns|
      invariant 0 <= i <= |ns|
      invariant buf.Valid() && ctx.Valid() && ctx.teleports == old(ctx.teleports)
      invariant buf.State() == PushedAll(st0, EmitChildren(env, ns[..i]).pushes)
      invariant ctx.teleportBuffers == RegisteredAll(tb0, EmitChildren(env, ns[..i]).regs)
    {
      assert ns[..i + 1][..i] == ns[..i] && ns[..i + 1][i] == ns[i];
      RenderVNode(env, buf, ns[i], ctx);
      ThenStep(st0, tb0, EmitChildren(env, ns[..i]), Emit(env, ns[i]));
      i := i + 1;
    }
    assert ns[..i] == ns;
  }

  /** `renderElementVNode(push, vnode, parentComponent)`, without directives. */
  method RenderElementVNode(env: Env, buf: Buffer, n: VNode, ctx: RenderContext)
    requires ValidEnv(env) && buf.Valid() && ctx.Valid() && n.ElementNode?
    modifies buf, ctx
    ensures buf.Valid() && ctx.Valid()
    ensures buf.State() == PushedAll(old(buf.State()), EmitElement(env, n).pushes)
    ensures ctx.teleportBuffers == RegisteredAll(old(ctx.teleportBuffers), EmitElement(env, n).regs)
    ensures ctx.teleports == old(ctx.teleports)
    decreases n, 1
  {
    ghost var st0, tb0 := buf.State(), ctx.teleportBuffers;
    var f, tag, props := env.f, n.tag, n.props;
    var openTag := "<" + tag;
    if props != [] {
      var attrs := RenderAttrs(f, props, tag);
      openTag := openTag + attrs;
    }
    openTag := openTag + ResolveScopeId(env.arena, n.scopeId, n.id, env.parent);
    assert openTag + ">" == OpenTag(env, n.id, tag, props, n.scopeId);
    PushStep(buf, Text(openTag + ">"));
    if !f.isVoidTag(tag) {
      ghost var open := Pushing([Text(openTag + ">")]);
      RenderElementBody(env, buf, n, ctx);
      ThenStep(st0, tb0, open, ElementBody(env, n));
      PushStep(buf, Text(CloseTag(tag)));
      ThenStep(st0, tb0, Then(open, ElementBody(env, n)), Pushing([Text(CloseTag(tag))]));
    }
  }

  /** The part of `renderElementVNode` between the tags: the children
      override, or the children. */
  method RenderElementBody(env: Env, buf: Buffer, n: VNode, ctx: RenderContext)
    requires ValidEnv(env) && buf.Valid() && ctx.Valid() && n.ElementNode?
    modifies buf, ctx
    ensures buf.Valid() && ctx.Valid()
    ensures buf.State() == PushedAll(old(buf.State()), ElementBody(env, n).pushes)
    ensures ctx.teleportBuffers == RegisteredAll(old(ctx.teleportBuffers), ElementBody(env, n).regs)
    ensures ctx.teleports == old(ctx.teleports)
    decreases n, 0
  {
    var hasChildrenOverride := PushChildrenOverride(env.f, buf, n.props, n.tag);
    if !hasChildrenOverride {
      RenderElementChildren(env, buf, n.elementChildren, ctx);
    }
  }

  /** The `if (props)` chain of `renderElementVNode`: pushes the override
      when there is one and says whether it did. */
  method PushChildrenOverride(f: Facade, buf: Buffer, props: seq<Prop>, tag: string) returns (hasChildrenOverride: bool)
    requires buf.Valid()
    modifies buf
    ensures buf.Valid()
    ensures hasChildrenOverride == ChildrenOverride(f, props, tag).Some?
    ensures buf.State() == PushedAll(old(buf.State()),
      if hasChildrenOverride then [ChildrenOverride(f, props, tag).value] else [])
  {
    hasChildrenOverride := false;
    if props != [] {
      var innerHTML := Lookup(props, "innerHTML");
      var textContent := Lookup(props, "textContent");
      var value := Lookup(props, "value");
      if Truthy(innerHTML) {
        hasChildrenOverride := true;
        PushStep(buf, RawChunk(innerHTML));
      } else if Truthy(textContent) {
        hasChildrenOverride := true;
        PushStep(buf, Text(f.escapeHtml(f.jsString(textContent))));
      } else if tag == "textarea" && Truthy(value) {
        hasChildrenOverride := true;
        PushStep(buf, Text(f.escapeHtml(f.jsString(value))));
      }
    }
  }

  /** The children branch of `renderElementVNode`, by `shapeFlag`. */
  method RenderElementChildren(env: Env, buf: Buffer, ch: ElementChildren, ctx: RenderContext)
    requires ValidEnv(env) && buf.Valid() && ctx.Valid()
    modifies buf, ctx
    ensures buf.Valid() && ctx.Valid()
    ensures buf.State() == PushedAll(old(buf.State()), EmitElementChildren(env, ch).pushes)
    ensures ctx.teleportBuffers == RegisteredAll(old(ctx.teleportBuffers), EmitElementChildren(env, ch).regs)
    ensures ctx.teleports == old(ctx.teleports)
    decreases ch, 1
  {
    match ch {
      case NoChildren =>
      case TextChildren(t) =>
        PushStep(buf, Text(env.f.escapeHtml(t)));
      case ArrayChildren(ns) =>
        RenderVNodeChildren(env, buf, ns, ctx);
    }
  }

  /** `renderTeleportVNode(push, vnode, parentComponent)`, with the work of
      `ssrRenderTeleport` done in place: the content callback renders the
      teleport's children into the parent (disabled) or a fresh buffer. */
  method RenderTeleportVNode(env: Env, buf: Buffer, n: VNode, ctx: RenderContext)
    requires ValidEnv(env) && buf.Valid() && ctx.Valid() && n.TeleportNode?
    modifies buf, ctx
    ensures buf.Valid() && ctx.Valid()
    ensures buf.State() == PushedAll(old(buf.State()), EmitTeleport(env, n).pushes)
    ensures ctx.teleportBuffers == RegisteredAll(old(ctx.teleportBuffers), EmitTeleport(env, n).regs)
    ensures ctx.teleports == old(ctx.teleports)
    decreases n, 1
  {
    var target := Lookup(n.teleportProps, "to");
    var d := Lookup(n.teleportProps, "disabled");
    if !Truthy(target) {
      // the source warns that the target prop is missing
      return;
    }
    if !target.String? {
      // the source warns that the target must be a selector string
      return;
    }
    var disabled := Truthy(d) || d == String("");
    ghost var st0, tb0 := buf.State(), ctx.teleportBuffers;
    ghost var content := EmitChildren(env, n.teleportChildren);
    ghost var mid := if disabled then content.pushes else [];
    PushStep(buf, Text(TeleportStart));
    var entry := RenderTeleportContent(env, buf, n.teleportChildren, disabled, ctx);
    PushedAllAppend(st0, [Text(TeleportStart)], mid);
    ctx.Register(target.s, entry);
    RegisteredAllAppend(tb0, content.regs, [Registration(target.s, entry)]);
    PushStep(buf, Text(TeleportEnd));
    PushedAllAppend(st0, [Text(TeleportStart)] + mid, [Text(TeleportEnd)]);
  }

  /** The content callback of a teleport and the entry `ssrRenderTeleport`
      builds from it: children into the parent and the bare anchor when
      disabled, otherwise children into a fresh buffer closed by the anchor. */
  method RenderTeleportContent(env: Env, buf: Buffer, ns: seq<VNode>, disabled: bool, ctx: RenderContext)
    returns (entry: Chunk)
    requires ValidEnv(env) && buf.Valid() && ctx.Valid()
    modifies buf, ctx
    ensures buf.Valid() && ctx.Valid() && ChunkFlagsExact(entry)
    ensures buf.State() == PushedAll(old(buf.State()), if disabled then EmitChildren(env, ns).pushes else [])
    ensures entry == TargetEntry(EmitChildren(env, ns).pushes, disabled)
    ensures ctx.teleportBuffers == RegisteredAll(old(ctx.teleportBuffers), EmitChildren(env, ns).regs)
    ensures ctx.teleports == old(ctx.teleports)
    decreases ns, 3
  {
    if disabled {
      RenderVNodeChildren(env, buf, ns, ctx);
      entry := Text(Anchor);
    } else {
      var b := new Buffer();
      RenderVNodeChildren(env, b, ns, ctx);
      PushStep(b, Text(Anchor));
      PushedAllAppend(Empty, EmitChildren(env, ns).pushes, [Text(Anchor)]);
      entry := Child(b.GetBuffer());
    }
  }
}

/** What the renderer's output says, as text. */
module RenderFacts {
  import opened Shared
  import opened Buffers
  import opened Attrs
  import opened Components
  import opened Teleports
  import opened Render

  lemma FlattenOne(c: Chunk)
    ensures Flatten([c]) == FlattenChunk(c)
  {
    assert [c][..0] == [];
  }

  lemma FlattenThree(a: Chunk, b: seq<Chunk>, c: Chunk)
    ensures Flatten([a] + b + [c]) == FlattenChunk(a) + Flatten(b) + FlattenChunk(c)
  {
    FlattenAppend([a] + b, [c]);
    FlattenAppend([a], b);
    FlattenOne(a);
    FlattenOne(c);
  }

  /** Children are rendered in array order: rendering `a + b` is rendering
      `a` and then `b`, pushes and teleport entries alike. */
  lemma {:induction false} ChildrenInOrder(env: Env, a: seq<VNode>, b: seq<VNode>)
    requires ValidEnv(env)
    ensures EmitChildren(env, a + b) == Then(EmitChildren(env, a), EmitChildren(env, b))
    decreases |b|
  {
    if b == [] {
      assert a + b == a;
      assert EmitChildren(env, a).pushes + [] == EmitChildren(env, a).pushes;
      assert EmitChildren(env, a).regs + [] == EmitChildren(env, a).regs;
    } else {
      var n := |b| - 1;
      assert (a + b)[..|a + b| - 1] == a + b[..n];
      assert (a + b)[|a + b| - 1] == b[n];
      ChildrenInOrder(env, a, b[..n]);
      var x, y, z := EmitChildren(env, a), EmitChildren(env, b[..n]), Emit(env, b[n]);
      assert Then(Then(x, y), z) == Then(x, Then(y, z));
    }
  }

  /** The text of an element: the open tag, and unless the tag is void, the
      body and the close tag. */
  lemma ElementText(env: Env, n: VNode)
    requires ValidEnv(env) && n.ElementNode?
    ensures Flatten(Emit(env, n).pushes)
         == OpenTag(env, n.id, n.tag, n.props, n.scopeId)
            + (if env.f.isVoidTag(n.tag) then "" else Flatten(ElementBody(env, n).pushes) + CloseTag(n.tag))
  {
    var open := Text(OpenTag(env, n.id, n.tag, n.props, n.scopeId));
    if env.f.isVoidTag(n.tag) {
      FlattenOne(open);
    } else {
      assert Emit(env, n).pushes == [open] + ElementBody(env, n).pushes + [Text(CloseTag(n.tag))];
      FlattenThree(open, ElementBody(env, n).pushes, Text(CloseTag(n.tag)));
    }
  }

  /** An element with an override has that one entry between its tags. */
  lemma OverrideText(env: Env, n: VNode, c: Chunk)
    requires ValidEnv(env) && n.ElementNode? && !env.f.isVoidTag(n.tag)
    requires ChildrenOverride(env.f, n.props, n.tag) == Some(c)
    ensures Flatten(Emit(env, n).pushes) == OpenTag(env, n.id, n.tag, n.props, n.scopeId) + FlattenChunk(c) + CloseTag(n.tag)
  {
    assert ElementBody(env, n) == Pushing([c]);
    ElementText(env, n);
    FlattenOne(c);
  }

  /** An element without an override has its own children between its tags. */
  lemma ChildrenText(env: Env, n: VNode)
    requires ValidEnv(env) && n.ElementNode? && !env.f.isVoidTag(n.tag)
    requires ChildrenOverride(env.f, n.props, n.tag).None?
    ensures Flatten(Emit(env, n).pushes)
         == OpenTag(env, n.id, n.tag, n.props, n.scopeId) + Flatten(EmitElementChildren(env, n.elementChildren).pushes) + CloseTag(n.tag)
  {
    assert ElementBody(env, n) == EmitElementChildren(env, n.elementChildren);
    ElementText(env, n);
  }

  /** A void element is its open tag alone, whatever its children. */
  lemma VoidElementOpenTagOnly(env: Env, n: VNode, other: ElementChildren)
    requires ValidEnv(env) && n.ElementNode? && env.f.isVoidTag(n.tag)
    ensures Emit(env, n) == Emit(env, n.(elementChildren := other))
    ensures Emit(env, n).regs == []
    ensures Flatten(Emit(env, n).pushes) == OpenTag(env, n.id, n.tag, n.props, n.scopeId)
  {
    ElementText(env, n);
  }

  /** An override replaces the children entirely: they are neither pushed
      nor rendered, so no teleport inside them is filed. */
  lemma OverrideHidesChildren(env: Env, n: VNode, other: ElementChildren)
    requires ValidEnv(env) && n.ElementNode? && ChildrenOverride(env.f, n.props, n.tag).Some?
    ensures Emit(env, n) == Emit(env, n.(elementChildren := other))
    ensures Emit(env, n).regs == []
  {
    var open := Pushing([Text(OpenTag(env, n.id, n.tag, n.props, n.scopeId))]);
    var close := Pushing([Text(CloseTag(n.tag))]);
    var m := n.(elementChildren := other);
    assert ElementBody(env, m) == ElementBody(env, n);
    assert Emit(env, m) == EmitElement(env, m) == EmitElement(env, n) == Emit(env, n);
    assert ElementBody(env, n).regs == [];
    assert Then(Then(open, ElementBody(env, n)), close).regs == [];
  }

  /** A truthy string `innerHTML` goes out raw, ahead of `textContent`, a
      textarea's value and the children. */
  lemma InnerHtmlRaw(env: Env, n: VNode, html: string)
    requires ValidEnv(env) && n.ElementNode? && !env.f.isVoidTag(n.tag)
    requires Lookup(n.props, "innerHTML") == String(html) && html != ""
    ensures Flatten(Emit(env, n).pushes) == OpenTag(env, n.id, n.tag, n.props, n.scopeId) + html + CloseTag(n.tag)
  {
    assert ChildrenOverride(env.f, n.props, n.tag) == Some(Text(html));
    OverrideText(env, n, Text(html));
  }

  /** A truthy `innerHTML` array of strings goes out as those strings, joined in order. */
  lemma InnerHtmlArrayJoined(env: Env, n: VNode, ss: seq<string>)
    requires ValidEnv(env) && n.ElementNode? && !env.f.isVoidTag(n.tag)
    requires Lookup(n.props, "innerHTML") == Array(seq(|ss|, i requires 0 <= i < |ss| => String(ss[i])))
    ensures Flatten(Emit(env, n).pushes) == OpenTag(env, n.id, n.tag, n.props, n.scopeId) + Concat(ss) + CloseTag(n.tag)
  {
    var c := RawChunk(Lookup(n.props, "innerHTML"));
    assert ChildrenOverride(env.f, n.props, n.tag) == Some(c);
    OverrideText(env, n, c);
    RawStringsJoined(ss);
  }

  /** A component node stands for the text of its buffer, settled or not,
      and files its sub-tree's teleport entries exactly when it renders at once. */
  lemma ComponentOutput(env: Env, out: ExactBuffer, async: bool, filed: ExactRegistrations)
    requires ValidEnv(env)
    ensures Flatten(Emit(env, ComponentNode(out, async, filed)).pushes) == Flatten(out.items)
    ensures Emit(env, ComponentNode(out, async, filed)).regs == if async then [] else filed
  {
    FlattenOne(ComponentChunk(out, async));
  }

  /** Without `innerHTML`, a truthy `textContent` is escaped, ahead of a
      textarea's value and the children. */
  lemma TextContentEscaped(env: Env, n: VNode)
    requires ValidEnv(env) && n.ElementNode? && !env.f.isVoidTag(n.tag)
    requires !Truthy(Lookup(n.props, "innerHTML")) && Truthy(Lookup(n.props, "textContent"))
    ensures Flatten(Emit(env, n).pushes)
         == OpenTag(env, n.id, n.tag, n.props, n.scopeId)
            + env.f.escapeHtml(env.f.jsString(Lookup(n.props, "textContent"))) + CloseTag(n.tag)
  {
    var c := Text(env.f.escapeHtml(env.f.jsString(Lookup(n.props, "textContent"))));
    assert ChildrenOverride(env.f, n.props, n.tag) == Some(c);
    OverrideText(env, n, c);
  }

  /** A textarea's truthy `value` is its escaped content when neither
      `innerHTML` nor `textContent` is set, and is never an attribute. */
  lemma TextareaValueIsContent(env: Env, n: VNode)
    requires ValidEnv(env) && n.ElementNode? && n.tag == "textarea" && !env.f.isVoidTag(n.tag)
    requires !Truthy(Lookup(n.props, "innerHTML")) && !Truthy(Lookup(n.props, "textContent"))
    requires Truthy(Lookup(n.props, "value"))
    ensures Flatten(Emit(env, n).pushes)
         == OpenTag(env, n.id, n.tag, n.props, n.scopeId)
            + env.f.escapeHtml(env.f.jsString(Lookup(n.props, "value"))) + CloseTag(n.tag)
    ensures ShouldSkip("value", n.tag)
  {
    var c := Text(env.f.escapeHtml(env.f.jsString(Lookup(n.props, "value"))));
    assert ChildrenOverride(env.f, n.props, n.tag) == Some(c);
    OverrideText(env, n, c);
  }

  /** With no override, text children are escaped and array children are
      rendered in place between the tags. */
  lemma ChildrenBetweenTags(env: Env, n: VNode)
    requires ValidEnv(env) && n.ElementNode? && !env.f.isVoidTag(n.tag)
    requires ChildrenOverride(env.f, n.props, n.tag).None?
    ensures n.elementChildren.TextChildren? ==>
      Flatten(Emit(env, n).pushes)
        == OpenTag(env, n.id, n.tag, n.props, n.scopeId) + env.f.escapeHtml(n.elementChildren.text) + CloseTag(n.tag)
    ensures n.elementChildren.ArrayChildren? ==>
      Flatten(Emit(env, n).pushes)
        == OpenTag(env, n.id, n.tag, n.props, n.scopeId)
           + Flatten(EmitChildren(env, n.elementChildren.nodes).pushes) + CloseTag(n.tag)
    ensures n.elementChildren.NoChildren? ==>
      Flatten(Emit(env, n).pushes) == OpenTag(env, n.id, n.tag, n.props, n.scopeId) + CloseTag(n.tag)
  {
    ChildrenText(env, n);
    match n.elementChildren {
      case TextChildren(t) =>
        assert EmitElementChildren(env, n.elementChildren).pushes == [Text(env.f.escapeHtml(t))];
        FlattenOne(Text(env.f.escapeHtml(t)));
      case ArrayChildren(ns) =>
        assert EmitElementChildren(env, n.elementChildren) == EmitChildren(env, ns);
      case NoChildren =>
        assert EmitElementChildren(env, n.elementChildren).pushes == [];
    }
  }

  /** A comment with no text is `<!---->`; otherwise its text is escaped for a comment. */
  lemma CommentText(env: Env, t: string)
    requires ValidEnv(env)
    ensures Flatten(Emit(env, CommentNode(t)).pushes)
         == if t == "" then "<!---->" else "<!--" + env.f.escapeHtmlComment(t) + "-->"
  {
    FlattenOne(Text(Render.CommentText(env.f, t)));
  }

  /** A fragment is bracketed by `<!--[-->` and `<!--]-->`. */
  lemma FragmentBracketed(env: Env, ns: seq<VNode>)
    requires ValidEnv(env)
    ensures Flatten(Emit(env, FragmentNode(ns)).pushes)
         == FragmentOpen + Flatten(EmitChildren(env, ns).pushes) + FragmentClose
    ensures Emit(env, FragmentNode(ns)).regs == EmitChildren(env, ns).regs
  {
    FlattenThree(Text(FragmentOpen), EmitChildren(env, ns).pushes, Text(FragmentClose));
  }

  /** A teleport without a non-empty string target renders and files nothing. */
  lemma TeleportWithoutTarget(env: Env, props: seq<Prop>, ns: seq<VNode>)
    requires ValidEnv(env)
    requires !(Lookup(props, "to").String? && Lookup(props, "to").s != "")
    ensures Emit(env, TeleportNode(props, ns)) == Nothing
  {
    var n := TeleportNode(props, ns);
    assert TeleportTarget(props).None?;
    assert Emit(env, n) == EmitTeleport(env, n);
  }

  /** A teleport with a target: the parent gets the two markers, with the
      content between them only when disabled; the target gets one entry,
      after those of the teleports nested in the content. */
  lemma TeleportOutput(env: Env, props: seq<Prop>, ns: seq<VNode>)
    requires ValidEnv(env)
    requires Lookup(props, "to").String? && Lookup(props, "to").s != ""
    ensures var e := Emit(env, TeleportNode(props, ns));
            var content := EmitChildren(env, ns);
            var disabled := TeleportDisabled(props);
            && Flatten(e.pushes)
               == TeleportStart + (if disabled then Flatten(content.pushes) else "") + TeleportEnd
            && e.regs == content.regs + [Registration(Lookup(props, "to").s, TargetEntry(content.pushes, disabled))]
            && FlattenChunk(TargetEntry(content.pushes, disabled))
               == if disabled then Anchor else Flatten(content.pushes) + Anchor
  {
    var n := TeleportNode(props, ns);
    var content := EmitChildren(env, ns);
    var disabled := TeleportDisabled(props);
    assert TeleportTarget(props) == Some(Lookup(props, "to").s);
    assert Emit(env, n) == EmitTeleport(env, n);
    assert EmitTeleport(env, n).pushes == ParentPushes(content.pushes, disabled);
    ParentText(content.pushes, disabled);
    TargetEntryText(content.pushes, disabled);
  }

  lemma DivOpenTag(env: Env, props: seq<Prop>)
    requires ValidEnv(env) && env.parent.None?
    requires env.f.normalizeClass(String("a")) == "a" && env.f.escapeHtml("a") == "a"
    requires props == [Prop("class", String("a"))]
    ensures OpenTag(env, 0, "div", props, "") == "<div class=\"a\">"
  {
    var p := props[0];
    assert !ShouldSkip(p.key, "div");
    assert PropText(env.f, p, "div") == " class=\"a\"";
    assert Piece(env.f, p, "div") == " class=\"a\"";
    AttrsTextOne(env.f, p, "div");
    assert props == [p];
    assert ResolveScopeId(env.arena, "", 0, env.parent) == "";
  }

  lemma ClassOnlyNoOverride(f: Facade, tag: string)
    ensures ChildrenOverride(f, [Prop("class", String("a"))], tag).None?
  {
    var props := [Prop("class", String("a"))];
    assert !HasKey(props, "innerHTML") && !HasKey(props, "textContent") && !HasKey(props, "value");
  }

  /** `<div class="a">` followed by the text and `</div>`, for helpers that
      leave these strings alone. */
  lemma DivWithClass(env: Env, n: VNode, text: string)
    requires ValidEnv(env) && env.parent.None?
    requires !env.f.isVoidTag("div")
    requires env.f.normalizeClass(String("a")) == "a" && env.f.escapeHtml("a") == "a"
    requires env.f.escapeHtml(text) == text
    requires n == ElementNode(0, "div", [Prop("class", String("a"))], TextChildren(text), "")
    ensures Flatten(Emit(env, n).pushes) == "<div class=\"a\">" + text + "</div>"
  {
    var open := OpenTag(env, n.id, n.tag, n.props, n.scopeId);
    DivOpenTag(env, n.props);
    ClassOnlyNoOverride(env.f, n.tag);
    ChildrenBetweenTags(env, n);
    assert CloseTag(n.tag) == "</div>";
  }


}
