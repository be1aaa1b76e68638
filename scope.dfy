/** Component instances as the renderer sees them, scope-id resolution
    (`resolveScopeId`) and the choices `renderComponentSubTree` makes before
    it hands over to a render function. */
module Components {
  import opened Shared

  /** One component instance. Instances live in an arena and are named by
      their index; vnodes are named by numbers, so `vnode === parent.subTree`
      compares two numbers. A scope id of "" stands for an absent one. */
  datatype Instance = Instance(
    typeScopeId: string,        // instance.type.__scopeId
    vnode: nat,                 // instance.vnode
    vnodeScopeId: string,       // instance.vnode.scopeId
    subTree: Option<nat>,       // instance.subTree, once rendered
    parent: Option<nat>)        // instance.parent

  /** A parent is always created before its children. */
  predicate WellFormed(arena: seq<Instance>)
  {
    forall k :: 0 <= k < |arena| ==> arena[k].parent.Some? ==> arena[k].parent.value < k
  }

  predicate InArena(arena: seq<Instance>, c: Option<nat>)
  {
    c.Some? ==> c.value < |arena|
  }

  /** ` ${scopeId}` when the vnode has a scope id. */
  function OwnAttr(scopeId: string): string
  {
    if scopeId != "" then " " + scopeId else ""
  }

  /** ` ${treeOwnerId}-s` when the rendering component's scope id is set and
      differs from the vnode's own: the vnode is slot content. */
  function SlotAttr(treeOwnerId: string, scopeId: string): string
  {
    if treeOwnerId != "" && treeOwnerId != scopeId then " " + treeOwnerId + "-s" else ""
  }

  /** The vnode is the root of the sub-tree of component `parent`. */
  predicate IsSubTreeRoot(arena: seq<Instance>, vnodeId: nat, parent: Option<nat>)
    requires InArena(arena, parent)
  {
    parent.Some? && arena[parent.value].subTree == Some(vnodeId)
  }

  /** `resolveScopeId(scopeId, vnode, parentComponent)`. */
  function ResolveScopeId(arena: seq<Instance>, scopeId: string, vnodeId: nat, parent: Option<nat>): (r: string)
    requires WellFormed(arena) && InArena(arena, parent)
    ensures parent.None? ==> r == OwnAttr(scopeId)
    ensures parent.Some? ==> OwnAttr(scopeId) + SlotAttr(arena[parent.value].typeScopeId, scopeId) <= r
    ensures parent.Some? && !IsSubTreeRoot(arena, vnodeId, parent) ==>
      r == OwnAttr(scopeId) + SlotAttr(arena[parent.value].typeScopeId, scopeId)
    decreases if parent.None? then 0 else parent.value + 1
  {
    var res := OwnAttr(scopeId);
    if parent.None? then res
    else
      var p := arena[parent.value];
      var res := res + SlotAttr(p.typeScopeId, scopeId);
      if p.subTree == Some(vnodeId) then
        var inherited := ResolveScopeId(arena, p.vnodeScopeId, p.vnode, p.parent);
        assert res <= res + inherited;
        res + inherited
      else res
  }

  /** Component `q` is reached from the vnode by climbing while the vnode is
      its component's sub-tree root. */
  predicate RootAncestor(arena: seq<Instance>, vnodeId: nat, parent: Option<nat>, q: nat)
    requires WellFormed(arena) && InArena(arena, parent)
    decreases if parent.None? then 0 else parent.value + 1
  {
    && IsSubTreeRoot(arena, vnodeId, parent)
    && var p := parent.value;
       (p == q || RootAncestor(arena, arena[p].vnode, arena[p].parent, q))
  }

  predicate EndsWith(s: string, t: string)
  {
    |t| <= |s| && s[|s| - |t|..] == t
  }

  /** `t` occurs in `s` starting at index `i`. */
  predicate OccursAt(t: string, s: string, i: int)
  {
    0 <= i <= |s| && t <= s[i..]
  }

  lemma EndsWithTrans(a: string, b: string, c: string)
    requires EndsWith(a, b) && EndsWith(b, c)
    ensures EndsWith(a, c)
  {
    assert a[|a| - |c|..] == a[|a| - |b|..][|b| - |c|..];
  }

  /** A root vnode carries the scope attributes of every component whose root
      it is, all the way up: they end the attribute string. */
  lemma {:induction false} AncestorScopeInherited(arena: seq<Instance>, scopeId: string, vnodeId: nat, parent: Option<nat>, q: nat)
    requires WellFormed(arena) && InArena(arena, parent)
    requires RootAncestor(arena, vnodeId, parent, q)
    ensures q < |arena|
    ensures EndsWith(ResolveScopeId(arena, scopeId, vnodeId, parent),
                     ResolveScopeId(arena, arena[q].vnodeScopeId, arena[q].vnode, arena[q].parent))
    decreases if parent.None? then 0 else parent.value + 1
  {
    var p := parent.value;
    var head := OwnAttr(scopeId) + SlotAttr(arena[p].typeScopeId, scopeId);
    var up := ResolveScopeId(arena, arena[p].vnodeScopeId, arena[p].vnode, arena[p].parent);
    var r := ResolveScopeId(arena, scopeId, vnodeId, parent);
    assert r == head + up;
    assert EndsWith(r, up) by {
      assert r[|r| - |up|..] == up;
    }
    if p != q {
      AncestorScopeInherited(arena, arena[p].vnodeScopeId, arena[p].vnode, arena[p].parent, q);
      EndsWithTrans(r, up, ResolveScopeId(arena, arena[q].vnodeScopeId, arena[q].vnode, arena[q].parent));
    }
  }

  /** The own scope id of every such component appears in the attribute string. */
  lemma AncestorOwnIdPresent(arena: seq<Instance>, scopeId: string, vnodeId: nat, parent: Option<nat>, q: nat)
    requires WellFormed(arena) && InArena(arena, parent)
    requires RootAncestor(arena, vnodeId, parent, q)
    ensures q < |arena|
    ensures OccursAt(OwnAttr(arena[q].vnodeScopeId), ResolveScopeId(arena, scopeId, vnodeId, parent),
                     |ResolveScopeId(arena, scopeId, vnodeId, parent)|
                     - |ResolveScopeId(arena, arena[q].vnodeScopeId, arena[q].vnode, arena[q].parent)|)
  {
    AncestorScopeInherited(arena, scopeId, vnodeId, parent, q);
    var r := ResolveScopeId(arena, scopeId, vnodeId, parent);
    var up := ResolveScopeId(arena, arena[q].vnodeScopeId, arena[q].vnode, arena[q].parent);
    var own := OwnAttr(arena[q].vnodeScopeId);
    var i := |r| - |up|;
    assert own <= up by {
      if arena[q].parent.Some? {
        assert own <= own + SlotAttr(arena[arena[q].parent.value].typeScopeId, arena[q].vnodeScopeId);
      }
    }
    assert r[i..] == up;
  }

  /** The fallthrough attributes `renderComponentSubTree` hands to an
      optimised render function: the instance's attrs unless `inheritAttrs`
      is false, copied and extended with the scope id and the slot scope id
      (each set to '') when either exists. None stands for `undefined`. */
  function ScopedAttrs(inheritAttrs: bool, attrs: seq<Prop>, scopeId: string, treeOwnerId: string): (r: Option<seq<Prop>>)
    ensures var slot := SlotScopeId(treeOwnerId, scopeId);
      && (r.None? <==> !inheritAttrs && scopeId == "" && slot == "")
      && (scopeId != "" ==> r.Some? && Lookup(r.value, scopeId) == String(""))
      && (slot != "" ==> r.Some? && Lookup(r.value, slot) == String(""))
      && (r.Some? ==> forall k :: k != scopeId && k != slot ==>
            Lookup(r.value, k) == if inheritAttrs then Lookup(attrs, k) else Undefined)
  {
    var slot := SlotScopeId(treeOwnerId, scopeId);
    var base := if inheritAttrs then Some(attrs) else None;
    if scopeId != "" || slot != "" then
      var copy := if base.Some? then base.value else [];
      var withOwn := if scopeId != "" then SetProp(copy, scopeId, String("")) else copy;
      Some(if slot != "" then SetProp(withOwn, slot, String("")) else withOwn)
    else base
  }

  /** The slot scope id: the owner's id with `-s` appended when it is set and
      differs from the vnode's own, otherwise absent (""). */
  function SlotScopeId(treeOwnerId: string, scopeId: string): (r: string)
    ensures r != "" <==> treeOwnerId != "" && treeOwnerId != scopeId
    ensures SlotAttr(treeOwnerId, scopeId) == if r == "" then "" else " " + r
  {
    if treeOwnerId != "" && treeOwnerId != scopeId then treeOwnerId + "-s" else ""
  }

  /** The three ways `renderComponentSubTree` renders a component. */
  datatype RenderPath =
    | RenderRoot      // renderVNode of renderComponentRoot(instance)
    | OptimizedSsr    // the compiled or hand-written ssrRender function
    | MissingRender   // a warning and `<!---->`

  /** The branch `renderComponentSubTree` takes. A template is compiled only
      when the component has no render function of either kind. */
  function ChooseRenderPath(isFunctional: bool, hasRender: bool, hasInstanceSsrRender: bool,
                            hasTypeSsrRender: bool, hasTemplate: bool): (r: RenderPath)
    ensures isFunctional ==> r == RenderRoot
    ensures !isFunctional ==>
      (r == OptimizedSsr <==> hasInstanceSsrRender || hasTypeSsrRender || (!hasRender && hasTemplate))
    ensures r == MissingRender <==>
      !isFunctional && !hasRender && !hasInstanceSsrRender && !hasTypeSsrRender && !hasTemplate
  {
    if isFunctional then RenderRoot
    else
      var compiled := !hasRender && !hasInstanceSsrRender && !hasTypeSsrRender && hasTemplate;
      var typeSsrRender := hasTypeSsrRender || compiled;
      if hasInstanceSsrRender || typeSsrRender then OptimizedSsr
      else if hasRender then RenderRoot
      else MissingRender
  }
}
