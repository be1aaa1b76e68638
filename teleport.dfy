/** Teleports: `ssrRenderTeleport` files the content of each teleport under
    its target in the render context, and `resolveTeleports` turns every
    target's list into one string. */
module Teleports {
  import opened Buffers
  import opened Unroll
  import opened Shared

  /** `context.__teleportBuffers`: target selector to the entries filed for it,
      oldest first. The object exists exactly when the map is not empty. */
  type TeleportBuffers = map<string, seq<Chunk>>

  const TeleportStart := "<!--teleport start-->"
  const TeleportEnd := "<!--teleport end-->"
  /** The anchor written where an enabled teleport's content ends, and the
      whole entry of a disabled one. */
  const Anchor := "<!---->"

  /** The list filed under `target`, empty when there is none. */
  function ListFor(tb: TeleportBuffers, target: string): seq<Chunk>
  {
    if target in tb then tb[target] else []
  }

  /** Filing `entry` under `target`: the list gains it at its end. */
  function Registered(tb: TeleportBuffers, target: string, entry: Chunk): (r: TeleportBuffers)
    ensures r.Keys == tb.Keys + {target}
    ensures forall k :: ListFor(r, k) == if k == target then ListFor(tb, k) + [entry] else ListFor(tb, k)
  {
    tb[target := ListFor(tb, target) + [entry]]
  }

  /** One call of `ssrRenderTeleport`, as far as the target lists see it. */
  datatype Registration = Registration(target: string, entry: Chunk)

  function RegisteredAll(tb: TeleportBuffers, regs: seq<Registration>): TeleportBuffers
  {
    if regs == [] then tb
    else
      var last := regs[|regs| - 1];
      Registered(RegisteredAll(tb, regs[..|regs| - 1]), last.target, last.entry)
  }

  lemma {:induction false} RegisteredAllAppend(tb: TeleportBuffers, a: seq<Registration>, b: seq<Registration>)
    ensures RegisteredAll(RegisteredAll(tb, a), b) == RegisteredAll(tb, a + b)
    decreases |b|
  {
    if b == [] {
      assert a + b == a;
    } else {
      var n := |b| - 1;
      assert (a + b)[..|a + b| - 1] == a + b[..n];
      RegisteredAllAppend(tb, a, b[..n]);
    }
  }

  /** The entries of `regs` filed under `target`, in call order. */
  function EntriesFor(regs: seq<Registration>, target: string): seq<Chunk>
  {
    if regs == [] then []
    else
      var last := regs[|regs| - 1];
      EntriesFor(regs[..|regs| - 1], target) + (if last.target == target then [last.entry] else [])
  }

  /** Teleport collection is ordered: after any run of registrations each
      target's list is its old list followed by the entries filed under it,
      in the order the teleports were rendered; a key exists exactly when
      it existed before or something was filed under it. */
  lemma {:induction false} RegistrationOrder(tb: TeleportBuffers, regs: seq<Registration>, target: string)
    ensures ListFor(RegisteredAll(tb, regs), target) == ListFor(tb, target) + EntriesFor(regs, target)
    ensures target in RegisteredAll(tb, regs) <==> target in tb || EntriesFor(regs, target) != []
    decreases |regs|
  {
    if regs == [] {
      assert ListFor(tb, target) + [] == ListFor(tb, target);
    } else {
      var n := |regs| - 1;
      RegistrationOrder(tb, regs[..n], target);
      if regs[n].target == target {
        assert ListFor(tb, target) + EntriesFor(regs[..n], target) + [regs[n].entry]
            == ListFor(tb, target) + (EntriesFor(regs[..n], target) + [regs[n].entry]);
      } else {
        assert EntriesFor(regs, target) == EntriesFor(regs[..n], target) + [];
      }
    }
  }

  /** What `ssrRenderTeleport` pushes to the parent buffer for content that
      pushes `content`: the two markers, and the content between them only
      when the teleport is disabled. */
  function ParentPushes(content: seq<Chunk>, disabled: bool): seq<Chunk>
  {
    [Text(TeleportStart)] + (if disabled then content else []) + [Text(TeleportEnd)]
  }

  /** The entry `ssrRenderTeleport` files: the anchor alone when disabled,
      otherwise a fresh buffer holding the content followed by the anchor. */
  function TargetEntry(content: seq<Chunk>, disabled: bool): Chunk
  {
    if disabled then Text(Anchor)
    else Child(ValueOf(PushedAll(Empty, content + [Text(Anchor)])))
  }

  lemma ParentText(content: seq<Chunk>, disabled: bool)
    ensures Flatten(ParentPushes(content, disabled))
         == TeleportStart + (if disabled then Flatten(content) else "") + TeleportEnd
  {
    var mid := if disabled then content else [];
    FlattenAppend([Text(TeleportStart)] + mid, [Text(TeleportEnd)]);
    FlattenAppend([Text(TeleportStart)], mid);
    assert Flatten([Text(TeleportStart)]) == TeleportStart by {
      assert [Text(TeleportStart)][..0] == [];
    }
    assert Flatten([Text(TeleportEnd)]) == TeleportEnd by {
      assert [Text(TeleportEnd)][..0] == [];
    }
  }

  lemma TargetEntryText(content: seq<Chunk>, disabled: bool)
    ensures FlattenChunk(TargetEntry(content, disabled))
         == if disabled then Anchor else Flatten(content) + Anchor
  {
    if !disabled {
      var xs := content + [Text(Anchor)];
      PushedAllText(Empty, xs);
      assert Flatten(Empty.items) == "";
      FlattenAppend(content, [Text(Anchor)]);
      assert Flatten([Text(Anchor)]) == Anchor by {
        assert [Text(Anchor)][..0] == [];
      }
      assert FlattenChunk(TargetEntry(content, disabled)) == Flatten(PushedAll(Empty, xs).items);
    }
  }

  lemma TargetEntryExact(content: seq<Chunk>, disabled: bool)
    requires forall i :: 0 <= i < |content| ==> ChunkFlagsExact(content[i])
    ensures ChunkFlagsExact(TargetEntry(content, disabled))
  {
    if !disabled {
      var xs := content + [Text(Anchor)];
      assert forall i :: 0 <= i < |xs| ==> ChunkFlagsExact(xs[i]) by {
        forall i | 0 <= i < |xs| ensures ChunkFlagsExact(xs[i]) {
          if i < |content| {
            assert xs[i] == content[i];
          }
        }
      }
      PushedAllExact(Empty, xs);
    }
  }

  /** Joining one target's entries as `resolveTeleports` does: the awaited
      list is a plain array without `hasAsync`, so the synchronous walk runs
      and every promise inside an entry contributes nothing. */
  method UnrollEntriesAsWritten(entries: seq<Chunk>) returns (s: string)
    ensures s == SyncText(entries)
  {
    s := UnrollBuffer(BufferValue(entries, false));
  }

  /** The same join with the array flagged as a buffer would be, so that
      async content inside a teleport is awaited. */
  method UnrollEntries(entries: seq<Chunk>) returns (s: string)
    requires forall i :: 0 <= i < |entries| ==> ChunkFlagsExact(entries[i])
    ensures s == Flatten(entries)
  {
    s := UnrollBuffer(BufferValue(entries, AnyAsync(entries)));
  }

  /** An enabled teleport whose content holds an async component rendering
      `s`: the synchronous join loses the component's text. */
  lemma AsyncTeleportContentLost(s: string)
    ensures var inner := BufferValue([Text(s)], false);
            var content := [Pending(SettledBuffer(inner))];
            var entries := [TargetEntry(content, false)];
            && (forall i :: 0 <= i < |entries| ==> ChunkFlagsExact(entries[i]))
            && SyncText(entries) == Anchor
            && Flatten(entries) == s + Anchor
  {
    var inner := BufferValue([Text(s)], false);
    var p := Pending(SettledBuffer(inner));
    var content := [p];
    var entry := TargetEntry(content, false);
    assert FlagsExact(inner) by {
      assert !IsAsync(inner.items[0]);
    }
    TargetEntryExact(content, false);
    SingleText(Text(s));
    SingleText(p);
    SingleText(Text(Anchor));
    SingleText(entry);
    var xs := content + [Text(Anchor)];
    PushedAllText(Empty, xs);
    SyncTextAppend(content, [Text(Anchor)]);
    FlattenAppend(content, [Text(Anchor)]);
  }

  /** The text of a one-chunk sequence is the chunk's text. */
  lemma SingleText(c: Chunk)
    ensures Flatten([c]) == FlattenChunk(c) && SyncText([c]) == SyncChunkText(c)
  {
    assert [c][..0] == [];
  }

  /** On content without promises both joins agree. */
  lemma JoinsAgreeWhenSync(entries: seq<Chunk>)
    requires SyncOnly(entries)
    ensures SyncText(entries) == Flatten(entries)
  {
    SyncWalkComplete(entries);
  }

  /** The render context's teleport state. */
  class RenderContext {
    var teleportBuffers: TeleportBuffers
    /** `context.teleports`; None until `resolveTeleports` creates it. */
    var teleports: Option<map<string, string>>

    /** Every filed entry was built by `createBuffer` and `push`. */
    predicate Valid()
      reads this
    {
      forall k :: k in teleportBuffers ==>
        forall i :: 0 <= i < |teleportBuffers[k]| ==> ChunkFlagsExact(teleportBuffers[k][i])
    }

    constructor (teleports: Option<map<string, string>>)
      ensures Valid() && teleportBuffers == map[] && this.teleports == teleports
    {
      teleportBuffers := map[];
      this.teleports := teleports;
    }

    /** The filing step of `ssrRenderTeleport`. */
    method Register(target: string, entry: Chunk)
      requires Valid() && ChunkFlagsExact(entry)
      modifies this
      ensures Valid()
      ensures teleportBuffers == Registered(old(teleportBuffers), target, entry)
      ensures teleports == old(teleports)
    {
      if target in teleportBuffers {
        teleportBuffers := teleportBuffers[target := teleportBuffers[target] + [entry]];
      } else {
        assert ListFor(teleportBuffers, target) + [entry] == [entry];
        teleportBuffers := teleportBuffers[target := [entry]];
      }
    }

    /** `resolveTeleports`, with each target's list joined by `UnrollEntries`:
        every target gets the text of its entries in filing order, other keys
        of an existing `teleports` object keep their values. */
    method ResolveTeleports()
      requires Valid()
      modifies this
      ensures Valid() && teleportBuffers == old(teleportBuffers)
      ensures old(teleportBuffers) == map[] ==> teleports == old(teleports)
      ensures old(teleportBuffers) != map[] ==> teleports.Some?
      ensures old(teleportBuffers) != map[] ==> forall k :: k in teleportBuffers ==>
        k in teleports.value && teleports.value[k] == Flatten(teleportBuffers[k])
      ensures old(teleportBuffers) != map[] ==> forall k :: k !in teleportBuffers ==>
        (k in teleports.value <==> old(teleports).Some? && k in old(teleports).value) &&
        (k in teleports.value ==> teleports.value[k] == old(teleports).value[k])
    {
      if teleportBuffers != map[] {
        var out := if teleports.Some? then teleports.value else map[];
        ghost var base := out;
        var keys := teleportBuffers.Keys;
        while keys != {}
          invariant teleportBuffers == old(teleportBuffers) && teleports == old(teleports)
          invariant keys <= teleportBuffers.Keys
          invariant forall k :: k in teleportBuffers && k !in keys ==> k in out && out[k] == Flatten(teleportBuffers[k])
          invariant forall k :: k !in teleportBuffers ==> (k in out <==> k in base) && (k in out ==> out[k] == base[k])
          decreases keys
        {
          var k :| k in keys;
          var text := UnrollEntries(teleportBuffers[k]);
          out := out[k := text];
          keys := keys - {k};
        }
        teleports := Some(out);
      }
    }
  }

  /** The entry of an enabled teleport: the content is rendered into a
      fresh buffer, followed by the end anchor. */
  method EnabledEntry(content: seq<Chunk>) returns (entry: Chunk)
    requires forall i :: 0 <= i < |content| ==> ChunkFlagsExact(content[i])
    ensures entry == TargetEntry(content, false)
  {
    var b := new Buffer();
    b.PushEach(content);
    b.Push(Text(Anchor));
    PushedAllOne(PushedAll(Empty, content), Text(Anchor));
    PushedAllAppend(Empty, content, [Text(Anchor)]);
    entry := Child(b.GetBuffer());
  }

  /** `ssrRenderTeleport(parentPush, contentRenderFn, target, disabled)` for a
      content function that pushes `content` and files no teleport itself. */
  method SsrRenderTeleport(parent: Buffer, content: seq<Chunk>, target: string, disabled: bool, ctx: RenderContext)
    requires parent.Valid() && ctx.Valid()
    requires forall i :: 0 <= i < |content| ==> ChunkFlagsExact(content[i])
    modifies parent, ctx
    ensures parent.Valid() && ctx.Valid()
    ensures parent.State() == PushedAll(old(parent.State()), ParentPushes(content, disabled))
    ensures ctx.teleportBuffers == Registered(old(ctx.teleportBuffers), target, TargetEntry(content, disabled))
    ensures ctx.teleports == old(ctx.teleports)
  {
    ghost var st0 := parent.State();
    var mid := if disabled then content else [];
    parent.Push(Text(TeleportStart));
    ghost var st1 := parent.State();
    var entry;
    if disabled {
      parent.PushEach(content);
      entry := Text(Anchor);
    } else {
      entry := EnabledEntry(content);
      assert parent.State() == st1 == PushedAll(st1, mid);
    }
    ghost var st2 := parent.State();
    assert st2 == PushedAll(st1, mid);
    TargetEntryExact(content, disabled);
    ctx.Register(target, entry);
    parent.Push(Text(TeleportEnd));
    PushedAllOne(st0, Text(TeleportStart));
    PushedAllAppend(st0, [Text(TeleportStart)], mid);
    PushedAllOne(st2, Text(TeleportEnd));
    PushedAllAppend(st0, [Text(TeleportStart)] + mid, [Text(TeleportEnd)]);
  }

  /** Two teleports to one target file their entries in render order. */
  lemma TwoEntriesInOrder(target: string, ea: Chunk, eb: Chunk)
    ensures ListFor(RegisteredAll(map[], [Registration(target, ea), Registration(target, eb)]), target) == [ea, eb]
  {
    var regs := [Registration(target, ea), Registration(target, eb)];
    RegistrationOrder(map[], regs, target);
    assert regs[..1] == [Registration(target, ea)] && regs[..1][..0] == [];
    assert EntriesFor(regs[..1], target) == [ea];
    assert EntriesFor(regs, target) == [ea] + [eb];
  }

  lemma FlattenTwo(a: Chunk, b: Chunk)
    ensures Flatten([a, b]) == FlattenChunk(a) + FlattenChunk(b)
  {
    assert [a, b][..1] == [a] && [a][..0] == [];
    assert Flatten([a]) == FlattenChunk(a);
    assert Flatten([a, b]) == Flatten([a]) + FlattenChunk(b);
  }

  /** Two enabled teleports to one target: the target's text is each
      content followed by its anchor, in render order. */
  lemma TwoTeleportsOneTarget(target: string, ca: seq<Chunk>, cb: seq<Chunk>)
    ensures var regs := [Registration(target, TargetEntry(ca, false)),
                         Registration(target, TargetEntry(cb, false))];
            Flatten(ListFor(RegisteredAll(map[], regs), target)) == Flatten(ca) + Anchor + Flatten(cb) + Anchor
  {
    var ea, eb := TargetEntry(ca, false), TargetEntry(cb, false);
    TwoEntriesInOrder(target, ea, eb);
    FlattenTwo(ea, eb);
    TargetEntryText(ca, false);
    TargetEntryText(cb, false);
    AppendAssoc(Flatten(ca) + Anchor, Flatten(cb), Anchor);
  }


}
