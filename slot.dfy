/** Slot rendering: `ssrRenderSlot` and the emptiness test it applies to
    what a compiled slot pushed (`isComment`). */
module Slots {
  import opened Shared
  import opened Buffers
  import opened Components
  import opened Teleports
  import opened Render

  /** A chunk built by `createBuffer` and `push`. */
  type ExactChunk = c: Chunk | ChunkFlagsExact(c) witness Text("")

  /** What calling a slot function does: the chunks it hands to the
      buffered push, in order, and what it returns (Some for an array of
      vnodes, the non-compiled form). */
  datatype SlotOutcome = SlotOutcome(pushed: seq<ExactChunk>, returned: Option<seq<VNode>>)

  /** A slot function, given the scope-id suffix it is called with. The
      slot props and the parent component are passed through to it
      unchanged and are not modelled. */
  type SlotFn = string -> SlotOutcome

  const SlotOpen := "<!--[-->"
  const SlotClose := "<!--]-->"

  // ----- the comment test -----

  /** The characters `.` does not match in a JavaScript regular expression. */
  predicate IsLineTerminator(c: char)
  {
    c == '\n' || c == '\r' || c == '\U{2028}' || c == '\U{2029}'
  }

  /** `<!--` starts at index `i` of `s`. */
  predicate OpenAt(s: string, i: int)
  {
    0 <= i && i + 4 <= |s| && s[i] == '<' && s[i + 1] == '!' && s[i + 2] == '-' && s[i + 3] == '-'
  }

  predicate StartsWithOpen(s: string)
  {
    OpenAt(s, 0)
  }

  predicate EndsWithClose(s: string)
  {
    |s| >= 3 && s[|s| - 3..] == "-->"
  }

  /** `/^<!--.*-->$/.test(s)`: an opener, any characters but line
      terminators, and a closer at the very end. */
  predicate CommentRE(s: string)
  {
    && |s| >= 7 && StartsWithOpen(s) && EndsWithClose(s)
    && forall i :: 4 <= i < |s| - 3 ==> !IsLineTerminator(s[i])
  }

  /** `isComment` as the source has it. */
  predicate IsCommentAsWritten(c: Chunk)
  {
    c.Text? && CommentRE(c.s)
  }

  /** `-->` starts at index `j` of `s`. */
  predicate CloseAt(s: string, j: int)
  {
    0 <= j && j + 3 <= |s| && s[j] == '-' && s[j + 1] == '-' && s[j + 2] == '>'
  }

  /** The first `-->` at or after `from`. */
  function FindClose(s: string, from: nat): (r: Option<nat>)
    ensures r.Some? ==> from <= r.value && CloseAt(s, r.value)
    ensures r.Some? ==> forall j :: from <= j < r.value ==> !CloseAt(s, j)
    ensures r.None? ==> forall j :: from <= j ==> !CloseAt(s, j)
    decreases |s| - from
  {
    if from + 3 > |s| then None
    else if CloseAt(s, from) then Some(from)
    else FindClose(s, from + 1)
  }

  /** `s` with every complete comment taken out, scanning left to right. */
  function Visible(s: string): (r: string)
    ensures |r| <= |s|
    decreases |s|
  {
    if StartsWithOpen(s) then
      match FindClose(s, 4)
      case Some(j) => Visible(s[j + 3..])
      case None => s
    else if s == [] then []
    else [s[0]] + Visible(s[1..])
  }

  predicate IsSpace(c: char)
  {
    c in {' ', '\t', '\n', '\r', '\U{000B}', '\U{000C}', '\U{00A0}', '\U{2028}', '\U{2029}', '\U{FEFF}'}
  }

  predicate Blank(s: string)
  {
    forall i :: 0 <= i < |s| ==> IsSpace(s[i])
  }

  /** The test the slot code means: the item is a string made of comments,
      with nothing but white space outside them. */
  predicate IsComment(c: Chunk)
  {
    c.Text? && |c.s| >= 7 && StartsWithOpen(c.s) && EndsWithClose(c.s) && Blank(Visible(c.s))
  }

  /** `-->` first occurs in `m + "-->"` at its end. */
  predicate ClosesOnlyAtEnd(m: string)
  {
    forall j :: 0 <= j < |m| ==> !CloseAt(m + "-->", j)
  }

  /** A character that does not open a comment stays visible. */
  lemma VisibleCons(c: char, s: string)
    requires !StartsWithOpen([c] + s)
    ensures Visible([c] + s) == [c] + Visible(s)
  {
    assert ([c] + s)[1..] == s;
  }

  /** Text in which no comment opens stays visible as it is. */
  lemma {:induction false} VisibleNoOpen(t: string, rest: string)
    requires forall i :: 0 <= i < |t| ==> !OpenAt(t + rest, i)
    ensures Visible(t + rest) == t + Visible(rest)
    decreases |t|
  {
    if t == [] {
      assert t + rest == rest;
    } else {
      VisibleNoOpenStep(t, rest);
      VisibleNoOpen(t[1..], rest);
      ConsAppend(t, Visible(rest));
    }
  }

  lemma ConsAppend(t: string, v: string)
    requires t != []
    ensures [t[0]] + (t[1..] + v) == t + v
  {
    assert t == [t[0]] + t[1..];
  }

  /** One step of `VisibleNoOpen`: the first character stays, and no comment
      opens in the remaining text either. */
  lemma VisibleNoOpenStep(t: string, rest: string)
    requires t != []
    requires forall i :: 0 <= i < |t| ==> !OpenAt(t + rest, i)
    ensures Visible(t + rest) == [t[0]] + Visible(t[1..] + rest)
    ensures forall i :: 0 <= i < |t| - 1 ==> !OpenAt(t[1..] + rest, i)
  {
    var u := t[1..] + rest;
    assert t + rest == [t[0]] + u;
    assert !OpenAt(t + rest, 0);
    VisibleCons(t[0], u);
    forall i | 0 <= i < |t| - 1
      ensures !OpenAt(u, i)
    {
      assert !OpenAt(t + rest, i + 1);
    }
  }

  /** The comment `<!--m-->`. */
  function Comment(m: string): string
  {
    "<!--" + m + "-->"
  }

  /** Taking out a leading comment `<!--m-->`. */
  lemma VisibleAfterComment(m: string, rest: string)
    requires ClosesOnlyAtEnd(m)
    ensures Visible(Comment(m) + rest) == Visible(rest)
  {
    var s := Comment(m) + rest;
    var t := m + "-->";
    assert forall j :: 4 <= j < 4 + |m| ==> (CloseAt(s, j) <==> CloseAt(t, j - 4));
    assert CloseAt(s, 4 + |m|);
    assert FindClose(s, 4) == Some(4 + |m|);
    assert StartsWithOpen(s);
    assert s[4 + |m| + 3..] == rest;
  }

  /** Markup `t` between two comments, all in one string, passes the
      source's test, so a slot that pushed it would be taken as empty and
      replaced by its fallback; the intended test keeps it. */
  lemma ContentBetweenCommentsAsWritten(a: string, t: string, c: string)
    requires ClosesOnlyAtEnd(a) && ClosesOnlyAtEnd(c)
    requires forall i :: 0 <= i < |t| ==> !OpenAt(t + Comment(c), i)
    requires forall i :: 0 <= i < |a| ==> !IsLineTerminator(a[i])
    requires forall i :: 0 <= i < |t| ==> !IsLineTerminator(t[i])
    requires forall i :: 0 <= i < |c| ==> !IsLineTerminator(c[i])
    requires !Blank(t)
    ensures IsCommentAsWritten(Text(Comment(a) + t + Comment(c)))
    ensures Visible(Comment(a) + t + Comment(c)) == t
    ensures !IsComment(Text(Comment(a) + t + Comment(c)))
  {
    SandwichVisible(a, t, c);
    SandwichPassesRE(a, t, c);
  }

  lemma SandwichVisible(a: string, t: string, c: string)
    requires ClosesOnlyAtEnd(a) && ClosesOnlyAtEnd(c)
    requires forall i :: 0 <= i < |t| ==> !OpenAt(t + Comment(c), i)
    ensures Visible(Comment(a) + t + Comment(c)) == t
  {
    var tail := Comment(c);
    assert Comment(a) + t + tail == Comment(a) + (t + tail);
    VisibleAfterComment(a, t + tail);
    VisibleNoOpen(t, tail);
    VisibleAfterComment(c, []);
    assert tail + [] == tail;
    assert Visible(tail) == [];
    assert t + Visible(tail) == t;
  }

  lemma SandwichPassesRE(a: string, t: string, c: string)
    requires forall i :: 0 <= i < |a| ==> !IsLineTerminator(a[i])
    requires forall i :: 0 <= i < |t| ==> !IsLineTerminator(t[i])
    requires forall i :: 0 <= i < |c| ==> !IsLineTerminator(c[i])
    ensures IsCommentAsWritten(Text(Comment(a) + t + Comment(c)))
  {
    var s := Comment(a) + t + Comment(c);
    assert s[|s| - 3..] == "-->";
    assert StartsWithOpen(s);
    forall i | 4 <= i < |s| - 3 ensures !IsLineTerminator(s[i]) {
      if i < 4 + |a| { assert s[i] == a[i - 4]; }
      else if i < 7 + |a| { }
      else if i < 7 + |a| + |t| { assert s[i] == t[i - 7 - |a|]; }
      else if i < 11 + |a| + |t| { }
      else { assert s[i] == c[i - 11 - |a| - |t|]; }
    }
  }

  /** `<!--a--><b>x</b><!--c-->` is such a string. */
  lemma BoldBetweenCommentsQualifies()
    ensures ClosesOnlyAtEnd("a") && ClosesOnlyAtEnd("c")
    ensures forall i :: 0 <= i < |"<b>x</b>"| ==> !OpenAt("<b>x</b>" + Comment("c"), i)
    ensures !Blank("<b>x</b>")
    ensures Comment("a") + "<b>x</b>" + Comment("c") == "<!--a--><b>x</b><!--c-->"
  {
    assert !IsSpace("<b>x</b>"[0]);
  }

  /** One well-formed comment passes the intended test, and the source's
      test too when its text has no line break. */
  lemma SingleCommentAccepted(m: string)
    requires ClosesOnlyAtEnd(m)
    ensures IsComment(Text(Comment(m)))
    ensures (forall i :: 0 <= i < |m| ==> !IsLineTerminator(m[i])) ==> IsCommentAsWritten(Text(Comment(m)))
  {
    var s := Comment(m);
    var t := m + "-->";
    assert forall j :: 4 <= j < 4 + |m| ==> (CloseAt(s, j) <==> CloseAt(t, j - 4));
    assert CloseAt(s, 4 + |m|);
    assert FindClose(s, 4) == Some(4 + |m|);
    assert s[4 + |m| + 3..] == "";
    assert Visible(s) == "";
    assert s[|s| - 3..] == "-->";
    assert s[..4] == "<!--";
    if forall i :: 0 <= i < |m| ==> !IsLineTerminator(m[i]) {
      assert forall i :: 4 <= i < |s| - 3 ==> s[i] == m[i - 4];
    }
  }

  /** The short comments the renderer itself writes count as empty. */
  lemma RendererCommentsAreComments()
    ensures IsComment(Text("<!---->")) && IsComment(Text(SlotOpen)) && IsComment(Text(SlotClose))
  {
    assert ClosesOnlyAtEnd("");
    SingleCommentAccepted("");
    assert Comment("") == "<!---->";
    assert ClosesOnlyAtEnd("[");
    SingleCommentAccepted("[");
    assert Comment("[") == SlotOpen;
    assert ClosesOnlyAtEnd("]");
    SingleCommentAccepted("]");
    assert Comment("]") == SlotClose;
  }

  // ----- ssrRenderSlot -----

  predicate AllComments(items: seq<Chunk>)
  {
    forall i :: 0 <= i < |items| ==> IsComment(items[i])
  }

  /** The `isEmptySlot` loop: true until a captured item is not a comment. */
  method IsEmptySlot(slotBuffer: seq<Chunk>) returns (isEmptySlot: bool)
    ensures isEmptySlot <==> AllComments(slotBuffer)
  {
    isEmptySlot := true;
    var i := 0;
    while i < |slotBuffer|
      invariant 0 <= i <= |slotBuffer|
      invariant forall j :: 0 <= j < i ==> IsComment(slotBuffer[j])
    {
      if !IsComment(slotBuffer[i]) {
        isEmptySlot := false;
        break;
      }
      i := i + 1;
    }
  }

  /** The suffix handed to the slot function: ` ${scopeId}-s` for a
      parent component with a scope id, otherwise ''. */
  function SlotScopeSuffix(env: Env): string
    requires ValidEnv(env)
  {
    if env.parent.Some? && env.arena[env.parent.value].typeScopeId != "" then
      " " + env.arena[env.parent.value].typeScopeId + "-s"
    else ""
  }

  /** What a fallback function pushes, if there is one. */
  function FallbackEmission(fallback: Option<seq<ExactChunk>>): Emission
  {
    if fallback.Some? then Pushing(fallback.value) else Nothing
  }

  /** What `ssrRenderSlot` puts between the fragment markers. */
  function SlotBody(env: Env, slots: map<string, SlotFn>, name: string, fallback: Option<seq<ExactChunk>>): Emission
    requires ValidEnv(env)
  {
    if name in slots then
      var out := slots[name](SlotScopeSuffix(env));
      if out.returned.Some? then EmitChildren(env, out.returned.value)
      else if AllComments(out.pushed) then FallbackEmission(fallback)
      else Pushing(out.pushed)
    else FallbackEmission(fallback)
  }

  function EmitSlot(env: Env, slots: map<string, SlotFn>, name: string, fallback: Option<seq<ExactChunk>>): Emission
    requires ValidEnv(env)
  {
    Then(Then(Pushing([Text(SlotOpen)]), SlotBody(env, slots, name, fallback)), Pushing([Text(SlotClose)]))
  }

  /** `ssrRenderSlot(slots, slotName, slotProps, fallbackRenderFn, push, parentComponent)`. */
  method RenderSlot(env: Env, buf: Buffer, ctx: RenderContext, slots: map<string, SlotFn>, name: string,
                    fallback: Option<seq<ExactChunk>>)
    requires ValidEnv(env) && buf.Valid() && ctx.Valid()
    modifies buf, ctx
    ensures buf.Valid() && ctx.Valid()
    ensures buf.State() == PushedAll(old(buf.State()), EmitSlot(env, slots, name, fallback).pushes)
    ensures ctx.teleportBuffers == RegisteredAll(old(ctx.teleportBuffers), EmitSlot(env, slots, name, fallback).regs)
    ensures ctx.teleports == old(ctx.teleports)
  {
    ghost var st0, tb0 := buf.State(), ctx.teleportBuffers;
    ghost var body := SlotBody(env, slots, name, fallback);
    PushStep(buf, Text(SlotOpen));
    RenderSlotBody(env, buf, ctx, slots, name, fallback);
    ThenStep(st0, tb0, Pushing([Text(SlotOpen)]), body);
    PushStep(buf, Text(SlotClose));
    ThenStep(st0, tb0, Then(Pushing([Text(SlotOpen)]), body), Pushing([Text(SlotClose)]));
  }

  /** The part of `ssrRenderSlot` between the markers. */
  method RenderSlotBody(env: Env, buf: Buffer, ctx: RenderContext, slots: map<string, SlotFn>, name: string,
                        fallback: Option<seq<ExactChunk>>)
    requires ValidEnv(env) && buf.Valid() && ctx.Valid()
    modifies buf, ctx
    ensures buf.Valid() && ctx.Valid()
    ensures buf.State() == PushedAll(old(buf.State()), SlotBody(env, slots, name, fallback).pushes)
    ensures ctx.teleportBuffers == RegisteredAll(old(ctx.teleportBuffers), SlotBody(env, slots, name, fallback).regs)
    ensures ctx.teleports == old(ctx.teleports)
  {
    ghost var body := SlotBody(env, slots, name, fallback);
    if name in slots {
      var scopeId := SlotScopeSuffix(env);
      var ret := slots[name](scopeId);
      var slotBuffer := ret.pushed;
      if ret.returned.Some? {
        assert body == EmitChildren(env, ret.returned.value);
        RenderVNodeChildren(env, buf, ret.returned.value, ctx);
      } else {
        var isEmptySlot := IsEmptySlot(slotBuffer);
        if isEmptySlot {
          assert body == FallbackEmission(fallback);
          RenderFallback(buf, fallback);
        } else {
          assert body == Pushing(slotBuffer);
          buf.PushEach(slotBuffer);
        }
      }
    } else {
      assert body == FallbackEmission(fallback);
      RenderFallback(buf, fallback);
    }
  }

  /** `if (fallbackRenderFn) fallbackRenderFn()`. */
  method RenderFallback(buf: Buffer, fallback: Option<seq<ExactChunk>>)
    requires buf.Valid()
    modifies buf
    ensures buf.Valid() && buf.State() == PushedAll(old(buf.State()), FallbackEmission(fallback).pushes)
    ensures FallbackEmission(fallback).regs == []
  {
    if fallback.Some? {
      buf.PushEach(fallback.value);
    }
  }

  // ----- what the slot output says -----

  /** The output of a slot is always bracketed by `<!--[-->` and `<!--]-->`. */
  lemma SlotBracketed(env: Env, slots: map<string, SlotFn>, name: string, fallback: Option<seq<ExactChunk>>)
    requires ValidEnv(env)
    ensures Flatten(EmitSlot(env, slots, name, fallback).pushes)
         == SlotOpen + Flatten(SlotBody(env, slots, name, fallback).pushes) + SlotClose
  {
    var body := SlotBody(env, slots, name, fallback).pushes;
    FlattenAppend([Text(SlotOpen)] + body, [Text(SlotClose)]);
    FlattenAppend([Text(SlotOpen)], body);
    assert [Text(SlotOpen)][..0] == [] && [Text(SlotClose)][..0] == [];
  }

  /** A compiled slot that pushed only comments (or nothing) gives way to
      the fallback, and none of what it pushed is kept; one that pushed
      anything else is kept verbatim, in order, and the fallback does not run. */
  lemma CompiledSlotChoice(env: Env, slots: map<string, SlotFn>, name: string, fallback: Option<seq<ExactChunk>>)
    requires ValidEnv(env) && name in slots && slots[name](SlotScopeSuffix(env)).returned.None?
    ensures var pushed := slots[name](SlotScopeSuffix(env)).pushed;
            && (AllComments(pushed) ==> SlotBody(env, slots, name, fallback) == FallbackEmission(fallback))
            && (!AllComments(pushed) ==> SlotBody(env, slots, name, fallback) == Pushing(pushed))
            && (pushed == [] ==> SlotBody(env, slots, name, fallback) == FallbackEmission(fallback))
  {
  }

  /** A slot that pushed only the renderer's own comment markers counts as empty. */
  lemma MarkerOnlySlotIsEmpty(env: Env, slots: map<string, SlotFn>, name: string, fallback: Option<seq<ExactChunk>>)
    requires ValidEnv(env) && name in slots
    requires slots[name](SlotScopeSuffix(env)) == SlotOutcome([Text(SlotOpen), Text(SlotClose)], None)
    ensures SlotBody(env, slots, name, fallback) == FallbackEmission(fallback)
  {
    RendererCommentsAreComments();
    var pushed := [Text(SlotOpen), Text(SlotClose)];
    assert forall i :: 0 <= i < |pushed| ==> IsComment(pushed[i]);
  }

  /** A missing slot renders the fallback, or nothing without one. */
  lemma MissingSlotUsesFallback(env: Env, slots: map<string, SlotFn>, name: string, fallback: Option<seq<ExactChunk>>)
    requires ValidEnv(env) && name !in slots
    ensures Flatten(EmitSlot(env, slots, name, fallback).pushes)
         == SlotOpen + (if fallback.Some? then Flatten(fallback.value) else "") + SlotClose
  {
    SlotBracketed(env, slots, name, fallback);
  }

  /** A slot returning vnodes renders them in place; what it pushed is dropped. */
  lemma VNodeSlotRendersChildren(env: Env, slots: map<string, SlotFn>, name: string, fallback: Option<seq<ExactChunk>>)
    requires ValidEnv(env) && name in slots && slots[name](SlotScopeSuffix(env)).returned.Some?
    ensures Flatten(EmitSlot(env, slots, name, fallback).pushes)
         == SlotOpen + Flatten(EmitChildren(env, slots[name](SlotScopeSuffix(env)).returned.value).pushes) + SlotClose
  {
    SlotBracketed(env, slots, name, fallback);
  }

  /** The suffix carries the rendering component's scope id, as the slot
      attribute of `resolveScopeId` does for a vnode without one. */
  lemma SlotSuffixMatchesScopeAttr(env: Env)
    requires ValidEnv(env) && env.parent.Some?
    ensures SlotScopeSuffix(env) == SlotAttr(env.arena[env.parent.value].typeScopeId, "")
  {
  }
}
