# A verified model of Vue's server renderer core

This project models the serialisation core of `@vue/server-renderer`
(`packages/server-renderer/dist/server-renderer.cjs.js`) in Dafny. The
renderer turns a tree of virtual nodes into HTML text. It writes into
*buffers*: arrays of strings, child buffers and promises. At the end it
flattens them, into one string or into a stream.

The model covers these parts of the renderer:

- **Buffers** (`buffer.dfy`, module `Buffers`). `createBuffer` is a class `Buffer` holding the array, the `appendable` flag and `hasAsync`. `push` coalesces adjacent strings in place. A promise is a chunk that wraps the value it settles to.
- **Unrollers** (`unroll.dfy`, module `Unroll`). `unrollBuffer` and `unrollBufferSync` flatten to a string. Their stream variants push fragments to a `Sink` class whose field is the list of strings the stream received.
- **Attributes** (`attrs.dfy`, module `Attrs`). `ssrRenderAttrs`, `ssrRenderDynamicAttr`, `ssrRenderAttr`, `isRenderableValue`, `ssrRenderClass` and `ssrRenderStyle`.
- **Scope ids and component render path** (`scope.dfy`, module `Components`).
  - Components live in an arena of instances, where a parent index is always smaller than its child's.
  - `resolveScopeId` recurses up that chain.
  - `renderComponentSubTree` is modelled for its fall-through attribute merge and its choice of render path.
- **Teleports** (`teleport.dfy`, module `Teleports`).
  - `ssrRenderTeleport` files each teleport's content under its target, in a `RenderContext` class that holds `__teleportBuffers` and `teleports`.
  - `resolveTeleports` joins every target's list.
- **Node rendering** (`render.dfy`, modules `Render` and `RenderFacts`). `renderVNode`, `renderVNodeChildren`, `renderElementVNode` and `renderTeleportVNode` are methods over a real `Buffer` and `RenderContext`. Each is proved to push and file exactly what the specification function `Emit` says. `RenderFacts` states what that means as text.
- **Slots** (`slot.dfy`, module `Slots`). `ssrRenderSlot` and the emptiness test `isComment`.
- **Template helpers** (`helpers.dfy`, module `Helpers`). `ssrRenderList`, `ssrLooseContain`, `ssrRenderDynamicModel` and `ssrGetDynamicModelProps`.
- **Parent-chain walks** (`errors.dfy`, module `Diagnostics`). The `errorCaptured` hook walk of `handleError`, and `getComponentTrace`.

The helpers of `@vue/shared` and the JavaScript built-ins the renderer calls are fields of a `Facade` datatype of total functions (`shared.dfy`). Every operation takes the facade as a parameter, so no proof depends on how escaping or normalisation is done. The facade covers:

- `escapeHtml`, `escapeHtmlComment` and `'' + value`;
- `normalizeClass` and the style stringifier;
- `isBooleanAttr`, `isSSRSafeAttrName`, `isVoidTag` and `propsToAttrMap`;
- `toLowerCase` and `looseEqual`.

`isOn` and the `isComment` regular expression are written out in full.

Modelling conventions:

- A JavaScript object is a sequence of properties in for-in order. `props[key]` is the first property with that key.
- A real JavaScript object has distinct keys. The models of objects assume this throughout. On a sequence with a repeated key, `Lookup` reads the first property and `Attrs.RenderAttrs` renders every copy. No real object gives such a sequence, so the difference never arises.
- A scope id of `""` stands for an absent one.
- A component vnode is opaque. It is the buffer `renderComponentVNode` returns for it, or a promise of that buffer, together with the teleport entries its sub-tree files while it renders.
- Every buffer the renderer builds comes from `createBuffer`. So a buffer's `hasAsync` says exactly whether a promise, or a child buffer with `hasAsync`, sits in it. The model states this as `FlagsExact` and keeps it as a class invariant.

Each enabled teleport's entry ends with a `<!---->` anchor (lines 110-113). So two enabled teleports to one target, with contents `a` and `b`, give that target the text `a<!---->b<!---->` (`Teleports.TwoTeleportsOneTarget`).

## Model

| member | source | states |
|---|---|---|
| Shared.Lookup | packages/server-renderer/dist/server-renderer.cjs.js:280-292 | `props[key]` is undefined when no property has that key |
| Shared.LookupFirst | packages/server-renderer/dist/server-renderer.cjs.js:280-292 | a key that is present reads the value of the first property with that key |
| Shared.LookupCons | packages/server-renderer/dist/server-renderer.cjs.js:280-292 | on an object whose first property is `p`, `p.key` reads `p.value` and every other key reads from the rest |
| Shared.SetProp | packages/server-renderer/dist/server-renderer.cjs.js:202-208 | after `attrs[key] = v`, `key` reads `v` and every other key reads what it read before |
| Buffers.Pushed | packages/server-renderer/dist/server-renderer.cjs.js:141-155 | `appendable` is only ever set right after a string entry |
| Buffers.PushedAll | packages/server-renderer/dist/server-renderer.cjs.js:141-155 | the same holds after any run of pushes |
| Buffers.PushShape | packages/server-renderer/dist/server-renderer.cjs.js:141-149 | a string after a string extends the last entry and keeps the length; any other push appends the item; `appendable` ends up true exactly when a string was pushed |
| Buffers.HasAsyncMonotone | packages/server-renderer/dist/server-renderer.cjs.js:150-154 | after a run of pushes, `hasAsync` is the old flag or'd with "some pushed item was a promise or an async child buffer"; it is never reset |
| Buffers.PushPreservesText | packages/server-renderer/dist/server-renderer.cjs.js:141-149 | coalescing does not change the output: after a push, the document text is the old text followed by the item's text, for both the full and the synchronous walk |
| Buffers.PushedAllText | packages/server-renderer/dist/server-renderer.cjs.js:141-155 | pushing a sequence appends that sequence's text, whatever was coalesced |
| Buffers.PushWellFormed | packages/server-renderer/dist/server-renderer.cjs.js:141-155 | any run of pushes keeps the buffer state well formed |
| Buffers.PushedWellFormed | packages/server-renderer/dist/server-renderer.cjs.js:141-155 | one push keeps the buffer state well formed: `appendable` only after a string, `hasAsync` exactly when an async chunk is present |
| Buffers.PushedAllAppend | packages/server-renderer/dist/server-renderer.cjs.js:141-155 | pushing `a` and then `b` gives the same state as pushing `a + b` |
| Buffers.PushedAllOne | packages/server-renderer/dist/server-renderer.cjs.js:141-155 | pushing a one-item sequence is one push |
| Buffers.PushedAllExact | packages/server-renderer/dist/server-renderer.cjs.js:150-154 | a buffer built by pushes of exactly flagged chunks has an exact `hasAsync` flag |
| Buffers.FlattenAppend | packages/server-renderer/dist/server-renderer.cjs.js:355-368 | the document text of `a + b` is the text of `a` followed by the text of `b` |
| Buffers.SyncTextAppend | packages/server-renderer/dist/server-renderer.cjs.js:376-389 | the synchronous walk's text of `a + b` is that of `a` followed by that of `b` |
| Buffers.FragmentsAppend | packages/server-renderer/dist/server-renderer.cjs.js:416-436 | the streamed fragments of `a + b` are those of `a` followed by those of `b` |
| Buffers.ConcatAppend | packages/server-renderer/dist/server-renderer.cjs.js:416-436 | joining `a + b` is joining `a` and then `b` |
| Buffers.FragmentsConcat | packages/server-renderer/dist/server-renderer.cjs.js:416-436 | the fragments the stream walk hands out join to the document text |
| Buffers.SyncFragmentsConcat | packages/server-renderer/dist/server-renderer.cjs.js:437-448 | the fragments of the synchronous stream walk join to the synchronous walk's text |
| Buffers.SyncWalkComplete | packages/server-renderer/dist/server-renderer.cjs.js:376-389 | with no promise at any depth, the synchronous walk gives the full document text and the full fragment list |
| Buffers.UnflaggedIsSync | packages/server-renderer/dist/server-renderer.cjs.js:150-154 | an exactly flagged buffer whose `hasAsync` is off holds no promise at any depth |
| Buffers.Buffer.constructor | packages/server-renderer/dist/server-renderer.cjs.js:133-136 | a new buffer is empty, not appendable and not async |
| Buffers.Buffer.GetBuffer | packages/server-renderer/dist/server-renderer.cjs.js:137-140 | the array handed out by a valid buffer is exactly flagged |
| Buffers.Buffer.Push | packages/server-renderer/dist/server-renderer.cjs.js:141-155 | the new state is one push of the item: coalescing or appending, `appendable` set to "the item is a string", `hasAsync` set by an async item, text extended by the item's text |
| Buffers.Buffer.PushEach | packages/server-renderer/dist/server-renderer.cjs.js:506-508 | pushing a list item by item gives the state of pushing the whole list, and appends its text |
| Unroll.UnrollBufferSync | packages/server-renderer/dist/server-renderer.cjs.js:376-389 | the result is the synchronous walk's text: strings concatenated depth first, a promise contributing nothing |
| Unroll.UnrollBuffer | packages/server-renderer/dist/server-renderer.cjs.js:353-375 | without `hasAsync` the result is the synchronous walk's text; on an exactly flagged buffer it is the full document text, every promise replaced by its settled value |
| Unroll.Sink.constructor | packages/server-renderer/dist/server-renderer.cjs.js:449-451 | a new stream has received nothing |
| Unroll.Sink.Push | packages/server-renderer/dist/server-renderer.cjs.js:437-447 | `stream.push(s)` appends `s` to what the stream received |
| Unroll.UnrollBufferSyncToStream | packages/server-renderer/dist/server-renderer.cjs.js:437-448 | the stream receives the synchronous walk's fragments, in order |
| Unroll.UnrollBufferToStream | packages/server-renderer/dist/server-renderer.cjs.js:416-436 | without `hasAsync` the stream receives the synchronous fragments; on an exactly flagged buffer it receives every string of the document in order |
| Unroll.DriversAgreeWhenSync | packages/server-renderer/dist/server-renderer.cjs.js:353-389 | on an exactly flagged buffer without `hasAsync`, the synchronous walk's text equals the document text |
| Unroll.StreamMatchesString | packages/server-renderer/dist/server-renderer.cjs.js:416-448 | what the stream driver pushes joins to the string the string driver returns |
| Unroll.InIndexOrder | packages/server-renderer/dist/server-renderer.cjs.js:355-368 | chunk `i` contributes its text and fragments after those of chunks `0..i-1` and before those of the rest |
| Attrs.RenderDynamicAttr | packages/server-renderer/dist/server-renderer.cjs.js:34-51 | `''` exactly for a non-renderable value, a boolean attribute set to `false`, or an unsafe name; a bare key for a boolean attribute or an empty string; otherwise `key="escaped value"`, under the alias or lower-cased name |
| Attrs.RenderAttr | packages/server-renderer/dist/server-renderer.cjs.js:54-59 | `''` exactly for a non-renderable value, otherwise `key="escaped value"` |
| Attrs.ClassAndStyleEscaped | packages/server-renderer/dist/server-renderer.cjs.js:21-26 | a `class` or `style` property always renders as that attribute with a value produced by `escapeHtml` (or empty for a falsy style), so no unescaped value reaches the tag through these keys (`ssrRenderClass`/`ssrRenderStyle`, lines 67-79) |
| Attrs.RenderAttrs | packages/server-renderer/dist/server-renderer.cjs.js:12-32 | the for-in loop builds the pieces of the properties in order, skipped keys contributing nothing |
| Attrs.Kept | packages/server-renderer/dist/server-renderer.cjs.js:14-19 | the properties the loop does not skip, none of them skippable |
| Attrs.JoinedAppend | packages/server-renderer/dist/server-renderer.cjs.js:14-30 | the pieces of `a + b` are those of `a` followed by those of `b` |
| Attrs.AttrsTextAppend | packages/server-renderer/dist/server-renderer.cjs.js:12-32 | attributes are rendered property by property, in for-in order |
| Attrs.AttrsTextOne | packages/server-renderer/dist/server-renderer.cjs.js:14-29 | one property renders its own piece |
| Attrs.SkippedKeysIgnored | packages/server-renderer/dist/server-renderer.cjs.js:11-19 | rendering the properties is rendering the ones not skipped |
| Attrs.OnlySkippedKeysRenderNothing | packages/server-renderer/dist/server-renderer.cjs.js:11-19 | `key`, `ref`, `innerHTML`, `textContent`, listeners and a textarea's `value` render nothing |
| Attrs.KeptOnlyFromProps | packages/server-renderer/dist/server-renderer.cjs.js:14-19 | every kept property is one of the input properties |
| Attrs.StaticMatchesDynamic | packages/server-renderer/dist/server-renderer.cjs.js:34-59 | on a plain, safe, non-boolean name the static and the dynamic renderer agree, except that an empty string is a bare key on the dynamic side |
| Components.ResolveScopeId | packages/server-renderer/dist/server-renderer.cjs.js:305-322 | the own id, then the slot id of the rendering component, then, at a sub-tree root only, the parent's resolution |
| Components.AncestorScopeInherited | packages/server-renderer/dist/server-renderer.cjs.js:317-319 | a root vnode's attribute string ends with the resolution of every component it is the root of, all the way up |
| Components.AncestorOwnIdPresent | packages/server-renderer/dist/server-renderer.cjs.js:305-322 | each such component's own scope id occurs in the attribute string, at the place where that component's part begins |
| Components.ScopedAttrs | packages/server-renderer/dist/server-renderer.cjs.js:197-208 | the fall-through attributes are undefined exactly when `inheritAttrs` is false and neither id exists; each id is set to `''`; other keys read as in `instance.attrs`, or undefined without inheritance |
| Components.SlotScopeId | packages/server-renderer/dist/server-renderer.cjs.js:199-201 | the slot scope id exists exactly when the owner's id is set and differs from the vnode's own, and it matches the slot part of `resolveScopeId` |
| Components.ChooseRenderPath | packages/server-renderer/dist/server-renderer.cjs.js:180-222 | functional components render their root; otherwise `ssrRender` wins when either exists or a template is compiled; the warning path exactly when there is no render function and no template |
| Teleports.Registered | packages/server-renderer/dist/server-renderer.cjs.js:116-122 | the target's list gains the entry at its end; every other list is unchanged; the target becomes a key |
| Teleports.RegisteredAllAppend | packages/server-renderer/dist/server-renderer.cjs.js:116-122 | filing `a` and then `b` is filing `a + b` |
| Teleports.RegistrationOrder | packages/server-renderer/dist/server-renderer.cjs.js:116-122 | after any run of teleports, each target's list is its old list followed by the entries for it in render order, and a key exists exactly when it existed or something was filed under it |
| Teleports.ParentText | packages/server-renderer/dist/server-renderer.cjs.js:102-123 | the parent receives the start and end markers, with the content between them only when disabled |
| Teleports.TargetEntryText | packages/server-renderer/dist/server-renderer.cjs.js:104-114 | the filed entry reads `<!---->` when disabled, otherwise the content followed by `<!---->` |
| Teleports.TargetEntryExact | packages/server-renderer/dist/server-renderer.cjs.js:110-113 | the entry for enabled content is a buffer built by `createBuffer`, so it is exactly flagged |
| Teleports.UnrollEntriesAsWritten | packages/server-renderer/dist/server-renderer.cjs.js:410 | joining a target's list as the code does yields the synchronous walk's text, which drops every promise |
| Teleports.UnrollEntries | packages/server-renderer/dist/server-renderer.cjs.js:404-413 | the corrected join yields the full text of the entries, promises settled |
| Teleports.AsyncTeleportContentLost | packages/server-renderer/dist/server-renderer.cjs.js:410 | an enabled teleport holding an async component that renders `s`: the code's join gives `<!---->`, the document needs `s<!---->` |
| Teleports.JoinsAgreeWhenSync | packages/server-renderer/dist/server-renderer.cjs.js:410 | without promises both joins give the same text |
| Teleports.RenderContext.constructor | packages/server-renderer/dist/server-renderer.cjs.js:115-116 | a fresh context has no teleport buffers and keeps the `teleports` it was given |
| Teleports.RenderContext.Register | packages/server-renderer/dist/server-renderer.cjs.js:116-122 | the teleport buffers become `Registered(old, target, entry)` and `teleports` is unchanged |
| Teleports.RenderContext.ResolveTeleports | packages/server-renderer/dist/server-renderer.cjs.js:404-413 | with no teleport buffers nothing changes; otherwise `teleports` exists, every target maps to the text of its entries in filing order, and other keys keep their values (corrected join; see Findings) |
| Teleports.SsrRenderTeleport | packages/server-renderer/dist/server-renderer.cjs.js:102-124 | the parent state is the parent pushes applied, and the target's list gains the teleport's entry |
| Teleports.EnabledEntry | packages/server-renderer/dist/server-renderer.cjs.js:109-114 | an enabled teleport's entry is a fresh buffer holding the content followed by the anchor |
| Teleports.TwoTeleportsOneTarget | packages/server-renderer/dist/server-renderer.cjs.js:110-122 | two enabled teleports to one target, with contents `a` and `b`, give the text of `a`, `<!---->`, the text of `b`, `<!---->` |
| Render.RenderVNode | packages/server-renderer/dist/server-renderer.cjs.js:226-260 | the buffer gains exactly the pushes of `Emit` for the node, and the context exactly its teleport entries, for every node kind; a component's entries are those of its sub-tree when it renders at once |
| Render.RenderLeaf | packages/server-renderer/dist/server-renderer.cjs.js:229-237 | a text node pushes its escaped text, a comment node its comment, a static node its markup as it is; none of them files a teleport |
| Render.RenderComponentVNode | packages/server-renderer/dist/server-renderer.cjs.js:158-179 | a component pushes its buffer, or the promise of it; one that renders at once has filed its sub-tree's teleport entries in order, an async one files none before it is pushed (line 248) |
| Render.FileAll | packages/server-renderer/dist/server-renderer.cjs.js:116-122 | filing entries one after another gives each target's list those entries at its end, in order |
| Render.RenderFragment | packages/server-renderer/dist/server-renderer.cjs.js:238-242 | a fragment pushes its open marker, its children and its close marker |
| Render.RenderVNodeChildren | packages/server-renderer/dist/server-renderer.cjs.js:261-265 | the buffer and context advance by each child's emission, in array order |
| Render.RenderElementVNode | packages/server-renderer/dist/server-renderer.cjs.js:266-304 | the buffer and context advance by the element's emission: open tag, then body and close tag unless void |
| Render.RenderElementBody | packages/server-renderer/dist/server-renderer.cjs.js:279-301 | the body is the override when there is one, otherwise the children |
| Render.PushChildrenOverride | packages/server-renderer/dist/server-renderer.cjs.js:279-293 | it pushes the override and reports one exactly when a truthy `innerHTML`, `textContent` or textarea `value` exists, in that priority |
| Render.RenderElementChildren | packages/server-renderer/dist/server-renderer.cjs.js:294-301 | text children are escaped, array children rendered in place, and no children push nothing |
| Render.RenderTeleportVNode | packages/server-renderer/dist/server-renderer.cjs.js:336-350 | the buffer and context advance by the teleport's emission |
| Render.RenderTeleportContent | packages/server-renderer/dist/server-renderer.cjs.js:104-114 | disabled content goes to the parent and the entry is the bare anchor; enabled content goes to a fresh buffer, which becomes the entry |
| RenderFacts.ChildrenInOrder | packages/server-renderer/dist/server-renderer.cjs.js:261-265 | rendering `a + b` is rendering `a` and then `b`, pushes and teleport entries alike |
| RenderFacts.ElementText | packages/server-renderer/dist/server-renderer.cjs.js:266-304 | an element's text is its open tag, followed unless void by its body and close tag |
| RenderFacts.VoidElementOpenTagOnly | packages/server-renderer/dist/server-renderer.cjs.js:277-278 | a void element is its open tag alone; its children do not matter and file nothing |
| RenderFacts.OverrideHidesChildren | packages/server-renderer/dist/server-renderer.cjs.js:279-300 | with an override the children are not rendered at all, so no teleport among them is filed |
| RenderFacts.InnerHtmlRaw | packages/server-renderer/dist/server-renderer.cjs.js:281-284 | a truthy string `innerHTML` goes out raw between the tags |
| Render.RawChunk | packages/server-renderer/dist/server-renderer.cjs.js:281-284 | the entry pushed for `innerHTML` is a string's text, or an array walked by index as the unrollers do (lines 376-389); it never holds a promise |
| Render.RawStringsJoined | packages/server-renderer/dist/server-renderer.cjs.js:376-389 | an `innerHTML` array of strings unrolls to the strings joined in order |
| RenderFacts.InnerHtmlArrayJoined | packages/server-renderer/dist/server-renderer.cjs.js:281-284 | an element whose `innerHTML` is an array of strings has those strings, joined, between its tags |
| RenderFacts.ComponentOutput | packages/server-renderer/dist/server-renderer.cjs.js:247-249 | a component node stands for its buffer's text, and files its sub-tree's entries exactly when it renders at once |
| RenderFacts.TextContentEscaped | packages/server-renderer/dist/server-renderer.cjs.js:285-288 | without `innerHTML`, a truthy `textContent` goes out escaped between the tags |
| RenderFacts.TextareaValueIsContent | packages/server-renderer/dist/server-renderer.cjs.js:289-292 | a textarea's truthy `value` is its escaped content, and `value` is never one of its attributes |
| RenderFacts.ChildrenBetweenTags | packages/server-renderer/dist/server-renderer.cjs.js:294-302 | without an override, text children are escaped and array children rendered between the tags |
| RenderFacts.CommentText | packages/server-renderer/dist/server-renderer.cjs.js:232-234 | an empty comment is `<!---->`; otherwise its text is escaped for a comment |
| RenderFacts.FragmentBracketed | packages/server-renderer/dist/server-renderer.cjs.js:238-242 | a fragment's text is its children's text between `<!--[-->` and `<!--]-->` |
| RenderFacts.TeleportWithoutTarget | packages/server-renderer/dist/server-renderer.cjs.js:337-346 | a teleport whose `to` is missing or not a string pushes nothing and files nothing |
| RenderFacts.TeleportOutput | packages/server-renderer/dist/server-renderer.cjs.js:336-350 | the parent gets the markers around the content only when disabled; the target gets one entry, after those filed by teleports nested in the content |
| RenderFacts.DivOpenTag | packages/server-renderer/dist/server-renderer.cjs.js:266-277 | the open tag of a div whose only property is class `a`, with no scope id, is `<div class="a">` |
| RenderFacts.ClassOnlyNoOverride | packages/server-renderer/dist/server-renderer.cjs.js:279-293 | a `class` property alone overrides no children |
| RenderFacts.DivWithClass | packages/server-renderer/dist/server-renderer.cjs.js:266-304 | a div with class `a` and a text child `t` renders `<div class="a">t</div>` when escaping leaves `a` and `t` alone |
| Slots.IsEmptySlot | packages/server-renderer/dist/server-renderer.cjs.js:492-499 | the slot is empty exactly when every captured item is a comment, which holds vacuously when nothing was captured (corrected `isComment`; see Findings) |
| Slots.RenderSlot | packages/server-renderer/dist/server-renderer.cjs.js:475-516 | the buffer and context advance by the slot's emission: the open marker, the body and the close marker (corrected `isComment`; see Findings) |
| Slots.RenderSlotBody | packages/server-renderer/dist/server-renderer.cjs.js:478-514 | the body is the returned vnodes rendered, or the fallback for an empty or missing slot, or the captured items |
| Slots.RenderFallback | packages/server-renderer/dist/server-renderer.cjs.js:500-504 | the fallback pushes its chunks, and without one nothing is pushed; a fallback files no teleport |
| Slots.SlotBracketed | packages/server-renderer/dist/server-renderer.cjs.js:477-515 | a slot's text is always its body between `<!--[-->` and `<!--]-->` |
| Slots.CompiledSlotChoice | packages/server-renderer/dist/server-renderer.cjs.js:490-510 | a compiled slot that pushed only comments, or nothing, gives way to the fallback and none of its output is kept; one that pushed anything else is kept verbatim, in order, and the fallback does not run |
| Slots.MarkerOnlySlotIsEmpty | packages/server-renderer/dist/server-renderer.cjs.js:492-504 | a slot that pushed only an empty fragment's markers counts as empty |
| Slots.MissingSlotUsesFallback | packages/server-renderer/dist/server-renderer.cjs.js:511-515 | a missing slot renders the fallback between the markers, or nothing without one |
| Slots.VNodeSlotRendersChildren | packages/server-renderer/dist/server-renderer.cjs.js:485-489 | a slot returning vnodes renders them in place, and what it pushed is dropped |
| Slots.SlotSuffixMatchesScopeAttr | packages/server-renderer/dist/server-renderer.cjs.js:480-485 | the suffix given to a slot function is the rendering component's slot scope attribute |
| Slots.ContentBetweenCommentsAsWritten | packages/server-renderer/dist/server-renderer.cjs.js:517-520 | markup between a leading and a trailing comment, in one string, passes the code's test; the intended test rejects it |
| Slots.BoldBetweenCommentsQualifies | packages/server-renderer/dist/server-renderer.cjs.js:517-520 | `<!--a--><b>x</b><!--c-->` is such a string |
| Slots.SingleCommentAccepted | packages/server-renderer/dist/server-renderer.cjs.js:517-520 | one well-formed comment passes the intended test, and the code's test too when it has no line break |
| Slots.RendererCommentsAreComments | packages/server-renderer/dist/server-renderer.cjs.js:477-515 | `<!---->`, `<!--[-->` and `<!--]-->` count as comments |
| Helpers.RenderList | packages/server-renderer/dist/server-renderer.cjs.js:765-795 | arrays and strings call `renderItem(source[i], i)` for each index; an integer `n` calls `renderItem(i + 1, i)` for `i < n`; a non-integer number calls nothing; an object calls `renderItem(value, key, i)` for each key in order; anything else calls nothing |
| Helpers.ListArray | packages/server-renderer/dist/server-renderer.cjs.js:766-770 | an array gives one call per element, in index order, with the element and its index |
| Helpers.ListString | packages/server-renderer/dist/server-renderer.cjs.js:766-770 | a string gives one call per character, in order, with the character and its index |
| Helpers.ListRange | packages/server-renderer/dist/server-renderer.cjs.js:776-778 | an integer `n` gives the calls `(i + 1, i)` for `0 <= i < n`, and none when `n <= 0` |
| Helpers.ListObject | packages/server-renderer/dist/server-renderer.cjs.js:787-793 | an object gives one call per key, in key order, with the value, the key and the position |
| Helpers.RenderDynamicModel | packages/server-renderer/dist/server-renderer.cjs.js:811-826 | a radio is ` checked` exactly when the model loosely equals the value; a checkbox exactly when the array model loosely contains the value, or else the model is truthy; other types write the `value` attribute |
| Helpers.GetDynamicModelProps | packages/server-renderer/dist/server-renderer.cjs.js:828-842 | the same decisions as props: `{checked: true}` or null for radio and checkbox, `{value: model}` for other types |
| Helpers.CheckedPropRenders | packages/server-renderer/dist/server-renderer.cjs.js:830-831 | `{checked: true}` renders as ` checked` on an input |
| Helpers.ValuePropRenders | packages/server-renderer/dist/server-renderer.cjs.js:840-841 | `{value: model}` renders as the static `value` attribute on an input, except that an empty-string model renders as a bare ` value` (line 45) where the static path writes ` value=""` (line 58) |
| Helpers.DynamicModelPathsAgree | packages/server-renderer/dist/server-renderer.cjs.js:811-842 | the props path and the string path of `v-model` write the same attributes, except for an empty-string model on an input that is neither a radio nor a checkbox: a bare ` value` on the props path, ` value=""` on the other |
| Diagnostics.Chain | packages/server-renderer/dist/server-renderer.cjs.js:693-703 | the parent chain starts at the given instance and names only instances of the arena |
| Diagnostics.ChainStrictlyDecreasing | packages/server-renderer/dist/server-renderer.cjs.js:693-703 | each step of the parent chain goes to an older instance, so no instance is met twice |
| Diagnostics.OwnHooks | packages/server-renderer/dist/server-renderer.cjs.js:695-701 | one component's hooks, in registration order |
| Diagnostics.AllHooks | packages/server-renderer/dist/server-renderer.cjs.js:693-703 | every hook on the chain names a real hook |
| Diagnostics.HookOwnersOnChain | packages/server-renderer/dist/server-renderer.cjs.js:693-703 | only components on the parent chain contribute hooks |
| Diagnostics.CallHooks | packages/server-renderer/dist/server-renderer.cjs.js:696-701 | a component's hooks run in order, up to and including the first that returns false |
| Diagnostics.HandleError | packages/server-renderer/dist/server-renderer.cjs.js:685-712 | the hooks called are a prefix of the hooks of the failing instance's ancestors (its parent first, never its own); the walk stops exactly at the first hook that returns false; without one, the app handler runs if present, else the error is logged; no instance means logged with no hook called |
| Diagnostics.VNodeChain | packages/server-renderer/dist/server-renderer.cjs.js:574-588 | one vnode per instance of the parent chain |
| Diagnostics.GetComponentTrace | packages/server-renderer/dist/server-renderer.cjs.js:566-590 | on a chain of distinct vnodes (every run that returns), the loop builds the trace of the chain's vnodes, which is the chain itself with every recursion count zero |
| Diagnostics.TraceAccountsForChain | packages/server-renderer/dist/server-renderer.cjs.js:574-588 | the number of entries plus all recursion counts is the length of the chain |
| Diagnostics.TraceShape | packages/server-renderer/dist/server-renderer.cjs.js:574-588 | the trace starts at the top vnode, only its first entry counts recursion, and each entry is a vnode of the chain |
| Diagnostics.DistinctChainTrace | packages/server-renderer/dist/server-renderer.cjs.js:574-588 | on a chain of distinct vnodes the trace is the chain itself, with no recursion counted |

## Left out

- Component instantiation (`createComponentInstance`, `setupComponent`, `renderComponentRoot`, `normalizeVNode`, `setCurrentRenderingInstance`). These are calls into the reactivity runtime. A component vnode is its resulting buffer, and only the render-path choice and the attribute merge of `renderComponentSubTree` are modelled.
- `ssrCompile` and its cache. Template compilation and `Function(...)` evaluation are a foreign compiler.
- `renderToString`, `renderToStream` and the Node `Readable` wiring (`push(null)`, `destroy`). These are app plumbing and I/O. The stream is the `Sink` class.
- Promise scheduling. A promise is its settled value, so when promises settle is not modelled, only the order in which their results are used. A promise that rejects is not modelled.
- Numbers are reals, so `NaN`, `-0` and floating-point rounding do not occur.
- Warnings and console output (`warn`, `formatTrace`, `formatProps`, `formatComponentName`, `ErrorTypeStrings`, `logError`'s rethrow). They are display only.
- `applySSRDirectives`. Directive props come from a foreign `getSSRProps` and `mergeProps`. An element's props are taken as already merged.
- `ssrInterpolate` and `ssrRenderSuspense` are not part of this model. The Suspense case of `renderVNode` is modelled.
- Slot functions only push chunks or return vnodes. A compiled slot that itself calls `ssrRenderTeleport` is not modelled. The slot props and parent component passed to a slot function are not modelled.
- Teleports.SsrRenderTeleport: modelled for a content function that pushes a given list and files no teleport itself. Nested teleports are covered through `Render.RenderTeleportVNode`.
- Helpers.RenderList: objects with `Symbol.iterator` (`Map`, `Set`, generators) do not occur, because the value type has no iterables. A string is indexed by character, not by UTF-16 code unit. Object keys keep their insertion order; the rule that integer-like keys come first is not modelled. The `renderItem` callback's own output is not modelled, only the calls.
- Helpers.LooseContain: `looseIndexOf` is taken as "some element loosely equals the value", with `looseEqual` uninterpreted.
- Slots.IsComment: JavaScript's `trim` also removes the Unicode space separators (U+1680, U+2000 to U+200A, U+202F, U+205F, U+3000). The intended test counts only ASCII white space, no-break space, the two line separators and the byte-order mark as blank.
- Diagnostics.HandleError: the arguments passed to the hooks, errors thrown by a hook or by the app handler, and `logError`'s console output and rethrow are not modelled. Each hook's result is an input.
- Diagnostics.GetComponentTrace: the global warning stack is given by the instance whose vnode is on top. The walk follows instance parents, which equals the code's `vnode.component.parent` walk only when no vnode repeats on the chain. On a repeat the code's loop never ends, so the model requires the chain's vnodes to be distinct and says nothing about such inputs.
- Render.RawChunk: a truthy `innerHTML` that is neither a string nor an array unrolls to nothing, as in the code, where such a value has no `length`. Two cases differ. A function with parameters has a numeric `length`, so the code's walk reads `fn[0]`, which is undefined, and throws; an array element that is `null` or `undefined` throws the same way. An object with a numeric `length` property is walked by index in the code. The model gives all of these no text, because its values carry no function arity and do not single out `length`.
- Render.RenderComponentVNode: an async component files the teleports of its sub-tree only after its promise settles, at a time this model does not fix. Those entries are not modelled, so the teleport lists see only components that render at once.

## Findings

| source | as written | input that shows it | evidently intended | confidence | as-written member | corrected member |
|---|---|---|---|---|---|---|
| packages/server-renderer/dist/server-renderer.cjs.js:410 | `resolveTeleports` joins a target's list with `unrollBuffer(await Promise.all(list))`. The awaited array has no `hasAsync`, so the synchronous walk runs, and a promise inside a teleported buffer contributes `''`. | An enabled teleport whose content is an async component rendering `A`. Its entry is a buffer holding a promise, flagged `hasAsync`. The target text comes out as `<!---->` instead of `A<!---->`. | Every target's text is the full text of its entries, promises settled, as for the main document. | high, not executed | Teleports.UnrollEntriesAsWritten, Teleports.AsyncTeleportContentLost | Teleports.UnrollEntries, used by Teleports.RenderContext.ResolveTeleports |
| packages/server-renderer/dist/server-renderer.cjs.js:517-520 | `isComment` tests `/^<!--.*-->$/`. Any one string that starts with a comment and ends with one passes, whatever lies between. | A compiled slot pushing the single string `<!--a--><b>x</b><!--c-->`. The source's own comment says the code means to check "if the slot renders all comments". The slot is taken as empty, and the fallback replaces `<b>x</b>`. Also, a comment containing a line break fails the test. | An item counts as a comment only when it is made of complete comments, with nothing but white space outside them. | medium, not executed | Slots.IsCommentAsWritten, Slots.ContentBetweenCommentsAsWritten | Slots.IsComment, with Slots.SingleCommentAccepted; used by Slots.IsEmptySlot and Slots.RenderSlot |
