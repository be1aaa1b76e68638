/** The buffer every component renders into (`createBuffer`), and the text a
    buffer stands for. */
module Buffers {

  /** One entry of a buffer array. */
  datatype Chunk =
    | Text(s: string)             // a plain string
    | Child(buf: BufferValue)     // a resolved child buffer (a nested array)
    | Pending(settled: Settled)   // a promise, given by the value it settles to

  /** What awaiting a promise yields: a string or a buffer, never another promise. */
  datatype Settled = SettledText(s: string) | SettledBuffer(buf: BufferValue)

  /** A buffer array together with its `hasAsync` property. */
  datatype BufferValue = BufferValue(items: seq<Chunk>, hasAsync: bool)

  /** The test push applies before setting `hasAsync`: a promise, or a child buffer flagged async. */
  predicate IsAsync(c: Chunk)
  {
    c.Pending? || (c.Child? && c.buf.hasAsync)
  }

  predicate AnyAsync(items: seq<Chunk>)
  {
    exists i :: 0 <= i < |items| && IsAsync(items[i])
  }

  /** The flag of `b` and of every buffer inside it says exactly whether an
      async chunk sits directly in it: how `createBuffer` builds every buffer. */
  predicate FlagsExact(b: BufferValue)
  {
    b.hasAsync == AnyAsync(b.items) && forall i :: 0 <= i < |b.items| ==> ChunkFlagsExact(b.items[i])
  }

  predicate ChunkFlagsExact(c: Chunk)
  {
    match c
    case Text(_) => true
    case Child(b) => FlagsExact(b)
    case Pending(SettledText(_)) => true
    case Pending(SettledBuffer(b)) => FlagsExact(b)
  }

  /** No promise anywhere in the nested arrays. */
  predicate SyncOnly(items: seq<Chunk>)
  {
    forall i :: 0 <= i < |items| ==> ChunkSyncOnly(items[i])
  }

  predicate ChunkSyncOnly(c: Chunk)
  {
    match c
    case Text(_) => true
    case Child(b) => SyncOnly(b.items)
    case Pending(_) => false
  }

  /** The document text a sequence of chunks stands for, every promise replaced by what it settles to. */
  function Flatten(items: seq<Chunk>): string
  {
    if items == [] then "" else Flatten(items[..|items| - 1]) + FlattenChunk(items[|items| - 1])
  }

  function FlattenChunk(c: Chunk): string
  {
    match c
    case Text(s) => s
    case Child(b) => Flatten(b.items)
    case Pending(SettledText(s)) => s
    case Pending(SettledBuffer(b)) => Flatten(b.items)
  }

  /** The text a synchronous walk produces: it concatenates strings and
      descends into arrays; a promise has no `length`, so it adds nothing. */
  function SyncText(items: seq<Chunk>): string
  {
    if items == [] then "" else SyncText(items[..|items| - 1]) + SyncChunkText(items[|items| - 1])
  }

  function SyncChunkText(c: Chunk): string
  {
    match c
    case Text(s) => s
    case Child(b) => SyncText(b.items)
    case Pending(_) => ""
  }

  /** The strings a depth-first walk hands out one by one, promises settled. */
  function Fragments(items: seq<Chunk>): seq<string>
  {
    if items == [] then [] else Fragments(items[..|items| - 1]) + ChunkFragments(items[|items| - 1])
  }

  function ChunkFragments(c: Chunk): seq<string>
  {
    match c
    case Text(s) => [s]
    case Child(b) => Fragments(b.items)
    case Pending(SettledText(s)) => [s]
    case Pending(SettledBuffer(b)) => Fragments(b.items)
  }

  /** The strings a synchronous walk hands out; a promise hands out none. */
  function SyncFragments(items: seq<Chunk>): seq<string>
  {
    if items == [] then [] else SyncFragments(items[..|items| - 1]) + SyncChunkFragments(items[|items| - 1])
  }

  function SyncChunkFragments(c: Chunk): seq<string>
  {
    match c
    case Text(s) => [s]
    case Child(b) => SyncFragments(b.items)
    case Pending(_) => []
  }

  function Concat(ss: seq<string>): string
  {
    if ss == [] then "" else Concat(ss[..|ss| - 1]) + ss[|ss| - 1]
  }

  /** The state `createBuffer` keeps: the array, the `appendable` closure variable and `hasAsync`. */
  datatype BufState = BufState(items: seq<Chunk>, appendable: bool, hasAsync: bool)

  const Empty: BufState := BufState([], false, false)

  /** `appendable` is only ever set right after a string entry. */
  predicate CanAppend(st: BufState)
  {
    st.appendable ==> |st.items| > 0 && st.items[|st.items| - 1].Text?
  }

  /** What holds of every state `push` can reach: `CanAppend`, and `hasAsync`
      exactly when an async chunk was pushed. */
  predicate WellFormed(st: BufState)
  {
    CanAppend(st) && st.hasAsync == AnyAsync(st.items)
  }

  /** `push(item)`: a string right after a string is appended to the last
      entry; anything else becomes a new entry. */
  function Pushed(st: BufState, item: Chunk): (r: BufState)
    requires CanAppend(st)
    ensures CanAppend(r)
  {
    var items :=
      if st.appendable && item.Text? then
        st.items[..|st.items| - 1] + [Text(st.items[|st.items| - 1].s + item.s)]
      else st.items + [item];
    BufState(items, item.Text?, st.hasAsync || IsAsync(item))
  }

  /** Pushing every item of `xs` in order. */
  function PushedAll(st: BufState, xs: seq<Chunk>): (r: BufState)
    requires CanAppend(st)
    ensures CanAppend(r)
  {
    if xs == [] then st else Pushed(PushedAll(st, xs[..|xs| - 1]), xs[|xs| - 1])
  }

  /** The buffer `getBuffer()` hands out. */
  function ValueOf(st: BufState): BufferValue
  {
    BufferValue(st.items, st.hasAsync)
  }

  // ----- lemmas about the text of chunk sequences -----

  /** `a + b` without its last element, for a non-empty `b`. */
  lemma InitOfAppend<T>(a: seq<T>, b: seq<T>)
    requires b != []
    ensures (a + b)[..|a + b| - 1] == a + b[..|b| - 1]
    ensures (a + b)[|a + b| - 1] == b[|b| - 1]
  {
  }

  lemma AppendAssoc<T>(x: seq<T>, y: seq<T>, z: seq<T>)
    ensures x + y + z == x + (y + z)
  {
  }

  lemma {:induction false} FlattenAppend(a: seq<Chunk>, b: seq<Chunk>)
    ensures Flatten(a + b) == Flatten(a) + Flatten(b)
    decreases |b|
  {
    if b == [] {
      assert a + b == a;
    } else {
      var n := |b| - 1;
      InitOfAppend(a, b);
      FlattenAppend(a, b[..n]);
      AppendAssoc(Flatten(a), Flatten(b[..n]), FlattenChunk(b[n]));
    }
  }

  lemma {:induction false} SyncTextAppend(a: seq<Chunk>, b: seq<Chunk>)
    ensures SyncText(a + b) == SyncText(a) + SyncText(b)
    decreases |b|
  {
    if b == [] {
      assert a + b == a;
    } else {
      var n := |b| - 1;
      InitOfAppend(a, b);
      SyncTextAppend(a, b[..n]);
      AppendAssoc(SyncText(a), SyncText(b[..n]), SyncChunkText(b[n]));
    }
  }

  lemma {:induction false} FragmentsAppend(a: seq<Chunk>, b: seq<Chunk>)
    ensures Fragments(a + b) == Fragments(a) + Fragments(b)
    decreases |b|
  {
    if b == [] {
      assert a + b == a;
    } else {
      var n := |b| - 1;
      InitOfAppend(a, b);
      FragmentsAppend(a, b[..n]);
      AppendAssoc(Fragments(a), Fragments(b[..n]), ChunkFragments(b[n]));
    }
  }

  lemma {:induction false} ConcatAppend(a: seq<string>, b: seq<string>)
    ensures Concat(a + b) == Concat(a) + Concat(b)
    decreases |b|
  {
    if b == [] {
      assert a + b == a;
    } else {
      var n := |b| - 1;
      InitOfAppend(a, b);
      ConcatAppend(a, b[..n]);
      AppendAssoc(Concat(a), Concat(b[..n]), b[n]);
    }
  }

  /** The streamed fragments concatenate to the document text. */
  lemma {:induction false} FragmentsConcat(items: seq<Chunk>)
    ensures Concat(Fragments(items)) == Flatten(items)
    decreases items, 1
  {
    if items != [] {
      var n := |items| - 1;
      FragmentsConcat(items[..n]);
      ChunkFragmentsConcat(items[n]);
      ConcatAppend(Fragments(items[..n]), ChunkFragments(items[n]));
    }
  }

  lemma {:induction false} ChunkFragmentsConcat(c: Chunk)
    ensures Concat(ChunkFragments(c)) == FlattenChunk(c)
    decreases c, 0
  {
    match c
    case Text(s) => assert [s][..0] == [];
    case Child(b) => FragmentsConcat(b.items);
    case Pending(SettledText(s)) => assert [s][..0] == [];
    case Pending(SettledBuffer(b)) => FragmentsConcat(b.items);
  }

  /** The fragments of the synchronous walk concatenate to its text. */
  lemma {:induction false} SyncFragmentsConcat(items: seq<Chunk>)
    ensures Concat(SyncFragments(items)) == SyncText(items)
    decreases items, 1
  {
    if items != [] {
      var n := |items| - 1;
      SyncFragmentsConcat(items[..n]);
      SyncChunkFragmentsConcat(items[n]);
      ConcatAppend(SyncFragments(items[..n]), SyncChunkFragments(items[n]));
    }
  }

  lemma {:induction false} SyncChunkFragmentsConcat(c: Chunk)
    ensures Concat(SyncChunkFragments(c)) == SyncChunkText(c)
    decreases c, 0
  {
    match c
    case Text(s) => assert [s][..0] == [];
    case Child(b) => SyncFragmentsConcat(b.items);
    case Pending(_) =>
  }

  /** Without promises the synchronous walk sees everything: its text and its
      fragments are the document's. */
  lemma {:induction false} SyncWalkComplete(items: seq<Chunk>)
    requires SyncOnly(items)
    ensures SyncText(items) == Flatten(items)
    ensures SyncFragments(items) == Fragments(items)
    decreases items, 1
  {
    if items != [] {
      var n := |items| - 1;
      assert SyncOnly(items[..n]) by {
        forall i | 0 <= i < n ensures ChunkSyncOnly(items[..n][i]) {
          assert items[..n][i] == items[i];
        }
      }
      SyncWalkComplete(items[..n]);
      SyncChunkWalkComplete(items[n]);
    }
  }

  lemma {:induction false} SyncChunkWalkComplete(c: Chunk)
    requires ChunkSyncOnly(c)
    ensures SyncChunkText(c) == FlattenChunk(c)
    ensures SyncChunkFragments(c) == ChunkFragments(c)
    decreases c, 0
  {
    match c
    case Text(_) =>
    case Child(b) => SyncWalkComplete(b.items);
  }

  /** A buffer whose exact flag is off holds no promise at any depth. */
  lemma {:induction false} UnflaggedIsSync(b: BufferValue)
    requires FlagsExact(b) && !b.hasAsync
    ensures SyncOnly(b.items)
    decreases b
  {
    forall i | 0 <= i < |b.items| ensures ChunkSyncOnly(b.items[i]) {
      assert !IsAsync(b.items[i]);
      match b.items[i]
      case Text(_) =>
      case Child(c) => UnflaggedIsSync(c);
    }
  }

  // ----- lemmas about push -----

  lemma AnyAsyncAppend(a: seq<Chunk>, c: Chunk)
    ensures AnyAsync(a + [c]) == (AnyAsync(a) || IsAsync(c))
  {
    var ac := a + [c];
    assert ac[|a|] == c;
    assert forall i :: 0 <= i < |a| ==> ac[i] == a[i];
    if AnyAsync(ac) && !IsAsync(c) {
      var i :| 0 <= i < |ac| && IsAsync(ac[i]);
      assert i < |a| && IsAsync(a[i]);
    }
  }

  /** Push keeps the state well formed. */
  lemma PushWellFormed(st: BufState, xs: seq<Chunk>)
    requires WellFormed(st)
    ensures WellFormed(PushedAll(st, xs))
    decreases |xs|
  {
    if xs != [] {
      var n := |xs| - 1;
      PushWellFormed(st, xs[..n]);
      PushedWellFormed(PushedAll(st, xs[..n]), xs[n]);
    }
  }

  lemma PushedWellFormed(st: BufState, item: Chunk)
    requires WellFormed(st)
    ensures WellFormed(Pushed(st, item))
  {
    var r := Pushed(st, item);
    if st.appendable && item.Text? {
      var n := |st.items| - 1;
      assert st.items == st.items[..n] + [st.items[n]];
      AnyAsyncAppend(st.items[..n], st.items[n]);
      AnyAsyncAppend(st.items[..n], Text(st.items[n].s + item.s));
    } else {
      AnyAsyncAppend(st.items, item);
    }
  }

  /** The shape rules of push: coalescing keeps the length, anything else adds one entry. */
  lemma PushShape(st: BufState, item: Chunk)
    requires CanAppend(st)
    ensures var r := Pushed(st, item);
      && (st.appendable && item.Text? ==>
            |r.items| == |st.items| && r.items[..|r.items| - 1] == st.items[..|st.items| - 1] &&
            r.items[|r.items| - 1] == Text(st.items[|st.items| - 1].s + item.s))
      && (!(st.appendable && item.Text?) ==> r.items == st.items + [item])
      && r.appendable == item.Text?
  {
  }

  /** `hasAsync` is set by every async push and is never reset. */
  lemma {:induction false} HasAsyncMonotone(st: BufState, xs: seq<Chunk>)
    requires CanAppend(st)
    ensures PushedAll(st, xs).hasAsync == (st.hasAsync || AnyAsync(xs))
    decreases |xs|
  {
    if xs != [] {
      var n := |xs| - 1;
      assert xs == xs[..n] + [xs[n]];
      HasAsyncMonotone(st, xs[..n]);
      AnyAsyncAppend(xs[..n], xs[n]);
    }
  }

  /** Coalescing does not change the output: flattening after a push is
      flattening before it followed by the pushed item. */
  lemma PushPreservesText(st: BufState, item: Chunk)
    requires CanAppend(st)
    ensures Flatten(Pushed(st, item).items) == Flatten(st.items) + FlattenChunk(item)
    ensures SyncText(Pushed(st, item).items) == SyncText(st.items) + SyncChunkText(item)
  {
    if st.appendable && item.Text? {
      var n := |st.items| - 1;
      var r := Pushed(st, item).items;
      assert r[..|r| - 1] == st.items[..n];
    } else {
      var r := st.items + [item];
      assert r[..|r| - 1] == st.items;
    }
  }

  /** Pushing a sequence appends its text, whatever was coalesced. */
  lemma {:induction false} PushedAllText(st: BufState, xs: seq<Chunk>)
    requires CanAppend(st)
    ensures Flatten(PushedAll(st, xs).items) == Flatten(st.items) + Flatten(xs)
    ensures SyncText(PushedAll(st, xs).items) == SyncText(st.items) + SyncText(xs)
    decreases |xs|
  {
    if xs != [] {
      var n := |xs| - 1;
      var prev := PushedAll(st, xs[..n]);
      PushedAllText(st, xs[..n]);
      PushPreservesText(prev, xs[n]);
      assert PushedAll(st, xs) == Pushed(prev, xs[n]);
      calc {
        Flatten(PushedAll(st, xs).items);
        Flatten(prev.items) + FlattenChunk(xs[n]);
        Flatten(st.items) + Flatten(xs[..n]) + FlattenChunk(xs[n]);
        Flatten(st.items) + Flatten(xs);
      }
      calc {
        SyncText(PushedAll(st, xs).items);
        SyncText(prev.items) + SyncChunkText(xs[n]);
        SyncText(st.items) + SyncText(xs[..n]) + SyncChunkText(xs[n]);
        SyncText(st.items) + SyncText(xs);
      }
    }
  }

  /** Pushing `a` then `b` is pushing `a + b`. */
  lemma {:induction false} PushedAllAppend(st: BufState, a: seq<Chunk>, b: seq<Chunk>)
    requires CanAppend(st)
    ensures PushedAll(PushedAll(st, a), b) == PushedAll(st, a + b)
    decreases |b|
  {
    if b == [] {
      assert a + b == a;
    } else {
      var n := |b| - 1;
      assert (a + b)[..|a + b| - 1] == a + b[..n];
      assert (a + b)[|a + b| - 1] == b[n];
      PushedAllAppend(st, a, b[..n]);
    }
  }

  /** Pushing one item is `Pushed`. */
  lemma PushedAllOne(st: BufState, x: Chunk)
    requires CanAppend(st)
    ensures PushedAll(st, [x]) == Pushed(st, x)
  {
    assert [x][..0] == [];
  }

  /** The buffer of a well-formed state built from exactly flagged chunks is exactly flagged. */
  lemma {:induction false} PushedAllExact(st: BufState, xs: seq<Chunk>)
    requires WellFormed(st)
    requires forall i :: 0 <= i < |st.items| ==> ChunkFlagsExact(st.items[i])
    requires forall i :: 0 <= i < |xs| ==> ChunkFlagsExact(xs[i])
    ensures FlagsExact(ValueOf(PushedAll(st, xs)))
    decreases |xs|
  {
    PushWellFormed(st, xs);
    if xs != [] {
      var n := |xs| - 1;
      PushedAllExact(st, xs[..n]);
      var prev := PushedAll(st, xs[..n]);
      PushWellFormed(st, xs[..n]);
      var r := Pushed(prev, xs[n]);
      assert PushedAll(st, xs) == r;
      forall i | 0 <= i < |r.items| ensures ChunkFlagsExact(r.items[i]) {
        if !(prev.appendable && xs[n].Text?) && i < |prev.items| {
          assert r.items[i] == prev.items[i];
        } else if prev.appendable && xs[n].Text? && i < |prev.items| - 1 {
          assert r.items[i] == prev.items[i];
        }
      }
    }
  }

  /** The buffer `createBuffer` returns, as the renderer mutates it through `push`. */
  class Buffer {
    var items: seq<Chunk>
    var appendable: bool
    var hasAsync: bool

    function State(): BufState
      reads this
    {
      BufState(items, appendable, hasAsync)
    }

    /** What `push` maintains, given that every pushed chunk was itself built this way. */
    predicate Valid()
      reads this
    {
      WellFormed(State()) && forall i :: 0 <= i < |items| ==> ChunkFlagsExact(items[i])
    }

    /** `getBuffer()`. */
    function GetBuffer(): (r: BufferValue)
      reads this
      ensures Valid() ==> FlagsExact(r)
    {
      ValueOf(State())
    }

    constructor ()
      ensures Valid() && State() == Empty
    {
      items, appendable, hasAsync := [], false, false;
    }

    method Push(item: Chunk)
      requires Valid() && ChunkFlagsExact(item)
      modifies this
      ensures Valid()
      ensures State() == Pushed(old(State()), item) == PushedAll(old(State()), [item])
      ensures old(appendable) && item.Text? ==>
        |items| == |old(items)| && items[..|items| - 1] == old(items)[..|old(items)| - 1] &&
        items[|items| - 1] == Text(old(items)[|old(items)| - 1].s + item.s)
      ensures !(old(appendable) && item.Text?) ==> items == old(items) + [item]
      ensures appendable == item.Text?
      ensures hasAsync == (old(hasAsync) || IsAsync(item))
      ensures Flatten(items) == Flatten(old(items)) + FlattenChunk(item)
    {
      ghost var st := State();
      PushedWellFormed(st, item);
      PushPreservesText(st, item);
      PushedAllOne(st, item);
      var isStringItem := item.Text?;
      if appendable && isStringItem {
        var n := |items| - 1;
        items := items[..n] + [Text(items[n].s + item.s)];
        forall i | 0 <= i < |items| ensures ChunkFlagsExact(items[i]) {
          if i < n {
            assert items[i] == st.items[i];
          }
        }
      } else {
        items := items + [item];
        forall i | 0 <= i < |items| ensures ChunkFlagsExact(items[i]) {
          if i < |st.items| {
            assert items[i] == st.items[i];
          }
        }
      }
      appendable := isStringItem;
      if item.Pending? || (item.Child? && item.buf.hasAsync) {
        hasAsync := true;
      }
      assert State() == Pushed(st, item);
    }

    /** Pushes the items of `xs` one after another, as a render callback does. */
    method PushEach(xs: seq<Chunk>)
      requires Valid() && forall i :: 0 <= i < |xs| ==> ChunkFlagsExact(xs[i])
      modifies this
      ensures Valid()
      ensures State() == PushedAll(old(State()), xs)
      ensures Flatten(items) == Flatten(old(items)) + Flatten(xs)
    {
      ghost var st0 := State();
      var i := 0;
      while i < |xs|
        invariant 0 <= i <= |xs|
        invariant Valid()
        invariant State() == PushedAll(st0, xs[..i])
      {
        assert xs[..i + 1][..i] == xs[..i];
        Push(xs[i]);
        i := i + 1;
      }
      assert xs[..i] == xs;
      PushedAllText(st0, xs);
    }
  }
}
