/** The drivers that flatten a buffer: to one string (`unrollBuffer`,
    `unrollBufferSync`) and to a stream (`unrollBuffer$1`, `unrollBufferSync$1`).
    Awaiting a promise is modelled by taking the value it settles to; when
    promises settle is not modelled, only the order in which results are used. */
module Unroll {
  import opened Buffers

  /** `unrollBufferSync`: a depth-first concatenation with no suspension. */
  method UnrollBufferSync(buffer: BufferValue) returns (ret: string)
    ensures ret == SyncText(buffer.items)
    decreases buffer
  {
    ret := "";
    var i := 0;
    while i < |buffer.items|
      invariant 0 <= i <= |buffer.items|
      invariant ret == SyncText(buffer.items[..i])
    {
      var item := buffer.items[i];
      assert buffer.items[..i + 1][..i] == buffer.items[..i];
      match item {
        case Text(s) =>
          ret := ret + s;
        case Child(b) =>
          var part := UnrollBufferSync(b);
          ret := ret + part;
        case Pending(_) =>
          // treated as an array: a promise has no `length`, the inner loop runs zero times
      }
      i := i + 1;
    }
    assert buffer.items[..i] == buffer.items;
  }

  /** `unrollBuffer`: the synchronous drive when `hasAsync` is off, otherwise
      chunk by chunk, awaiting each promise before the next chunk is looked at. */
  method UnrollBuffer(buffer: BufferValue) returns (ret: string)
    ensures !buffer.hasAsync ==> ret == SyncText(buffer.items)
    ensures FlagsExact(buffer) ==> ret == Flatten(buffer.items)
    decreases buffer
  {
    if buffer.hasAsync {
      ret := "";
      var i := 0;
      while i < |buffer.items|
        invariant 0 <= i <= |buffer.items|
        invariant FlagsExact(buffer) ==> ret == Flatten(buffer.items[..i])
      {
        var item := buffer.items[i];
        assert buffer.items[..i + 1][..i] == buffer.items[..i];
        assert FlagsExact(buffer) ==> ChunkFlagsExact(item);
        match item {
          case Text(s) =>
            ret := ret + s;
          case Child(b) =>
            var part := UnrollBuffer(b);
            ret := ret + part;
          case Pending(settled) =>
            // item = await item
            match settled {
              case SettledText(s) =>
                ret := ret + s;
              case SettledBuffer(b) =>
                var part := UnrollBuffer(b);
                ret := ret + part;
            }
        }
        i := i + 1;
      }
      assert buffer.items[..i] == buffer.items;
    } else {
      ret := UnrollBufferSync(buffer);
      if FlagsExact(buffer) {
        UnflaggedIsSync(buffer);
        SyncWalkComplete(buffer.items);
      }
    }
  }

  /** The readable stream the renderer pushes into, seen as the list of strings it received. */
  class Sink {
    var pushed: seq<string>

    constructor ()
      ensures pushed == []
    {
      pushed := [];
    }

    /** `stream.push(item)`. */
    method Push(s: string)
      modifies this
      ensures pushed == old(pushed) + [s]
    {
      pushed := pushed + [s];
    }
  }

  /** `unrollBufferSync$1`: pushes each string it meets, depth first. */
  method UnrollBufferSyncToStream(buffer: BufferValue, stream: Sink)
    modifies stream
    ensures stream.pushed == old(stream.pushed) + SyncFragments(buffer.items)
    decreases buffer
  {
    var i := 0;
    while i < |buffer.items|
      invariant 0 <= i <= |buffer.items|
      invariant stream.pushed == old(stream.pushed) + SyncFragments(buffer.items[..i])
    {
      var item := buffer.items[i];
      assert buffer.items[..i + 1][..i] == buffer.items[..i];
      match item {
        case Text(s) =>
          stream.Push(s);
        case Child(b) =>
          UnrollBufferSyncToStream(b, stream);
        case Pending(_) =>
      }
      i := i + 1;
    }
    assert buffer.items[..i] == buffer.items;
  }

  /** `unrollBuffer$1`: like `unrollBuffer`, but every string goes to the
      stream as soon as the walk reaches it. */
  method UnrollBufferToStream(buffer: BufferValue, stream: Sink)
    modifies stream
    ensures !buffer.hasAsync ==> stream.pushed == old(stream.pushed) + SyncFragments(buffer.items)
    ensures FlagsExact(buffer) ==> stream.pushed == old(stream.pushed) + Fragments(buffer.items)
    decreases buffer
  {
    if buffer.hasAsync {
      var i := 0;
      while i < |buffer.items|
        invariant 0 <= i <= |buffer.items|
        invariant FlagsExact(buffer) ==> stream.pushed == old(stream.pushed) + Fragments(buffer.items[..i])
      {
        var item := buffer.items[i];
        assert buffer.items[..i + 1][..i] == buffer.items[..i];
        assert FlagsExact(buffer) ==> ChunkFlagsExact(item);
        match item {
          case Text(s) =>
            stream.Push(s);
          case Child(b) =>
            UnrollBufferToStream(b, stream);
          case Pending(settled) =>
            match settled {
              case SettledText(s) =>
                stream.Push(s);
              case SettledBuffer(b) =>
                UnrollBufferToStream(b, stream);
            }
        }
        i := i + 1;
      }
      assert buffer.items[..i] == buffer.items;
    } else {
      UnrollBufferSyncToStream(buffer, stream);
      if FlagsExact(buffer) {
        UnflaggedIsSync(buffer);
        SyncWalkComplete(buffer.items);
      }
    }
  }

  /** On a buffer with no async chunk the two string drivers agree, and both
      give the document text. */
  lemma DriversAgreeWhenSync(buffer: BufferValue)
    requires FlagsExact(buffer) && !buffer.hasAsync
    ensures SyncText(buffer.items) == Flatten(buffer.items)
  {
    UnflaggedIsSync(buffer);
    SyncWalkComplete(buffer.items);
  }

  /** What the stream driver pushes concatenates to what the string driver
      returns, for every exactly flagged buffer. */
  lemma StreamMatchesString(buffer: BufferValue)
    requires FlagsExact(buffer)
    ensures Concat(Fragments(buffer.items)) == Flatten(buffer.items)
    ensures !buffer.hasAsync ==> Concat(SyncFragments(buffer.items)) == Flatten(buffer.items)
  {
    FragmentsConcat(buffer.items);
    if !buffer.hasAsync {
      SyncFragmentsConcat(buffer.items);
      DriversAgreeWhenSync(buffer);
    }
  }

  /** Document order: what chunk i contributes comes after everything chunks
      0..i-1 contribute, whichever promise settles first. */
  lemma InIndexOrder(items: seq<Chunk>, i: nat)
    requires i < |items|
    ensures Flatten(items) == Flatten(items[..i]) + FlattenChunk(items[i]) + Flatten(items[i + 1..])
    ensures Fragments(items) == Fragments(items[..i]) + ChunkFragments(items[i]) + Fragments(items[i + 1..])
  {
    var pre, rest := items[..i + 1], items[i + 1..];
    assert items == pre + rest;
    assert pre[..|pre| - 1] == items[..i] && pre[|pre| - 1] == items[i];
    assert Flatten(pre) == Flatten(items[..i]) + FlattenChunk(items[i]);
    assert Fragments(pre) == Fragments(items[..i]) + ChunkFragments(items[i]);
    FlattenAppend(pre, rest);
    FragmentsAppend(pre, rest);
  }
}
