/** Received packets: chains of buffers, and the iterator that walks a chain. */
module PacketBuffers {
  import opened Wrappers
  import opened Text

  function Flatten(chunks: seq<Bytes>): Bytes {
    if chunks == [] then [] else chunks[0] + Flatten(chunks[1..])
  }

  /** One link of a chain; `height` is the number of links behind it. */
  class Pbuf {
    const payload: Bytes
    const next: Pbuf?
    ghost const height: nat

    constructor (payload: Bytes, next: Pbuf?)
      requires next != null ==> next.Valid()
      ensures Valid() && Chunks() == [payload] + if next == null then [] else next.Chunks()
    {
      this.payload, this.next := payload, next;
      height := if next == null then 0 else next.height + 1;
    }

    ghost predicate Valid()
      decreases height
    {
      next != null ==> next.height < height && next.Valid()
    }

    function Chunks(): (c: seq<Bytes>)
      requires Valid()
      ensures c != [] && c[0] == payload
      decreases height
    {
      [payload] + if next == null then [] else next.Chunks()
    }
  }

  class PacketBufferIterator {
    var current: Pbuf?

    ghost predicate Valid()
      reads this
    {
      current != null ==> current.Valid()
    }

    /** The chunks still to come. */
    function Remaining(): seq<Bytes>
      requires Valid()
      reads this
    {
      if current == null then [] else current.Chunks()
    }

    constructor (inner: Pbuf)
      requires inner.Valid()
      ensures Valid() && Remaining() == inner.Chunks()
    {
      current := inner;
    }

    method Next() returns (chunk: Option<Bytes>)
      requires Valid()
      modifies this
      ensures Valid()
      ensures chunk.None? <==> old(Remaining()) == []
      ensures chunk.None? ==> Remaining() == []
      ensures chunk.Some? ==> old(Remaining()) == [chunk.value] + Remaining()
    {
      if current == null {
        return None;
      }
      chunk := Some(current.payload);
      current := current.next;
    }
  }
}
