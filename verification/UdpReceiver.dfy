/** The UDP task: one datagram after another through duplicate check, address book and ledger. */
module UdpReceiver {
  import opened Handover
  import opened Ledgers
  import opened AddressBook
  import opened Dedup

  datatype Datagram = Garbled | Decoded(key: nat, payload: Payload)

  class Receiver {
    const history: History<nat>
    const book: Book
    const node: Node

    constructor (node: Node)
      ensures this.node == node && history.Valid() && history.written == [] && book.entries == []
      ensures fresh(history) && fresh(history.data) && fresh(book)
    {
      this.node := node;
      history := new History<nat>();
      book := new Book();
    }

    /**
     One turn of the receive loop. A datagram that does not decode, or whose key is still in the
     history, changes nothing at all; in particular a repeat does not refresh its sender.
     */
    method Turn(from: Addr, d: Datagram, now: int)
      requires history.Valid()
      modifies history, history.data, book, node`state
      ensures history.Valid() && history.data == old(history.data)
      ensures var isNew := d.Decoded? && d.key !in Window(old(history.written));
              && history.written == (if isNew then old(history.written) + [d.key] else old(history.written))
              && book.entries == (if isNew then Insert(old(book.entries), from, now) else old(book.entries))
              && node.View() == (if isNew then Receive(old(node.View()), d.payload, now) else old(node.View()))
    {
      match d {
        case Garbled =>
        case Decoded(key, payload) =>
          var isNew := history.Admit(key);
          if isNew {
            var _ := book.Hear(from, now);
            node.Handle(payload, now);
          }
      }
    }
  }
}
