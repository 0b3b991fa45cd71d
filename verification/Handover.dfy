/**
 The rule by which the owner of the ledger names the next owner.

 An IPv4 address is its 32-bit big-endian value, so comparing values is comparing octets from
 the left.
 */
module Handover {
  import opened Arithmetic
  import opened Collections

  type Addr = a: int | 0 <= a < 0x1_0000_0000

  const LIMITED_BROADCAST: Addr := 0xFFFF_FFFF

  function LastOctet(a: Addr): nat {
    a % 256
  }

  function Gap(me: Addr, a: Addr): nat {
    SaturatingSub(LastOctet(a), LastOctet(me))
  }

  /** A machine's book names every other member; whether it also names the machine is left open. */
  ghost predicate Covers(book: seq<Addr>, s: set<Addr>, me: Addr) {
    ToSet(book) == s || ToSet(book) == s - {me}
  }

  /** The closest entry above `me` by last octet, as the pair of fold variables. */
  datatype Best = Best(gap: int, addr: Addr)

  function Consider(best: Best, me: Addr, a: Addr): Best {
    var gap := Gap(me, a);
    if 0 < gap < best.gap then Best(gap, a) else best
  }

  function Fold(book: seq<Addr>, me: Addr): Best {
    if book == [] then Best(255, LIMITED_BROADCAST)
    else Consider(Fold(book[..|book| - 1], me), me, book[|book| - 1])
  }

  function Lowest(book: seq<Addr>): (m: Addr)
    requires book != []
    ensures m in book
    ensures forall a :: a in book ==> m <= a
  {
    if |book| == 1 then book[0]
    else
      var m := Lowest(book[1..]);
      assert book == [book[0]] + book[1..];
      if book[0] < m then book[0] else m
  }

  function NextOwner(book: seq<Addr>, me: Addr): Addr
    requires book != []
  {
    var best := Fold(book, me);
    if 0 < best.gap < 255 then best.addr else Lowest(book)
  }

  /** The loop over the address book, and the fallback to the lowest address. */
  method PickNext(book: seq<Addr>, me: Addr) returns (next: Addr)
    requires book != []
    ensures next == NextOwner(book, me)
    ensures next in book
  {
    var nextHighest := 255;
    next := LIMITED_BROADCAST;
    for i := 0 to |book|
      invariant Best(nextHighest, next) == Fold(book[..i], me)
    {
      assert book[..i + 1][..i] == book[..i];
      var gap := SaturatingSub(LastOctet(book[i]), LastOctet(me));
      if 0 < gap < nextHighest {
        next := book[i];
        nextHighest := gap;
      }
    }
    assert book[..|book|] == book;
    if !(0 < nextHighest < 255) {
      next := LowestAddress(book);
    }
    FoldFindsClosest(book, me);
  }

  method LowestAddress(book: seq<Addr>) returns (low: Addr)
    requires book != []
    ensures low == Lowest(book)
  {
    low := book[0];
    for i := 1 to |book|
      invariant low in book[..i]
      invariant forall a :: a in book[..i] ==> low <= a
    {
      assert book[..i + 1] == book[..i] + [book[i]];
      if book[i] < low {
        low := book[i];
      }
    }
    assert book[..|book|] == book;
  }

  lemma {:induction false} FoldFindsClosest(book: seq<Addr>, me: Addr)
    ensures var best := Fold(book, me);
            && 0 < best.gap <= 255
            && (best.gap < 255 ==> best.addr in book && Gap(me, best.addr) == best.gap)
            && forall a :: a in book && Gap(me, a) > 0 ==> best.gap <= Gap(me, a)
  {
    hide Gap;
    if book == [] {
    } else {
      FoldFindsClosest(book[..|book| - 1], me);
      assert book == book[..|book| - 1] + [book[|book| - 1]];
    }
  }

  lemma {:induction false} FoldFindsFirst(book: seq<Addr>, me: Addr) returns (i: nat)
    requires Fold(book, me).gap < 255
    ensures i < |book| && book[i] == Fold(book, me).addr
    ensures forall j :: 0 <= j < i ==> Gap(me, book[j]) != Fold(book, me).gap
  {
    var k := |book| - 1;
    FoldFindsClosest(book[..k], me);
    if Fold(book, me) == Fold(book[..k], me) {
      i := FoldFindsFirst(book[..k], me);
    } else {
      i := k;
      assert forall j :: 0 <= j < k ==> book[j] in book[..k];
    }
  }

  lemma NextOwnerIsInBook(book: seq<Addr>, me: Addr)
    requires book != []
    ensures NextOwner(book, me) in book
  {
    FoldFindsClosest(book, me);
  }

  /** Every machine has somewhere to pass the ledger to, and only knows members. */
  ghost predicate IsClosed(books: map<Addr, seq<Addr>>) {
    forall me {:trigger books[me]} :: me in books.Keys ==> books[me] != [] && ToSet(books[me]) <= books.Keys
  }

  /** The owner after `k` handovers. */
  ghost function Walk(books: map<Addr, seq<Addr>>, start: Addr, k: nat): (a: Addr)
    requires IsClosed(books) && start in books.Keys
    ensures a in books.Keys
  {
    if k == 0 then start
    else
      var me := Walk(books, start, k - 1);
      NextOwnerIsInBook(books[me], me);
      assert NextOwner(books[me], me) in ToSet(books[me]);
      NextOwner(books[me], me)
  }
}
