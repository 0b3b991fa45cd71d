/**
 When the handover rule gives every machine its turn: the exact condition, for any members and
 any order of their books, and the proof that the owner then goes round in a single cycle.

 Every book names all the other members; whether it also names its own machine is left open.
 */
module Ring {
  import opened Wrappers
  import opened Collections
  import opened Handover

  ghost predicate AreCovering(books: map<Addr, seq<Addr>>) {
    |books.Keys| >= 2 && forall me :: me in books.Keys ==> Covers(books[me], books.Keys, me)
  }

  lemma CoveringIsClosed(books: map<Addr, seq<Addr>>)
    requires AreCovering(books)
    ensures IsClosed(books)
  {
    forall me | me in books.Keys
      ensures books[me] != [] && ToSet(books[me]) <= books.Keys
    {
      var other := OtherMember(books.Keys, me);
      assert other in ToSet(books[me]);
    }
  }

  lemma OtherMember(s: set<Addr>, me: Addr) returns (other: Addr)
    requires me in s && |s| >= 2
    ensures other in s && other != me
  {
    assert |s - {me}| >= 1;
    other :| other in s - {me};
  }

  lemma CoveredMembers(book: seq<Addr>, s: set<Addr>, me: Addr)
    requires Covers(book, s, me)
    ensures forall a :: a in book ==> a in s
    ensures forall a :: a in s && a != me ==> a in book
  {
    assert forall a :: a in book <==> a in ToSet(book);
  }

  /** Within any |members| consecutive handovers, from any owner, each member owns the ledger. */
  ghost predicate EveryoneGetsATurn(books: map<Addr, seq<Addr>>)
    requires IsClosed(books)
  {
    forall start, from: nat, a :: start in books.Keys && a in books.Keys ==> IsVisited(books, start, from, a)
  }

  ghost predicate IsVisited(books: map<Addr, seq<Addr>>, start: Addr, from: nat, a: Addr)
    requires IsClosed(books) && start in books.Keys
  {
    exists k :: from <= k < from + |books.Keys| && Walk(books, start, k) == a
  }

  // ---------- The condition ----------

  ghost predicate IsLowest(s: set<Addr>, m: Addr) {
    m in s && forall a :: a in s ==> m <= a
  }

  ghost predicate HaveDistinctOctets(s: set<Addr>) {
    forall a, b :: a in s && b in s && a != b ==> LastOctet(a) != LastOctet(b)
  }

  /** A pair ending in .0 and .255: a gap that the strict comparison with 255 cannot see. */
  ghost predicate IsTopPair(s: set<Addr>, m: Addr) {
    exists b :: s == {m, b} && LastOctet(m) == 0 && LastOctet(b) == 255
  }

  /**
   The usual case: different last octets, the least of them at the lowest address; and if there
   are only .0 and .255, the lowest machine's book does not name itself.
   */
  ghost predicate Rises(books: map<Addr, seq<Addr>>, m: Addr)
    requires m in books
  {
    var s := books.Keys;
    && HaveDistinctOctets(s)
    && (forall a :: a in s ==> LastOctet(m) <= LastOctet(a))
    && !(IsTopPair(s, m) && m in books[m])
  }

  ghost predicate ListsBefore(book: seq<Addr>, x: Addr, m: Addr) {
    exists i :: 0 <= i < |book| && book[i] == x && m !in book[..i]
  }

  /** No member but `m` has its last octet strictly between those of `p` and `x`. */
  ghost predicate AreAdjacent(s: set<Addr>, m: Addr, p: Addr, x: Addr) {
    && p in s && x in s && p != m && x != m && LastOctet(p) < LastOctet(x)
    && forall b :: b in s && b != m ==> !(LastOctet(p) < LastOctet(b) < LastOctet(x))
  }

  /**
   The other case: the lowest address has the greatest last octet and a book that leaves itself
   out, so that its fallback is the second lowest address, which has the least octet of the rest.
   Should a member share that greatest octet, the one below it must list it first and see it.
   */
  ghost predicate Drops(books: map<Addr, seq<Addr>>, m: Addr)
    requires m in books && forall a :: a in books.Keys ==> a in books
  {
    var s := books.Keys;
    && m !in books[m]
    && HaveDistinctOctets(s - {m})
    && (forall a :: a in s ==> LastOctet(a) <= LastOctet(m))
    && (forall a, b :: IsLowest(s - {m}, a) && b in s - {m} ==> LastOctet(a) <= LastOctet(b))
    && (forall p, x :: AreAdjacent(s, m, p, x) && LastOctet(x) == LastOctet(m) ==>
          ListsBefore(books[p], x, m) && Gap(p, x) < 255)
  }

  ghost predicate IsRing(books: map<Addr, seq<Addr>>) {
    AreCovering(books) && exists m :: IsLowest(books.Keys, m) && (Rises(books, m) || Drops(books, m))
  }

  // ---------- The order of the ring ----------

  /** The place of an address in the order of the ring: its last octet, except for one put on top. */
  ghost function Key(top: Option<Addr>, a: Addr): int {
    if top == Some(a) then 256 else LastOctet(a)
  }

  ghost predicate HaveDistinctKeys(s: set<Addr>, top: Option<Addr>) {
    forall a, b :: a in s && b in s && a != b ==> Key(top, a) != Key(top, b)
  }

  /** `n` is the next member after `me` in the order, or the first if `me` is the last. */
  ghost predicate IsNext(s: set<Addr>, top: Option<Addr>, me: Addr, n: Addr) {
    && n in s && n != me
    && if exists b :: b in s && Key(top, b) > Key(top, me)
       then Key(top, n) > Key(top, me)
         && forall b :: b in s && Key(top, b) > Key(top, me) ==> Key(top, n) <= Key(top, b)
       else forall b :: b in s ==> Key(top, n) <= Key(top, b)
  }

  ghost predicate NamesNext(books: map<Addr, seq<Addr>>, top: Option<Addr>)
    requires IsClosed(books)
  {
    && HaveDistinctKeys(books.Keys, top)
    && forall me :: me in books.Keys ==> IsNext(books.Keys, top, me, NextOwner(books[me], me))
  }

  /** An entry picked by the fold is the next member by last octet. */
  lemma ClosestIsNext(book: seq<Addr>, s: set<Addr>, me: Addr)
    requires forall a :: a in book ==> a in s
    requires forall a :: a in s && a != me ==> a in book
    requires Fold(book, me).gap < 255
    ensures IsNext(s, None, me, Fold(book, me).addr)
  {
    FoldFindsClosest(book, me);
    var best := Fold(book, me);
    forall b | b in s && LastOctet(b) > LastOctet(me)
      ensures LastOctet(best.addr) <= LastOctet(b)
    {
      assert Gap(me, b) > 0 && b in book;
    }
    assert best.addr in s && LastOctet(best.addr) > LastOctet(me);
  }

  /** Different last octets, with the least of them at the lowest address. */
  ghost predicate IsAligned(s: set<Addr>, m: Addr) {
    IsLowest(s, m) && HaveDistinctOctets(s) && forall a :: a in s ==> LastOctet(m) <= LastOctet(a)
  }

  /**
   On aligned members the rule names the cyclic successor by last octet, whatever the order of the
   book, with one exception: the lower of a pair ending in .0 and .255 whose book names itself.
   */
  lemma NextOwnerIsCyclicSuccessor(book: seq<Addr>, s: set<Addr>, m: Addr, me: Addr)
    requires |s| >= 2 && IsAligned(s, m) && me in s && Covers(book, s, me)
    ensures book != []
    ensures IsNext(s, None, me, NextOwner(book, me)) <==> !(me == m && IsTopPair(s, m) && me in book)
  {
    var other := OtherMember(s, me);
    assert other in ToSet(book);
    CoveredMembers(book, s, me);
    FoldFindsClosest(book, me);
    hide IsAligned, IsNext, Gap, Covers;
    if Fold(book, me).gap < 255 {
      ClosestIsNext(book, s, me);
      ClosestIsNoTopPair(book, s, m, me);
    } else if exists b :: b in s && LastOctet(b) > LastOctet(me) {
      var b :| b in s && LastOctet(b) > LastOctet(me);
      TopPairAlternates(book, s, m, me, b);
    } else {
      TopFallsBack(book, s, m, me);
    }
  }

  lemma ClosestIsNoTopPair(book: seq<Addr>, s: set<Addr>, m: Addr, me: Addr)
    requires forall a :: a in book ==> a in s
    requires Fold(book, me).gap < 255
    ensures !(me == m && IsTopPair(s, m))
  {
    FoldFindsClosest(book, me);
    assert Fold(book, me).addr in s;
  }

  /** Nobody is above: the fallback is the lowest machine, which is the first in the order. */
  lemma TopFallsBack(book: seq<Addr>, s: set<Addr>, m: Addr, me: Addr)
    requires |s| >= 2 && IsAligned(s, m) && me in s && book != []
    requires forall a :: a in book ==> a in s
    requires forall a :: a in s && a != me ==> a in book
    requires forall b :: b in s ==> LastOctet(b) <= LastOctet(me)
    ensures Lowest(book) == m && me != m && IsNext(s, None, me, m)
  {
    var other := OtherMember(s, me);
    assert LastOctet(other) != LastOctet(me);
  }

  /** Somebody is above, but only at a gap of 255: there are two members, and they take turns. */
  lemma TopPairAlternates(book: seq<Addr>, s: set<Addr>, m: Addr, me: Addr, b: Addr)
    requires IsAligned(s, m) && me in s && b in s && LastOctet(b) > LastOctet(me) && book != []
    requires forall a :: a in book ==> a in s
    requires forall a :: a in s && a != me ==> a in book
    requires forall a :: a in book && Gap(me, a) > 0 ==> Gap(me, a) >= 255
    ensures me == m && IsTopPair(s, m)
    ensures IsNext(s, None, me, Lowest(book)) <==> me !in book
  {
    assert b in book && Gap(me, b) >= 255;
    forall a | a in s
      ensures a == m || a == b
    {
      assert a in book || a == me;
    }
    assert s == {m, b} && me == m;
    assert me !in book ==> Lowest(book) == b;
  }

  lemma RisingNamesNext(books: map<Addr, seq<Addr>>, m: Addr, me: Addr)
    requires AreCovering(books) && IsLowest(books.Keys, m) && Rises(books, m) && me in books.Keys
    ensures books[me] != []
    ensures IsNext(books.Keys, None, me, NextOwner(books[me], me))
  {
    NextOwnerIsCyclicSuccessor(books[me], books.Keys, m, me);
  }

  lemma DroppingNamesNext(books: map<Addr, seq<Addr>>, m: Addr, me: Addr)
    requires AreCovering(books) && IsLowest(books.Keys, m) && Drops(books, m) && me in books.Keys
    ensures books[me] != []
    ensures IsNext(books.Keys, Some(m), me, NextOwner(books[me], me))
  {
    CoveringIsClosed(books);
    if me == m {
      LowestDrops(books, m);
    } else {
      OthersClimb(books, m, me);
    }
  }

  lemma LowestDrops(books: map<Addr, seq<Addr>>, m: Addr)
    requires AreCovering(books) && IsClosed(books) && IsLowest(books.Keys, m) && Drops(books, m)
    ensures IsNext(books.Keys, Some(m), m, NextOwner(books[m], m))
  {
    var s, book := books.Keys, books[m];
    CoveredMembers(book, s, m);
    FoldFindsClosest(book, m);
    assert NextOwner(book, m) == Lowest(book);
    assert IsLowest(s - {m}, Lowest(book));
  }

  /** Putting `m` on top does not change who comes next below it. */
  lemma NextBelowTop(s: set<Addr>, m: Addr, me: Addr, n: Addr)
    requires m in s && me in s && me != m && n != m
    requires IsNext(s, None, me, n) && LastOctet(n) > LastOctet(me)
    ensures IsNext(s, Some(m), me, n)
  {
    assert Key(Some(m), m) > Key(Some(m), me);
    assert Key(None, n) > Key(None, me);
  }

  lemma TopComesLast(s: set<Addr>, m: Addr, me: Addr)
    requires m in s && me in s && me != m
    requires forall b :: b in s && b != m ==> LastOctet(b) <= LastOctet(me)
    ensures IsNext(s, Some(m), me, m)
  {
    assert Key(Some(m), m) > Key(Some(m), me);
  }

  lemma OthersClimb(books: map<Addr, seq<Addr>>, m: Addr, me: Addr)
    requires AreCovering(books) && IsClosed(books) && IsLowest(books.Keys, m) && Drops(books, m)
    requires me in books.Keys && me != m
    ensures IsNext(books.Keys, Some(m), me, NextOwner(books[me], me))
  {
    var s, book := books.Keys, books[me];
    CoveredMembers(book, s, me);
    FoldFindsClosest(book, me);
    var best := Fold(book, me);
    hide IsNext;
    if best.gap < 255 && best.addr != m {
      ClosestIsNext(book, s, me);
      NextBelowTop(s, m, me, best.addr);
    } else {
      forall b | b in s && b != m
        ensures LastOctet(b) <= LastOctet(me)
      {
        if LastOctet(b) > LastOctet(me) {
          TiedMemberComesFirst(books, m, me, b);
        }
      }
      hide Drops;
      TopComesLast(s, m, me);
      assert NextOwner(book, me) == m;
    }
  }

  /** If the fold passes over the members above for `m`, they share its last octet. */
  lemma PassedOverIsTied(book: seq<Addr>, s: set<Addr>, m: Addr, me: Addr, b: Addr)
    requires forall a :: a in book ==> a in s
    requires forall a :: a in s && a != me ==> a in book
    requires forall a :: a in s ==> LastOctet(a) <= LastOctet(m)
    requires me in s && me != m && b in s && b != m && LastOctet(b) > LastOctet(me)
    requires Fold(book, me).gap == 255 || Fold(book, me).addr == m
    ensures AreAdjacent(s, m, me, b) && LastOctet(b) == LastOctet(m)
  {
    FoldFindsClosest(book, me);
    forall c | c in s && LastOctet(c) > LastOctet(me)
      ensures LastOctet(c) == LastOctet(m)
    {
      assert c in book && Gap(me, c) >= Fold(book, me).gap;
    }
  }

  /** Where a member other than `m` lies above, the rule names such a member. */
  lemma TiedMemberComesFirst(books: map<Addr, seq<Addr>>, m: Addr, me: Addr, b: Addr)
    requires AreCovering(books) && IsLowest(books.Keys, m) && Drops(books, m)
    requires me in books.Keys && me != m && b in books.Keys && b != m && LastOctet(b) > LastOctet(me)
    ensures Fold(books[me], me).gap < 255 && Fold(books[me], me).addr != m
  {
    var s, book := books.Keys, books[me];
    CoveredMembers(book, s, me);
    FoldFindsClosest(book, me);
    hide AreCovering, AreAdjacent;
    if Fold(book, me).gap == 255 || Fold(book, me).addr == m {
      PassedOverIsTied(book, s, m, me, b);
      assert Gap(me, b) == Gap(me, m) && Gap(me, b) < 255 && b in book;
      FirstListedWins(book, me, b, m);
    }
  }

  /** Of two entries at one gap the fold never picks the one listed later. */
  lemma FirstListedWins(book: seq<Addr>, me: Addr, x: Addr, m: Addr)
    requires Gap(me, x) == Gap(me, m) && x != m && ListsBefore(book, x, m)
    requires Fold(book, me).gap < 255
    ensures Fold(book, me).addr != m
  {
    FoldFindsClosest(book, me);
    var i := FoldFindsFirst(book, me);
    var k :| 0 <= k < |book| && book[k] == x && m !in book[..k];
    assert i < k ==> book[..k][i] == book[i];
  }

  lemma RingNamesNext(books: map<Addr, seq<Addr>>) returns (top: Option<Addr>)
    requires IsRing(books)
    ensures IsClosed(books) && NamesNext(books, top)
  {
    CoveringIsClosed(books);
    var m :| IsLowest(books.Keys, m) && (Rises(books, m) || Drops(books, m));
    if Rises(books, m) {
      RisingHasOrder(books, m);
      top := None;
    } else {
      DroppingHasOrder(books, m);
      top := Some(m);
    }
  }

  lemma RisingHasOrder(books: map<Addr, seq<Addr>>, m: Addr)
    requires AreCovering(books) && IsClosed(books) && IsLowest(books.Keys, m) && Rises(books, m)
    ensures NamesNext(books, None)
  {
    assert HaveDistinctKeys(books.Keys, None);
    hide AreCovering, IsNext, Rises, IsLowest, NextOwner, HaveDistinctKeys, IsClosed;
    forall me | me in books.Keys
      ensures books[me] != [] && IsNext(books.Keys, None, me, NextOwner(books[me], me))
    {
      RisingNamesNext(books, m, me);
    }
  }

  lemma DroppingHasOrder(books: map<Addr, seq<Addr>>, m: Addr)
    requires AreCovering(books) && IsClosed(books) && IsLowest(books.Keys, m) && Drops(books, m)
    ensures NamesNext(books, Some(m))
  {
    assert HaveDistinctKeys(books.Keys, Some(m));
    hide AreCovering, IsNext, Drops, IsLowest, NextOwner, HaveDistinctKeys, IsClosed;
    forall me | me in books.Keys
      ensures books[me] != [] && IsNext(books.Keys, Some(m), me, NextOwner(books[me], me))
    {
      DroppingNamesNext(books, m, me);
    }
  }

  // ---------- Going round ----------

  ghost function Below(s: set<Addr>, top: Option<Addr>, a: Addr): set<Addr> {
    set b | b in s && Key(top, b) < Key(top, a)
  }

  /** The place of a member in the order of the ring, counted from 0. */
  ghost function Rank(s: set<Addr>, top: Option<Addr>, a: Addr): nat {
    |Below(s, top, a)|
  }

  ghost function Turn(n: nat, r: nat): nat {
    if r < n then r else r - n
  }

  /** Just below the next member are this one and the members below it. */
  lemma BelowNext(s: set<Addr>, top: Option<Addr>, me: Addr, n: Addr)
    requires me in s && HaveDistinctKeys(s, top) && IsNext(s, top, me, n)
    requires exists b :: b in s && Key(top, b) > Key(top, me)
    ensures Below(s, top, n) == Below(s, top, me) + {me}
  {
    hide Key;
    forall b | b in s
      ensures Key(top, b) < Key(top, n) <==> Key(top, b) < Key(top, me) || b == me
    {
    }
  }

  /** Behind the last member the first one is next, with nobody below it. */
  lemma BelowFirst(s: set<Addr>, top: Option<Addr>, me: Addr, n: Addr)
    requires me in s && HaveDistinctKeys(s, top) && IsNext(s, top, me, n)
    requires !exists b :: b in s && Key(top, b) > Key(top, me)
    ensures Below(s, top, n) == {} && Below(s, top, me) == s - {me}
  {
    hide Key;
  }

  lemma NextAdvancesRank(s: set<Addr>, top: Option<Addr>, me: Addr, n: Addr)
    requires me in s && HaveDistinctKeys(s, top) && IsNext(s, top, me, n)
    ensures Rank(s, top, n) == Turn(|s|, Rank(s, top, me) + 1)
  {
    if exists b :: b in s && Key(top, b) > Key(top, me) {
      BelowNext(s, top, me, n);
      assert me !in Below(s, top, me) && n !in Below(s, top, n);
      hide Below, IsNext, HaveDistinctKeys, Key;
      RankBelowSize(s, top, n);
    } else {
      BelowFirst(s, top, me, n);
    }
  }

  lemma RankBelowSize(s: set<Addr>, top: Option<Addr>, a: Addr)
    requires a in s
    ensures Rank(s, top, a) < |s|
  {
    StrictSubsetIsSmaller(Below(s, top, a), s, a);
  }

  lemma RankIsInjective(s: set<Addr>, top: Option<Addr>, a: Addr, b: Addr)
    requires HaveDistinctKeys(s, top) && a in s && b in s && Rank(s, top, a) == Rank(s, top, b)
    ensures a == b
  {
    if Key(top, a) < Key(top, b) {
      StrictSubsetIsSmaller(Below(s, top, a), Below(s, top, b), a);
    } else if Key(top, b) < Key(top, a) {
      StrictSubsetIsSmaller(Below(s, top, b), Below(s, top, a), b);
    }
  }

  lemma {:induction false} WalkRank(books: map<Addr, seq<Addr>>, top: Option<Addr>, start: Addr, from: nat, k: nat)
    requires IsClosed(books) && NamesNext(books, top) && start in books.Keys
    requires from <= k < from + |books.Keys|
    ensures Rank(books.Keys, top, Walk(books, start, k))
         == Turn(|books.Keys|, Rank(books.Keys, top, Walk(books, start, from)) + (k - from))
  {
    hide IsNext, HaveDistinctKeys, Rank, NextOwner;
    RankBelowSize(books.Keys, top, Walk(books, start, from));
    if k > from {
      var me := Walk(books, start, k - 1);
      WalkRank(books, top, start, from, k - 1);
      NextAdvancesRank(books.Keys, top, me, NextOwner(books[me], me));
    }
  }

  lemma WalkReaches(books: map<Addr, seq<Addr>>, top: Option<Addr>, start: Addr, from: nat, a: Addr) returns (k: nat)
    requires IsClosed(books) && NamesNext(books, top) && start in books.Keys && a in books.Keys
    ensures from <= k < from + |books.Keys| && Walk(books, start, k) == a
  {
    hide NamesNext, Rank, Walk, IsClosed;
    var s := books.Keys;
    var r, target := Rank(s, top, Walk(books, start, from)), Rank(s, top, a);
    RankBelowSize(s, top, a);
    RankBelowSize(s, top, Walk(books, start, from));
    var d := if target >= r then target - r else target - r + |s|;
    assert Turn(|s|, r + d) == target;
    k := from + d;
    WalkRank(books, top, start, from, k);
    KeysAreDistinct(books, top);
    RankIsInjective(s, top, Walk(books, start, k), a);
  }

  lemma KeysAreDistinct(books: map<Addr, seq<Addr>>, top: Option<Addr>)
    requires IsClosed(books) && NamesNext(books, top)
    ensures HaveDistinctKeys(books.Keys, top)
  {
  }

  lemma WalkDoesNotRepeat(books: map<Addr, seq<Addr>>, top: Option<Addr>, start: Addr, from: nat, k: nat, k': nat)
    requires IsClosed(books) && NamesNext(books, top) && start in books.Keys
    requires from <= k < k' < from + |books.Keys|
    ensures Walk(books, start, k) != Walk(books, start, k')
  {
    hide NamesNext, Rank, Walk;
    WalkRank(books, top, start, from, k);
    WalkRank(books, top, start, from, k');
    RankBelowSize(books.Keys, top, Walk(books, start, from));
  }

  /** In a ring, any |members| consecutive handovers visit every member exactly once. */
  lemma RingVisitsEveryMemberOnce(books: map<Addr, seq<Addr>>, start: Addr, from: nat, a: Addr)
    requires IsRing(books) && start in books.Keys && a in books.Keys
    ensures IsClosed(books) && IsVisited(books, start, from, a)
    ensures forall k, k' :: from <= k < k' < from + |books.Keys| ==>
              Walk(books, start, k) != Walk(books, start, k')
  {
    var top := RingNamesNext(books);
    hide NamesNext, Walk, IsRing;
    var k := WalkReaches(books, top, start, from, a);
    forall k, k' | from <= k < k' < from + |books.Keys|
      ensures Walk(books, start, k) != Walk(books, start, k')
    {
      WalkDoesNotRepeat(books, top, start, from, k, k');
    }
  }

  // ---------- Nothing else goes round ----------

  /** A walk from `m` that visits every member once. */
  ghost predicate IsTour(books: map<Addr, seq<Addr>>, m: Addr, w: seq<Addr>)
    requires IsClosed(books)
  {
    && |w| == |books.Keys| && ToSet(w) == books.Keys && NoDuplicates(w)
    && |w| >= 2 && w[0] == m
    && forall k :: 0 <= k < |w| - 1 ==> w[k] in books && w[k + 1] == NextOwner(books[w[k]], w[k])
  }

  lemma FairnessMakesTour(books: map<Addr, seq<Addr>>, m: Addr) returns (w: seq<Addr>)
    requires AreCovering(books) && IsClosed(books) && EveryoneGetsATurn(books) && m in books.Keys
    ensures IsTour(books, m, w)
  {
    w := Steps(books, m, |books.Keys|);
    forall k | 0 <= k < |w| - 1
      ensures w[k] in books && w[k + 1] == NextOwner(books[w[k]], w[k])
    {
      WalkStep(books, m, k);
    }
    hide AreCovering, NextOwner, IsClosed, Walk;
    forall a | a in books.Keys
      ensures a in w
    {
      assert IsVisited(books, m, 0, a);
      var k :| 0 <= k < |w| && Walk(books, m, k) == a;
      assert w[k] == a;
    }
    assert ToSet(w) == books.Keys;
    FullMeansNoDuplicates(w);
    WalkStarts(books, m);
  }

  ghost function Steps(books: map<Addr, seq<Addr>>, m: Addr, n: nat): (w: seq<Addr>)
    requires IsClosed(books) && m in books.Keys
    ensures |w| == n && forall k :: 0 <= k < n ==> w[k] == Walk(books, m, k) && w[k] in books.Keys
  {
    hide NextOwner;
    seq(n, k requires 0 <= k < n => Walk(books, m, k))
  }

  lemma WalkStarts(books: map<Addr, seq<Addr>>, m: Addr)
    requires IsClosed(books) && m in books.Keys
    ensures Walk(books, m, 0) == m
  {
  }

  lemma WalkStep(books: map<Addr, seq<Addr>>, m: Addr, k: nat)
    requires IsClosed(books) && m in books.Keys
    ensures Walk(books, m, k + 1) == NextOwner(books[Walk(books, m, k)], Walk(books, m, k))
  {
  }

  /** In a tour every step that does not start at `m` goes up, as its fallback would be `m`. */
  lemma TourClimbs(books: map<Addr, seq<Addr>>, m: Addr, w: seq<Addr>, k: nat)
    requires AreCovering(books) && IsClosed(books) && IsLowest(books.Keys, m) && IsTour(books, m, w)
    requires k < |w| - 1 && (k == 0 ==> Fold(books[m], m).gap < 255)
    ensures w[k] in books && Fold(books[w[k]], w[k]).gap < 255 && w[k + 1] == Fold(books[w[k]], w[k]).addr
    ensures LastOctet(w[k]) < LastOctet(w[k + 1]) && Gap(w[k], w[k + 1]) == Fold(books[w[k]], w[k]).gap
  {
    var me, book := w[k], books[w[k]];
    assert me in ToSet(w);
    CoveredMembers(book, books.Keys, me);
    FoldFindsClosest(book, me);
    assert k > 0 ==> w[0] != w[k];
    assert w[0] != w[k + 1];
    assert me != m ==> Lowest(book) == m;
  }

  /** From place `i` on, a tour that climbs at each step is sorted by last octet. */
  lemma {:induction false} TourIsSorted(books: map<Addr, seq<Addr>>, m: Addr, w: seq<Addr>, i: nat, j: nat)
    requires AreCovering(books) && IsClosed(books) && IsLowest(books.Keys, m) && IsTour(books, m, w)
    requires i < j < |w| && (i == 0 ==> Fold(books[m], m).gap < 255)
    ensures LastOctet(w[i]) < LastOctet(w[j])
  {
    hide AreCovering, IsTour, IsLowest, Fold;
    TourClimbs(books, m, w, j - 1);
    if i < j - 1 {
      TourIsSorted(books, m, w, i, j - 1);
    }
  }

  lemma TourPlace(books: map<Addr, seq<Addr>>, m: Addr, w: seq<Addr>, a: Addr) returns (i: nat)
    requires IsClosed(books) && IsTour(books, m, w) && a in books.Keys
    ensures i < |w| && w[i] == a && (i == 0 <==> a == m)
  {
    assert a in ToSet(w);
    i :| 0 <= i < |w| && w[i] == a;
  }

  /** Two members of which the first is visited earlier, after the tour has started to climb. */
  lemma TourOrders(books: map<Addr, seq<Addr>>, m: Addr, w: seq<Addr>, a: Addr, b: Addr)
    requires AreCovering(books) && IsClosed(books) && IsLowest(books.Keys, m) && IsTour(books, m, w)
    requires a in books.Keys && b in books.Keys && a != b
    requires Fold(books[m], m).gap < 255 || (a != m && b != m)
    ensures LastOctet(a) != LastOctet(b)
    ensures Fold(books[m], m).gap < 255 && a == m ==> LastOctet(a) < LastOctet(b)
  {
    var i := TourPlace(books, m, w, a);
    var j := TourPlace(books, m, w, b);
    hide AreCovering, IsTour, IsLowest, Fold;
    if i < j {
      TourIsSorted(books, m, w, i, j);
    } else {
      TourIsSorted(books, m, w, j, i);
    }
  }

  lemma ClimbingTourRises(books: map<Addr, seq<Addr>>, m: Addr, w: seq<Addr>)
    requires AreCovering(books) && IsClosed(books) && IsLowest(books.Keys, m) && IsTour(books, m, w)
    requires Fold(books[m], m).gap < 255
    ensures Rises(books, m)
  {
    forall a, b | a in books.Keys && b in books.Keys && a != b
      ensures LastOctet(a) != LastOctet(b) && (a == m ==> LastOctet(a) < LastOctet(b))
    {
      TourOrders(books, m, w, a, b);
    }
    CoveredMembers(books[m], books.Keys, m);
    FoldFindsClosest(books[m], m);
    assert Fold(books[m], m).addr in books.Keys;
  }

  /** A tour whose first step is a fallback leaves `m` for the second lowest address. */
  lemma FallingTourLeaves(books: map<Addr, seq<Addr>>, m: Addr, w: seq<Addr>)
    requires AreCovering(books) && IsClosed(books) && IsLowest(books.Keys, m) && IsTour(books, m, w)
    requires Fold(books[m], m).gap == 255
    ensures m !in books[m] && IsLowest(books.Keys - {m}, w[1])
  {
    CoveredMembers(books[m], books.Keys, m);
    assert w[1] == Lowest(books[m]) && w[0] != w[1];
  }

  lemma FallingTourDrops(books: map<Addr, seq<Addr>>, m: Addr, w: seq<Addr>)
    requires AreCovering(books) && IsClosed(books) && IsLowest(books.Keys, m) && IsTour(books, m, w)
    requires Fold(books[m], m).gap == 255
    requires forall a :: a in books.Keys ==> LastOctet(a) <= LastOctet(m)
    ensures Drops(books, m)
  {
    var s := books.Keys;
    FallingTourLeaves(books, m, w);
    forall a, b | a in s && b in s && a != b && a != m && b != m
      ensures LastOctet(a) != LastOctet(b)
    {
      TourOrders(books, m, w, a, b);
    }
    forall b | b in s && b != m
      ensures LastOctet(w[1]) <= LastOctet(b)
    {
      SecondIsLeast(books, m, w, b);
    }
    forall p, x | AreAdjacent(s, m, p, x) && LastOctet(x) == LastOctet(m)
      ensures ListsBefore(books[p], x, m) && Gap(p, x) < 255
    {
      AdjacentIsListed(books, m, w, p, x);
    }
  }

  lemma SecondIsLeast(books: map<Addr, seq<Addr>>, m: Addr, w: seq<Addr>, b: Addr)
    requires AreCovering(books) && IsClosed(books) && IsLowest(books.Keys, m) && IsTour(books, m, w)
    requires b in books.Keys && b != m
    ensures LastOctet(w[1]) <= LastOctet(b)
  {
    var j := TourPlace(books, m, w, b);
    hide AreCovering, IsTour, IsLowest;
    if j > 1 {
      TourIsSorted(books, m, w, 1, j);
    }
  }

  /** Members next to each other by last octet follow each other in the tour. */
  lemma AdjacentIsListed(books: map<Addr, seq<Addr>>, m: Addr, w: seq<Addr>, p: Addr, x: Addr)
    requires AreCovering(books) && IsClosed(books) && IsLowest(books.Keys, m) && IsTour(books, m, w)
    requires AreAdjacent(books.Keys, m, p, x) && LastOctet(x) == LastOctet(m)
    ensures ListsBefore(books[p], x, m) && Gap(p, x) < 255
  {
    var i := TourPlace(books, m, w, p);
    var j := TourPlace(books, m, w, x);
    AdjacentFollow(books, m, w, i, j);
    TourClimbs(books, m, w, i);
    var book := books[p];
    var k := FoldFindsFirst(book, p);
    assert Gap(p, m) == Gap(p, x);
    assert m !in book[..k];
  }

  lemma AdjacentFollow(books: map<Addr, seq<Addr>>, m: Addr, w: seq<Addr>, i: nat, j: nat)
    requires AreCovering(books) && IsClosed(books) && IsLowest(books.Keys, m) && IsTour(books, m, w)
    requires 0 < i < |w| && 0 < j < |w| && AreAdjacent(books.Keys, m, w[i], w[j])
    ensures j == i + 1
  {
    assert forall k :: 0 < k < |w| ==> w[k] in ToSet(w) && w[k] != w[0];
    if i < j - 1 {
      TourIsSorted(books, m, w, i, i + 1);
      TourIsSorted(books, m, w, i + 1, j);
    } else if j < i {
      TourIsSorted(books, m, w, j, i);
    }
  }

  /** If the first step is a fallback although somebody is above, there are only .0 and .255. */
  lemma FallingTourOfTwo(books: map<Addr, seq<Addr>>, m: Addr, w: seq<Addr>, b: Addr)
    requires AreCovering(books) && IsClosed(books) && IsLowest(books.Keys, m) && IsTour(books, m, w)
    requires Fold(books[m], m).gap == 255
    requires b in books.Keys && LastOctet(b) > LastOctet(m)
    ensures Rises(books, m)
  {
    FallingTourLeaves(books, m, w);
    FallingOctets(books, m);
    hide AreCovering, IsLowest, Fold, IsClosed;
    assert b in books.Keys - {m};
    if |w| > 2 {
      assert w[1] in ToSet(w) && w[2] in ToSet(w);
      assert w[1] != w[0];
      TourClimbs(books, m, w, 1);
      assert false;
    } else {
      assert ToSet(w) == {m, b};
      PairRises(books, m, b);
    }
  }

  /** Only .0 and .255, and the lower book leaves itself out. */
  lemma PairRises(books: map<Addr, seq<Addr>>, m: Addr, b: Addr)
    requires books.Keys == {m, b} && LastOctet(m) == 0 && LastOctet(b) == 255 && m !in books[m]
    ensures Rises(books, m)
  {
  }

  lemma FallingOctets(books: map<Addr, seq<Addr>>, m: Addr)
    requires AreCovering(books) && m in books.Keys && Fold(books[m], m).gap == 255
    ensures forall a :: a in books.Keys && LastOctet(a) > LastOctet(m) ==> LastOctet(m) == 0 && LastOctet(a) == 255
  {
    CoveredMembers(books[m], books.Keys, m);
    FoldFindsClosest(books[m], m);
    forall a | a in books.Keys && LastOctet(a) > LastOctet(m)
      ensures LastOctet(m) == 0 && LastOctet(a) == 255
    {
      assert a in books[m] && Gap(m, a) >= 255;
    }
  }

  lemma TourMakesRing(books: map<Addr, seq<Addr>>, m: Addr, w: seq<Addr>)
    requires AreCovering(books) && IsClosed(books) && IsLowest(books.Keys, m) && IsTour(books, m, w)
    ensures Rises(books, m) || Drops(books, m)
  {
    hide Rises, Drops, IsTour, AreCovering;
    FoldFindsClosest(books[m], m);
    if Fold(books[m], m).gap < 255 {
      ClimbingTourRises(books, m, w);
    } else if exists b :: b in books.Keys && LastOctet(b) > LastOctet(m) {
      var b :| b in books.Keys && LastOctet(b) > LastOctet(m);
      FallingTourOfTwo(books, m, w, b);
    } else {
      FallingTourDrops(books, m, w);
    }
  }

  // ---------- Exactly ----------

  lemma {:induction false} LowestExists(s: set<Addr>) returns (m: Addr)
    requires s != {}
    ensures IsLowest(s, m)
  {
    m :| m in s;
    if s != {m} {
      var rest := LowestExists(s - {m});
      assert s == (s - {m}) + {m};
      m := if rest < m then rest else m;
    }
  }

  /**
   Whatever the members and the order of their books: everyone gets a turn in every |members|
   consecutive handovers if and only if the last octets and the books meet the condition.
   */
  lemma EveryoneGetsATurnIffRing(books: map<Addr, seq<Addr>>)
    requires AreCovering(books)
    ensures IsClosed(books)
    ensures EveryoneGetsATurn(books) <==> IsRing(books)
  {
    CoveringIsClosed(books);
    hide Walk, IsVisited, Rises, Drops;
    if EveryoneGetsATurn(books) {
      var m := LowestExists(books.Keys);
      var w := FairnessMakesTour(books, m);
      TourMakesRing(books, m, w);
    }
    if IsRing(books) {
      forall start, from: nat, a | start in books.Keys && a in books.Keys
        ensures IsVisited(books, start, from, a)
      {
        RingVisitsEveryMemberOnce(books, start, from, a);
      }
    }
  }

  /** Books that name their own machine: the condition is on the addresses alone. */
  lemma SelfNamingRing(books: map<Addr, seq<Addr>>, m: Addr)
    requires |books.Keys| >= 2 && IsLowest(books.Keys, m)
    requires forall me :: me in books.Keys ==> ToSet(books[me]) == books.Keys
    ensures IsClosed(books)
    ensures EveryoneGetsATurn(books)
       <==> && HaveDistinctOctets(books.Keys)
            && (forall a :: a in books.Keys ==> LastOctet(m) <= LastOctet(a))
            && !IsTopPair(books.Keys, m)
  {
    assert AreCovering(books);
    EveryoneGetsATurnIffRing(books);
    assert m in ToSet(books[m]);
    assert forall m' :: IsLowest(books.Keys, m') ==> m' == m;
    hide EveryoneGetsATurn, IsTopPair, HaveDistinctOctets;
    assert IsRing(books) <==> Rises(books, m) || Drops(books, m);
  }

  /** Members that share three octets: only the pair can go wrong. */
  lemma OneSubnetRing(books: map<Addr, seq<Addr>>, m: Addr)
    requires AreCovering(books) && IsLowest(books.Keys, m)
    requires forall a :: a in books.Keys ==> a / 256 == m / 256
    ensures IsRing(books) <==> !(IsTopPair(books.Keys, m) && m in books[m])
  {
    assert forall m' :: IsLowest(books.Keys, m') ==> m' == m;
    assert HaveDistinctOctets(books.Keys);
    var other := OtherMember(books.Keys, m);
    assert LastOctet(other) > LastOctet(m);
    assert !Drops(books, m);
    hide Drops, IsTopPair, HaveDistinctOctets, AreCovering;
    assert forall a :: a in books.Keys ==> LastOctet(m) <= LastOctet(a);
    assert Rises(books, m) <==> !(IsTopPair(books.Keys, m) && m in books[m]);
  }

  // ---------- A member that starves ----------

  ghost function ThreeBooks(a: Addr, b: Addr, c: Addr): map<Addr, seq<Addr>> {
    map[a := [b, c], b := [a, c], c := [a, b]]
  }

  /** Three machines with one last octet on three subnets: the highest is never handed the ledger. */
  lemma {:induction false} AcrossSubnetsAMemberStarves(a: Addr, b: Addr, c: Addr, k: nat)
    requires a < b < c && LastOctet(a) == LastOctet(b) == LastOctet(c)
    ensures IsClosed(ThreeBooks(a, b, c))
    ensures forall me :: me in {a, b, c} ==> Covers(ThreeBooks(a, b, c)[me], {a, b, c}, me)
    ensures Walk(ThreeBooks(a, b, c), a, k) != c
  {
    var books := ThreeBooks(a, b, c);
    assert ToSet([b, c]) == {a, b, c} - {a};
    assert ToSet([a, c]) == {a, b, c} - {b};
    assert ToSet([a, b]) == {a, b, c} - {c};
    if k > 0 {
      AcrossSubnetsAMemberStarves(a, b, c, k - 1);
      var me := Walk(books, a, k - 1);
      FoldFindsClosest(books[me], me);
      NextOwnerIsInBook(books[me], me);
    }
  }
}
