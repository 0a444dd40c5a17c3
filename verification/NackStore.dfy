/**
 The store of sent RTP packets behind the NACK responder: a singly linked list from the oldest to
 the newest packet, and a hash index from sequence numbers to list elements.
 */
module NackStore {
  import opened Bytes

  const RTP_HEADER_SIZE := 12

  type Packet = p: seq<byte> | |p| >= RTP_HEADER_SIZE witness seq(RTP_HEADER_SIZE, _ => 0)

  /** Octets 2 and 3 of an RTP header. */
  function SequenceNumber(packet: Packet): uint16
  {
    U16(packet, 2)
  }

  datatype Entry = Entry(number: int, packet: Packet)

  function EntryOf(packet: Packet): Entry
  {
    Entry(SequenceNumber(packet), packet)
  }

  class Element {
    const entry: Entry
    var next: Element?

    constructor (entry: Entry)
      ensures this.entry == entry && next == null
    {
      this.entry := entry;
      next := null;
    }
  }

  /** The packets of the list, oldest first, and what the index finds. */
  datatype Contents = Contents(chain: seq<Entry>, index: map<int, Packet>)

  const NOTHING := Contents([], map[])

  function Appended(c: Contents, e: Entry): Contents
  {
    Contents(c.chain + [e], if e.number in c.index then c.index else c.index[e.number := e.packet])
  }

  function Evicted(c: Contents): Contents
    requires c.chain != []
  {
    Contents(c.chain[1..], c.index - {c.chain[0].number})
  }

  /**
   One store, on any contents: a number that is already indexed keeps its old packet, and at most
   one packet, the oldest of the list, is evicted.
   */
  function Stored(c: Contents, maximumSize: nat, e: Entry): (r: Contents)
  {
    var a := Appended(c, e);
    if |a.index| <= maximumSize then a else Evicted(a)
  }

  function Lookup(c: Contents, number: int): Option<Packet>
  {
    if number in c.index then Some(c.index[number]) else None
  }

  /** The index leads from numbers to elements of the chain that carry them. */
  ghost predicate Indexes(storage: map<int, Element>, chain: seq<Element>)
  {
    && (forall s :: s in storage ==> storage[s] in chain && storage[s].entry.number == s)
    && (chain == [] <==> storage == map[])
  }

  /** The contents are those of the elements of the chain and of the index. */
  ghost predicate Holding(contents: Contents, chain: seq<Element>, storage: map<int, Element>)
  {
    && |contents.chain| == |chain|
    && (forall i :: 0 <= i < |chain| ==> contents.chain[i] == chain[i].entry)
    && contents.index.Keys == storage.Keys
    && (forall s :: s in storage ==> contents.index[s] == storage[s].entry.packet)
  }

  lemma AppendedHolding(c: Contents, chain: seq<Element>, storage: map<int, Element>, e: Element)
    requires Indexes(storage, chain) && Holding(c, chain, storage)
    ensures var more := if e.entry.number in storage then storage else storage[e.entry.number := e];
            && Indexes(more, chain + [e]) && Holding(Appended(c, e.entry), chain + [e], more)
  {
    assert (chain + [e])[|chain|] == e && forall i :: 0 <= i < |chain| ==> (chain + [e])[i] == chain[i];
  }

  lemma EvictedHolding(c: Contents, chain: seq<Element>, storage: map<int, Element>)
    requires Indexes(storage, chain) && Holding(c, chain, storage) && |chain| > 1
    requires exists s :: s in storage && s != chain[0].entry.number
    ensures var less := storage - {chain[0].entry.number};
            && Indexes(less, chain[1..]) && Holding(Evicted(c), chain[1..], less)
  {
    var less := storage - {chain[0].entry.number};
    var s :| s in storage && s != chain[0].entry.number;
    assert s in less && forall e :: e in chain <==> e == chain[0] || e in chain[1..];
  }

  class Storage {
    var oldest: Element?
    var newest: Element?
    var storage: map<int, Element>
    const maximumSize: nat

    /** The list elements, oldest first, and what they and the index hold. */
    ghost var chain: seq<Element>
    ghost var contents: Contents
    ghost var Repr: set<object>

    /** The elements reachable from `oldest` are exactly the chain, which ends in `newest`. */
    ghost predicate Linked()
      reads this`oldest, this`newest, this`chain, chain
    {
      && (forall i {:trigger chain[i].next} :: 0 <= i < |chain| - 1 ==> chain[i].next == chain[i + 1])
      && (forall i, j :: 0 <= i < j < |chain| ==> chain[i] != chain[j])
      && (chain != [] ==> oldest == chain[0] && newest == chain[|chain| - 1] && newest.next == null)
      && (chain == [] ==> oldest == null && newest == null)
    }

    ghost predicate Valid()
      reads this, Repr
      ensures Valid() ==> this in Repr
    {
      && this in Repr
      && (forall e :: e in chain ==> e in Repr)
      && maximumSize > 0 && Linked() && Indexes(storage, chain) && Holding(contents, chain, storage)
    }

    constructor (maximumSize: nat)
      requires maximumSize > 0
      ensures Valid() && fresh(Repr) && contents == NOTHING && this.maximumSize == maximumSize
    {
      this.maximumSize := maximumSize;
      oldest, newest := null, null;
      storage := map[];
      chain, contents := [], NOTHING;
      Repr := {this};
    }

    method Get(sequenceNumber: int) returns (packet: Option<Packet>)
      requires Valid()
      ensures packet == Lookup(contents, sequenceNumber)
    {
      packet := if sequenceNumber in storage then Some(storage[sequenceNumber].entry.packet) else None;
    }

    /** A missing packet and one shorter than an RTP header are not stored. */
    method Store(packet: Option<seq<byte>>)
      requires Valid()
      modifies Repr
      ensures Valid() && fresh(Repr - old(Repr))
      ensures contents == if packet == None || |packet.value| < RTP_HEADER_SIZE then old(contents)
                          else Stored(old(contents), maximumSize, EntryOf(packet.value))
    {
      if packet == None || |packet.value| < RTP_HEADER_SIZE {
        return;
      }
      StoreEntry(EntryOf(packet.value));
    }

    method StoreEntry(entry: Entry)
      requires Valid()
      modifies Repr
      ensures Valid() && fresh(Repr - old(Repr))
      ensures contents == Stored(old(contents), maximumSize, entry)
    {
      Append(entry);
      assert |storage| == |contents.index|;
      if |storage| > maximumSize {
        Evict();
      }
    }

    /** Links a new element behind the newest one and indexes it unless its number is indexed already. */
    method Append(entry: Entry)
      requires Valid()
      modifies Repr
      ensures Valid() && fresh(Repr - old(Repr))
      ensures contents == Appended(old(contents), entry)
    {
      hide Holding, Indexes, Linked, Appended;
      LinkNew(entry);
      AppendedHolding(contents, old(chain), storage, newest);
      if entry.number !in storage {
        storage := storage[entry.number := newest];
      }
      contents := Appended(contents, entry);
    }

    method LinkNew(entry: Entry)
      requires Valid()
      modifies Repr
      ensures Linked() && newest != null && fresh(newest) && newest.entry == entry
      ensures chain == old(chain) + [newest] && Repr == old(Repr) + {newest}
      ensures storage == old(storage) && contents == old(contents)
    {
      EmptyTogether();
      hide Holding, Indexes, Linked;
      var current := new Element(entry);
      Link(current);
    }

    lemma EmptyTogether()
      requires Valid()
      ensures chain == [] <==> |storage| == 0
      ensures newest != null ==> newest in Repr
    {}

    method Link(current: Element)
      requires Linked() && current !in chain && current.next == null
      requires chain == [] <==> |storage| == 0
      modifies this`oldest, this`newest, this`chain, this`Repr, newest
      ensures Linked() && chain == old(chain) + [current] && newest == current && Repr == old(Repr) + {current}
    {
      if |storage| == 0 {
        newest := current;
        oldest := newest;
      } else {
        newest.next := current;
        newest := current;
      }
      chain, Repr := chain + [current], Repr + {current};
    }

    /** Drops the oldest element and its number. */
    method Evict()
      requires Valid() && |storage| > 1
      modifies this
      ensures Valid() && Repr == old(Repr)
      ensures contents == Evicted(old(contents))
    {
      TwoElements();
      EvictedHolding(contents, chain, storage);
      hide Holding, Indexes;
      storage := storage - {oldest.entry.number};
      oldest := oldest.next;
      chain := chain[1..];
      contents := Evicted(contents);
    }

    /** Two indexed numbers belong to two list elements. */
    lemma TwoElements()
      requires Valid() && |storage| > 1
      ensures |chain| > 1 && exists s :: s in storage && s != chain[0].entry.number
    {
      assert chain != [];
      var number := chain[0].entry.number;
      var s := Another(storage.Keys, number);
      assert storage[s] in chain && storage[s] != chain[0];
    }
  }

  lemma Another<T>(numbers: set<T>, n: T) returns (m: T)
    requires |numbers| > 1
    ensures m in numbers && m != n
  {
    assert numbers != {};
    var x :| x in numbers;
    if x != n {
      m := x;
    } else {
      var others := numbers - {x};
      assert |others| == |numbers| - 1;

      m :| m in others;
    }
  }

  // ----- The store is the last maximumSize packets -----

  /** The contents after storing the packets of a history, one by one, in an empty store. */
  function StoredAll(history: seq<Entry>, maximumSize: nat): (c: Contents)
  {
    if history == [] then NOTHING
    else Stored(StoredAll(history[..|history| - 1], maximumSize), maximumSize, history[|history| - 1])
  }

  function LastN<T>(s: seq<T>, n: nat): (r: seq<T>)
  {
    if |s| <= n then s else s[|s| - n..]
  }

  /** Finds each number's packet; a later packet hides an earlier one with the same number. */
  function IndexOf(entries: seq<Entry>): (index: map<int, Packet>)
  {
    if entries == [] then map[]
    else IndexOf(entries[..|entries| - 1])[entries[|entries| - 1].number := entries[|entries| - 1].packet]
  }

  predicate DistinctNumbers(entries: seq<Entry>)
  {
    forall i, j :: 0 <= i < j < |entries| ==> entries[i].number != entries[j].number
  }

  /** Any maximumSize + 1 successive packets have distinct numbers. */
  predicate DistinctInWindow(history: seq<Entry>, maximumSize: nat)
  {
    forall i, j :: 0 <= i < j < |history| && j - i <= maximumSize ==> history[i].number != history[j].number
  }

  predicate Holds(entries: seq<Entry>, i: int, number: int, packet: Packet)
  {
    0 <= i < |entries| && entries[i] == Entry(number, packet)
  }

  lemma {:induction false} IndexOfIsExact(entries: seq<Entry>)
    requires DistinctNumbers(entries)
    ensures |IndexOf(entries)| == |entries|
    ensures forall i :: 0 <= i < |entries| ==>
              entries[i].number in IndexOf(entries) && IndexOf(entries)[entries[i].number] == entries[i].packet
    ensures forall s :: s in IndexOf(entries) ==> exists i :: Holds(entries, i, s, IndexOf(entries)[s])
  {
    if entries != [] {
      var front, last := entries[..|entries| - 1], entries[|entries| - 1];
      SplitLast(entries);
      IndexOfSnoc(front, last);
      DistinctSnoc(front, last);
      KeysAfter(IndexOf(front), last.number, last.packet);
      hide IndexOf, DistinctNumbers;
      IndexOfIsExact(front);
      forall s | s in IndexOf(entries) ensures exists i :: Holds(entries, i, s, IndexOf(entries)[s]) {
        if s == last.number {
          assert Holds(entries, |front|, s, last.packet);
        } else {
          var i :| Holds(front, i, s, IndexOf(front)[s]);
          assert Holds(entries, i, s, IndexOf(entries)[s]);
        }
      }
    }
  }

  lemma {:induction false} IndexOfTail(entries: seq<Entry>)
    requires entries != [] && DistinctNumbers(entries)
    ensures IndexOf(entries) - {entries[0].number} == IndexOf(entries[1..])
  {
    if |entries| > 1 {
      var front := entries[..|entries| - 1];
      IndexOfTail(front);
      assert entries[1..][..|entries| - 2] == front[1..];
    }
  }

  /** A packet with a new number lengthens the list and the index alike. */
  lemma AppendedKeepsIndex(entries: seq<Entry>, e: Entry)
    requires DistinctNumbers(entries + [e])
    ensures Appended(Contents(entries, IndexOf(entries)), e) ==
            Contents(entries + [e], IndexOf(entries + [e]))
    ensures |IndexOf(entries + [e])| == |entries| + 1
  {
    var a := entries + [e];
    assert a[..|entries|] == entries;
    forall i, j | 0 <= i < j < |entries| ensures entries[i].number != entries[j].number {
      assert a[i].number != a[j].number;
    }
    IndexOfIsExact(entries);
    IndexOfIsExact(a);
    assert IndexOf(a) == IndexOf(entries)[e.number := e.packet];
    assert |IndexOf(a)| == |IndexOf(entries)| + 1;
  }

  lemma WindowIsDistinct(history: seq<Entry>, maximumSize: nat, n: nat)
    requires DistinctInWindow(history, maximumSize) && n <= maximumSize + 1
    ensures DistinctNumbers(LastN(history, n))
  {
    var w := LastN(history, n);
    forall i, j | 0 <= i < j < |w| ensures w[i].number != w[j].number {
      var d := |history| - |w|;
      assert w[i] == history[d + i] && w[j] == history[d + j];
    }
  }

  lemma LastNSlides<T>(s: seq<T>, n: nat)
    requires s != []
    ensures var a := LastN(s[..|s| - 1], n) + [s[|s| - 1]];
            a == LastN(s, |a|) && LastN(s, n) == if |a| <= n then a else a[1..]
  {
    var front := s[..|s| - 1];
    var a := LastN(front, n) + [s[|s| - 1]];
    assert front + [s[|s| - 1]] == s;
    if |front| <= n {
      assert a == s;
    } else {
      var d := |front| - n;
      assert a == s[d..];
      assert s[d..][1..] == s[d + 1..];
    }
  }

  /** For every run: the list and the index hold exactly the last maximumSize packets stored. */
  lemma {:induction false} StoreIsLastN(history: seq<Entry>, maximumSize: nat)
    requires maximumSize > 0 && DistinctInWindow(history, maximumSize)
    ensures StoredAll(history, maximumSize) ==
            Contents(LastN(history, maximumSize), IndexOf(LastN(history, maximumSize)))
  {
    if history != [] {
      var front, e := history[..|history| - 1], history[|history| - 1];
      assert DistinctInWindow(front, maximumSize);
      StoreIsLastN(front, maximumSize);
      LastNSlides(history, maximumSize);
      var w := LastN(front, maximumSize);
      WindowIsDistinct(history, maximumSize, |w| + 1);
      OneStep(w, e, maximumSize);
    }
  }

  lemma OneStep(w: seq<Entry>, e: Entry, maximumSize: nat)
    requires |w| <= maximumSize && DistinctNumbers(w + [e])
    ensures var a := w + [e];
            var kept := if |a| <= maximumSize then a else a[1..];
            Stored(Contents(w, IndexOf(w)), maximumSize, e) == Contents(kept, IndexOf(kept))
  {
    AppendedKeepsIndex(w, e);
    IndexOfTail(w + [e]);
  }

  /** `get` finds a packet exactly when it is one of the last maximumSize stored. */
  lemma LookupIsExact(history: seq<Entry>, maximumSize: nat, number: int, packet: Packet)
    requires maximumSize > 0 && DistinctInWindow(history, maximumSize)
    ensures Lookup(StoredAll(history, maximumSize), number) == Some(packet) <==>
            exists i :: Holds(LastN(history, maximumSize), i, number, packet)
  {
    StoreIsLastN(history, maximumSize);
    WindowIsDistinct(history, maximumSize, maximumSize);
    IndexOfIsExact(LastN(history, maximumSize));
  }

  /** Packets numbered one after the other, modulo 2^16, are distinct in every window up to 65535 long. */
  lemma ConsecutiveIsDistinct(history: seq<Entry>, first: uint16, maximumSize: nat)
    requires maximumSize < TWO_TO_THE_16
    requires forall i :: 0 <= i < |history| ==> history[i].number == (first + i) % TWO_TO_THE_16
    ensures DistinctInWindow(history, maximumSize)
  {}

  // ----- Exactly when it is -----

  /** No index is larger than the list, and it is as large exactly when no number occurs twice. */
  lemma {:induction false} IndexSize(entries: seq<Entry>)
    ensures |IndexOf(entries)| <= |entries|
    ensures |IndexOf(entries)| == |entries| <==> DistinctNumbers(entries)
    ensures forall s :: s in IndexOf(entries) <==> exists i :: 0 <= i < |entries| && entries[i].number == s
  {
    if entries != [] {
      var front, last := entries[..|entries| - 1], entries[|entries| - 1];
      IndexSize(front);
      SplitLast(entries);
      IndexOfSnoc(front, last);
      DistinctSnoc(front, last);
      hide IndexOf, DistinctNumbers;
      KeysAfter(IndexOf(front), last.number, last.packet);
    }
  }

  lemma KeysAfter<K, V>(m: map<K, V>, k: K, v: V)
    ensures |m[k := v]| == if k in m then |m| else |m| + 1
    ensures forall x :: x in m[k := v] <==> x in m || x == k
  {
    assert m[k := v].Keys == m.Keys + {k};
  }

  lemma DistinctSnoc(front: seq<Entry>, last: Entry)
    ensures DistinctNumbers(front + [last]) <==>
            DistinctNumbers(front) && !exists i :: 0 <= i < |front| && front[i].number == last.number
  {
    var all := front + [last];
    assert all[|front|] == last && forall i :: 0 <= i < |front| ==> all[i] == front[i];
    if DistinctNumbers(all) {
      forall i | 0 <= i < |front| ensures front[i].number != last.number {
        assert all[i].number != all[|front|].number;
      }
      forall i, j | 0 <= i < j < |front| ensures front[i].number != front[j].number {
        assert all[i].number != all[j].number;
      }
    }
  }

  /** List and index hold exactly the last maximumSize packets of the history. */
  predicate HoldsLastN(history: seq<Entry>, maximumSize: nat)
  {
    StoredAll(history, maximumSize) == Contents(LastN(history, maximumSize), IndexOf(LastN(history, maximumSize)))
  }

  /** They do so at every moment of the run. */
  predicate AlwaysLastN(history: seq<Entry>, maximumSize: nat)
  {
    forall n :: 0 <= n <= |history| ==> HoldsLastN(history[..n], maximumSize)
  }

  /**
   One more packet: while the list is not full, its number must be new or indexed with the same packet;
   once it is full, its number must be new, and every listed number indexed by itself.
   */
  predicate Storable(c: Contents, maximumSize: nat, e: Entry)
  {
    if |c.chain| < maximumSize then Lookup(c, e.number) == None || Lookup(c, e.number) == Some(e.packet)
    else e.number !in c.index && |c.index| == maximumSize
  }

  lemma IndexOfSnoc(w: seq<Entry>, e: Entry)
    ensures IndexOf(w + [e]) == IndexOf(w)[e.number := e.packet]
  {
    assert (w + [e])[..|w|] == w;
  }

  lemma UpdateExactly<K, V>(m: map<K, V>, k: K, v: V)
    ensures |m[k := v]| <= |m| + 1
    ensures m[k := v] == m <==> k in m && m[k] == v
  {
    var u := m[k := v];
    assert u.Keys == m.Keys + {k};
    if u == m {
      assert k in u && u[k] == v;
    }
  }

  lemma StoredNotFull(w: seq<Entry>, maximumSize: nat, e: Entry)
    requires |w| < maximumSize
    ensures var c := Contents(w, IndexOf(w));
            Stored(c, maximumSize, e) == Contents(w + [e], IndexOf(w + [e])) <==> Storable(c, maximumSize, e)
  {
    IndexSize(w);
    IndexOfSnoc(w, e);
    UpdateExactly(IndexOf(w), e.number, e.packet);
    hide IndexOf;
    assert Stored(Contents(w, IndexOf(w)), maximumSize, e) == Appended(Contents(w, IndexOf(w)), e);
  }

  lemma StoredFull(w: seq<Entry>, maximumSize: nat, e: Entry)
    requires |w| == maximumSize > 0
    ensures var c := Contents(w, IndexOf(w));
            Stored(c, maximumSize, e) == Contents((w + [e])[1..], IndexOf((w + [e])[1..])) <==>
            Storable(c, maximumSize, e)
  {
    IndexSize(w);
    hide IndexOf;
    if e.number !in IndexOf(w) && |IndexOf(w)| == maximumSize {
      assert DistinctNumbers(w + [e]) by {
        forall i | 0 <= i < |w| ensures w[i].number != e.number {}
      }
      OneStep(w, e, maximumSize);
    } else {
      assert |Appended(Contents(w, IndexOf(w)), e).index| <= maximumSize;
      assert Stored(Contents(w, IndexOf(w)), maximumSize, e).chain == w + [e];
    }
  }

  /** What can be looked up before a store tells exactly whether the store keeps the last maximumSize packets. */
  lemma StoreKeepsLastNExactly(history: seq<Entry>, maximumSize: nat, e: Entry)
    requires maximumSize > 0 && HoldsLastN(history, maximumSize)
    ensures HoldsLastN(history + [e], maximumSize) <==> Storable(StoredAll(history, maximumSize), maximumSize, e)
  {
    var w := LastN(history, maximumSize);
    assert (history + [e])[..|history|] == history;
    LastNSlides(history + [e], maximumSize);
    assert StoredAll(history + [e], maximumSize) == Stored(Contents(w, IndexOf(w)), maximumSize, e);
    hide Stored, Storable, StoredAll, IndexOf;
    if |history| < maximumSize {
      StoredNotFull(w, maximumSize, e);
    } else {
      StoredFull(w, maximumSize, e);
    }
  }

  /** Packets with the same number are the same packet. */
  predicate NumbersAgree(history: seq<Entry>)
  {
    forall i, j :: 0 <= i < j < |history| && history[i].number == history[j].number ==> history[i].packet == history[j].packet
  }

  /** What IndexOf finds when the numbers agree. */
  lemma {:induction false} IndexOfAgreeing(entries: seq<Entry>)
    requires NumbersAgree(entries)
    ensures forall i :: 0 <= i < |entries| ==>
              entries[i].number in IndexOf(entries) && IndexOf(entries)[entries[i].number] == entries[i].packet
  {
    if entries != [] {
      var front, last := entries[..|entries| - 1], entries[|entries| - 1];
      IndexOfAgreeing(front);
      assert entries == front + [last];
      forall i | 0 <= i < |front|
        ensures front[i].number == last.number ==> front[i].packet == last.packet
      {
        assert entries[i] == front[i];
      }
    }
  }

  /**
   The numbers are distinct in every window of maximumSize + 1 packets, or the list never overflows and
   a number that comes again comes with the same packet.
   */
  predicate Reusable(history: seq<Entry>, maximumSize: nat)
  {
    if |history| <= maximumSize then NumbersAgree(history) else DistinctInWindow(history, maximumSize)
  }

  /** The store is the last maximumSize packets at every moment of a run exactly when its history is such. */
  lemma {:induction false} AlwaysLastNExactly(history: seq<Entry>, maximumSize: nat)
    requires maximumSize > 0
    ensures AlwaysLastN(history, maximumSize) <==> Reusable(history, maximumSize)
  {
    if history == [] {
      StoreIsLastN([], maximumSize);
    } else {
      var front, e := history[..|history| - 1], history[|history| - 1];
      SplitLast(history);
      AlwaysLastNExactly(front, maximumSize);
      AlwaysLastNSnoc(front, maximumSize, e);
      ReusableFront(front, maximumSize, e);
      hide *;
      if AlwaysLastN(front, maximumSize) {
        StoreKeepsLastNExactly(front, maximumSize, e);
        ReusableStep(front, maximumSize, e);
      }
    }
  }

  /** When no packet is stored twice, these are the runs with distinct numbers in every window. */
  lemma AlwaysLastNIsDistinct(history: seq<Entry>, maximumSize: nat)
    requires maximumSize > 0
    requires forall i, j :: 0 <= i < j < |history| && history[i].number == history[j].number ==>
               history[i].packet != history[j].packet
    ensures AlwaysLastN(history, maximumSize) <==> DistinctInWindow(history, maximumSize)
  {
    AlwaysLastNExactly(history, maximumSize);
    hide AlwaysLastN;
  }

  lemma AlwaysLastNSnoc(front: seq<Entry>, maximumSize: nat, e: Entry)
    ensures AlwaysLastN(front + [e], maximumSize) <==>
            AlwaysLastN(front, maximumSize) && HoldsLastN(front + [e], maximumSize)
    ensures AlwaysLastN(front, maximumSize) ==> HoldsLastN(front, maximumSize)
  {
    var h := front + [e];
    hide HoldsLastN;
    assert h[..|h|] == h && front[..|front|] == front;
    assert forall n :: 0 <= n <= |front| ==> front[..n] == h[..n];
  }

  lemma ReusableFront(front: seq<Entry>, maximumSize: nat, e: Entry)
    ensures Reusable(front + [e], maximumSize) ==> Reusable(front, maximumSize)
  {
    var h := front + [e];
    assert forall i :: 0 <= i < |front| ==> h[i] == front[i];
    if Reusable(h, maximumSize) {
      forall i, j | 0 <= i < j < |front| && front[i].number == front[j].number
        ensures j - i > maximumSize || (|front| <= maximumSize && front[i].packet == front[j].packet)
      {
        assert h[i] == front[i] && h[j] == front[j];
      }
    }
  }

  lemma AgreesWith(front: seq<Entry>, e: Entry)
    requires NumbersAgree(front)
    ensures NumbersAgree(front + [e]) <==> (e.number in IndexOf(front) ==> IndexOf(front)[e.number] == e.packet)
  {
    var h := front + [e];
    IndexSize(front);
    IndexOfAgreeing(front);
    hide IndexOf;
    assert forall i :: 0 <= i < |front| ==> h[i] == front[i];
    if e.number in IndexOf(front) {
      var i :| 0 <= i < |front| && front[i].number == e.number;
      assert h[i].number == h[|front|].number;
    }
  }

  /** No packet of the window has the number. */
  predicate Unused(w: seq<Entry>, number: int)
  {
    forall i :: 0 <= i < |w| ==> w[i].number != number
  }

  lemma UnusedExactly(w: seq<Entry>, number: int)
    ensures Unused(w, number) <==> number !in IndexOf(w)
  {
    IndexSize(w);
    hide IndexOf;
  }

  lemma NewIsUnused(front: seq<Entry>, maximumSize: nat, e: Entry)
    requires |front| >= maximumSize && DistinctInWindow(front + [e], maximumSize)
    ensures Unused(LastN(front, maximumSize), e.number) && DistinctNumbers(LastN(front, maximumSize))
  {
    var h, w, d := front + [e], LastN(front, maximumSize), |front| - maximumSize;
    assert h[|front|] == e && forall i :: 0 <= i < |w| ==> w[i] == h[d + i];
    forall i | 0 <= i < |w| ensures w[i].number != e.number {
      assert h[d + i].number != h[|front|].number;
    }
    forall i, j | 0 <= i < j < |w| ensures w[i].number != w[j].number {
      assert h[d + i].number != h[d + j].number;
    }
  }

  lemma UnusedIsNew(front: seq<Entry>, maximumSize: nat, e: Entry)
    requires |front| >= maximumSize && DistinctInWindow(front, maximumSize) && Unused(LastN(front, maximumSize), e.number)
    ensures DistinctInWindow(front + [e], maximumSize)
  {
    var h, w, d := front + [e], LastN(front, maximumSize), |front| - maximumSize;
    forall i, j | 0 <= i < j < |h| && j - i <= maximumSize
      ensures h[i].number != h[j].number
    {
      if j == |front| {
        assert w[i - d] == h[i];
      } else {
        assert h[i] == front[i] && h[j] == front[j];
      }
    }
  }

  /** The number is new in the window, and all numbers before it are. */
  lemma NewInWindow(front: seq<Entry>, maximumSize: nat, e: Entry)
    requires |front| >= maximumSize
    requires |front| > maximumSize ==> DistinctInWindow(front, maximumSize)
    ensures var w := LastN(front, maximumSize);
            DistinctInWindow(front + [e], maximumSize) <==> DistinctNumbers(w) && e.number !in IndexOf(w)
  {
    var w := LastN(front, maximumSize);
    UnusedExactly(w, e.number);
    assert |front| == maximumSize ==> w == front && (DistinctNumbers(w) ==> DistinctInWindow(front, maximumSize));
    hide IndexOf, Unused, DistinctNumbers, DistinctInWindow, LastN;
    if DistinctInWindow(front + [e], maximumSize) {
      NewIsUnused(front, maximumSize, e);
    } else if DistinctNumbers(w) && Unused(w, e.number) {
      UnusedIsNew(front, maximumSize, e);
    }
  }

  lemma ReusableStep(front: seq<Entry>, maximumSize: nat, e: Entry)
    requires maximumSize > 0 && Reusable(front, maximumSize) && HoldsLastN(front, maximumSize)
    ensures Reusable(front + [e], maximumSize) <==> Storable(StoredAll(front, maximumSize), maximumSize, e)
  {
    IndexSize(LastN(front, maximumSize));
    if |front| < maximumSize {
      AgreesWith(front, e);
    } else {
      NewInWindow(front, maximumSize, e);
    }
  }

  /**
   Storing a number that is still indexed leaves the old packet to be found, and lengthens the
   list without evicting anything.
   */
  lemma ReusedNumberKeepsOldPacket(c: Contents, maximumSize: nat, e: Entry)
    requires e.number in c.index && |c.index| <= maximumSize
    ensures Lookup(Stored(c, maximumSize, e), e.number) == Lookup(c, e.number)
    ensures Stored(c, maximumSize, e).chain == c.chain + [e]
  {}

  /** Without distinct numbers the store is not the last maximumSize packets. */
  lemma ReusedNumberBreaksLastN(a: Entry, b: Entry)
    requires a.number == b.number && a.packet != b.packet
    ensures Lookup(StoredAll([a, b], 1), b.number) == Some(a.packet)
    ensures StoredAll([a, b], 1).chain == [a, b] != LastN([a, b], 1)
  {
    assert [a, b][..1] == [a];
    assert StoredAll([a], 1) == Stored(StoredAll([], 1), 1, a) by { assert [a][..0] == []; }
    var one := Stored(NOTHING, 1, a);
    assert one == Contents([a], map[a.number := a.packet]);
    assert |one.index| == 1;
    ReusedNumberKeepsOldPacket(one, 1, b);
    assert StoredAll([a, b], 1) == Stored(one, 1, b);
    assert [a] + [b] == [a, b];
  }
}
