/** The observer table of a notification center as a value: for each protocol key, the ordered
    list of (observer, optional filter) entries, and what registering, unregistering and sending
    do to it. */
module Registry {
  import opened Filters

  /** A protocol, used as an exact-match key. */
  type Protocol = string

  /** An observer object: its identity and the protocols its class conforms to, which the
      runtime's conformsToProtocol: would report. */
  datatype Observer = Observer(id: nat, protocols: set<Protocol>)

  predicate ConformsTo(o: Observer, p: Protocol)
  {
    p in o.protocols
  }

  /** An opaque handle for a notification block; the block itself is never run here. */
  type Block = nat

  /** One registration: the observer and its filter (None is a nil filter). */
  datatype Entry = Entry(observer: Observer, filter: Option<Filter>)

  type Table = map<Protocol, seq<Entry>>

  /** The entries registered for `p`; a protocol nobody registered for has none. */
  function EntriesFor(t: Table, p: Protocol): seq<Entry>
  {
    if p in t then t[p] else []
  }

  predicate IsRegistered(s: seq<Entry>, o: Observer)
  {
    exists i :: 0 <= i < |s| && s[i].observer == o
  }

  /** At most one entry per observer. */
  predicate NoDuplicates(s: seq<Entry>)
  {
    forall i, j :: 0 <= i < j < |s| ==> s[i].observer != s[j].observer
  }

  predicate AllConform(s: seq<Entry>, p: Protocol)
  {
    forall i :: 0 <= i < |s| ==> ConformsTo(s[i].observer, p)
  }

  /** The table's invariant: every list has one entry per observer, and every observer in the
      list for `p` conforms to `p`. */
  predicate WellFormed(t: Table)
  {
    forall p :: p in t ==> NoDuplicates(t[p]) && AllConform(t[p], p)
  }

  /** The observers of a list, in list order. */
  function Observers(s: seq<Entry>): (r: seq<Observer>)
    ensures |r| == |s|
    ensures forall i :: 0 <= i < |s| ==> r[i] == s[i].observer
  {
    if s == [] then [] else Observers(s[..|s| - 1]) + [s[|s| - 1].observer]
  }

  // ---------------------------------------------------------------------------------------
  // Registering: insert, or replace the filter of the observer's existing entry

  /** The list after registering `o` with filter `f`: the first entry of `o` gets the new
      filter in place, or a new entry is appended when `o` has none. */
  function Replaced(s: seq<Entry>, o: Observer, f: Option<Filter>): (r: seq<Entry>)
    ensures Entry(o, f) in r
    ensures |s| <= |r| <= |s| + 1
  {
    if s == [] then [Entry(o, f)]
    else if s[0].observer == o then [Entry(o, f)] + s[1..]
    else [s[0]] + Replaced(s[1..], o, f)
  }

  /** When `i` is the first position of `o`, registering overwrites exactly that entry. */
  lemma {:induction false} ReplacedAt(s: seq<Entry>, o: Observer, f: Option<Filter>, i: nat)
    requires i < |s| && s[i].observer == o
    requires forall k :: 0 <= k < i ==> s[k].observer != o
    ensures Replaced(s, o, f) == s[i := Entry(o, f)]
  {
    if i > 0 {
      ReplacedAt(s[1..], o, f, i - 1);
      assert s[1..][i - 1 := Entry(o, f)] == s[i := Entry(o, f)][1..];
    }
  }

  /** When `o` has no entry, registering appends one at the end. */
  lemma {:induction false} ReplacedAbsent(s: seq<Entry>, o: Observer, f: Option<Filter>)
    requires !IsRegistered(s, o)
    ensures Replaced(s, o, f) == s + [Entry(o, f)]
  {
    if s != [] {
      assert s[0].observer != o;
      assert !IsRegistered(s[1..], o) by {
        forall k | 0 <= k < |s[1..]| ensures s[1..][k].observer != o {
          assert s[1..][k] == s[k + 1];
        }
      }
      ReplacedAbsent(s[1..], o, f);
      assert s == [s[0]] + s[1..];
    }
  }

  /** Registering leaves exactly one entry for `o`, carrying the new filter; every other entry
      keeps its place; the list grows only when `o` was not registered. */
  lemma ReplacedEntry(s: seq<Entry>, o: Observer, f: Option<Filter>)
    requires NoDuplicates(s)
    ensures var r := Replaced(s, o, f);
      && NoDuplicates(r)
      && IsRegistered(r, o)
      && (forall k :: 0 <= k < |r| && r[k].observer == o ==> r[k].filter == f)
      && |r| == (if IsRegistered(s, o) then |s| else |s| + 1)
      && (forall k :: 0 <= k < |s| && s[k].observer != o ==> k < |r| && r[k] == s[k])
      && (forall k :: 0 <= k < |r| && r[k].observer != o ==> k < |s| && r[k] == s[k])
  {
    var r := Replaced(s, o, f);
    if IsRegistered(s, o) {
      var i :| 0 <= i < |s| && s[i].observer == o;
      ReplacedAt(s, o, f, i);
      assert r[i] == Entry(o, f);
    } else {
      ReplacedAbsent(s, o, f);
      assert r[|s|] == Entry(o, f);
    }
  }

  // ---------------------------------------------------------------------------------------
  // Unregistering: drop the observer's entries

  /** The list without any entry of `o`, in the original order. */
  function Without(s: seq<Entry>, o: Observer): (r: seq<Entry>)
    ensures |r| <= |s|
    ensures forall i :: 0 <= i < |r| ==> r[i].observer != o
  {
    if s == [] then []
    else
      var rest := Without(s[..|s| - 1], o);
      if s[|s| - 1].observer == o then rest else rest + [s[|s| - 1]]
  }

  /** An entry survives unregistering exactly when it belongs to another observer. */
  lemma {:induction false} WithoutMembers(s: seq<Entry>, o: Observer)
    ensures forall e :: e in Without(s, o) <==> e in s && e.observer != o
  {
    if s != [] {
      var n := |s| - 1;
      WithoutMembers(s[..n], o);
      assert s == s[..n] + [s[n]];
    }
  }

  /** Unregistering an observer that has no entry changes nothing. */
  lemma {:induction false} WithoutAbsent(s: seq<Entry>, o: Observer)
    requires !IsRegistered(s, o)
    ensures Without(s, o) == s
  {
    if s != [] {
      var n := |s| - 1;
      assert s[n].observer != o;
      assert !IsRegistered(s[..n], o) by {
        forall k | 0 <= k < n ensures s[..n][k].observer != o {
          assert s[..n][k] == s[k];
        }
      }
      WithoutAbsent(s[..n], o);
      assert s == s[..n] + [s[n]];
    }
  }

  /** Unregistering keeps one entry per observer. */
  lemma {:induction false} WithoutNoDuplicates(s: seq<Entry>, o: Observer)
    requires NoDuplicates(s)
    ensures NoDuplicates(Without(s, o))
  {
    if s != [] {
      var n := |s| - 1;
      var rest := Without(s[..n], o);
      WithoutNoDuplicates(s[..n], o);
      if s[n].observer != o {
        WithoutMembers(s[..n], o);
        forall i | 0 <= i < |rest| ensures rest[i].observer != s[n].observer {
          assert rest[i] in s[..n];
        }
        assert Without(s, o) == rest + [s[n]];
      }
    }
  }

  // ---------------------------------------------------------------------------------------
  // Sending: who receives the block

  /** An entry with filter `g` receives a send with filter `f` when either filter is nil,
      or the registered filter, as the receiver of isMatching:, matches the sent one. */
  function Delivers(g: Option<Filter>, f: Option<Filter>): (r: bool)
    ensures g.None? ==> r
    ensures f.None? ==> r
    ensures r && g.Some? && f.Some? ==> g.value.cls == f.value.cls && g.value.value == f.value.value
  {
    g.None? || f.None? || IsMatching(g.value, f.value)
  }

  /** The observers of `s` whose entry receives a send with filter `f`, in list order. */
  function Recipients(s: seq<Entry>, f: Option<Filter>): (r: seq<Observer>)
    ensures |r| <= |s|
    ensures f.None? ==> |r| == |s|
  {
    if s == [] then []
    else
      var rest := Recipients(s[..|s| - 1], f);
      if Delivers(s[|s| - 1].filter, f) then rest + [s[|s| - 1].observer] else rest
  }

  /** An observer receives a send exactly when one of its entries lets the send's filter
      through. */
  lemma {:induction false} RecipientsExact(s: seq<Entry>, f: Option<Filter>)
    ensures forall x :: x in Recipients(s, f) <==>
      exists i :: 0 <= i < |s| && s[i].observer == x && Delivers(s[i].filter, f)
  {
    if s != [] {
      var n := |s| - 1;
      RecipientsExact(s[..n], f);
      forall x | x in Recipients(s, f)
        ensures exists i :: 0 <= i < |s| && s[i].observer == x && Delivers(s[i].filter, f)
      {
        if x in Recipients(s[..n], f) {
          var i :| 0 <= i < n && s[..n][i].observer == x && Delivers(s[..n][i].filter, f);
          assert s[i] == s[..n][i];
        }
      }
      forall x | exists i :: 0 <= i < |s| && s[i].observer == x && Delivers(s[i].filter, f)
        ensures x in Recipients(s, f)
      {
        var i :| 0 <= i < |s| && s[i].observer == x && Delivers(s[i].filter, f);
        if i < n {
          assert s[..n][i] == s[i];
        }
      }
    }
  }

  /** No observer occurs twice. */
  predicate Distinct(r: seq<Observer>)
  {
    forall i, j :: 0 <= i < j < |r| ==> r[i] != r[j]
  }

  /** A list with one entry per observer yields each recipient once: the block runs at most
      once on any observer. */
  lemma {:induction false} RecipientsOnce(s: seq<Entry>, f: Option<Filter>)
    requires NoDuplicates(s)
    ensures Distinct(Recipients(s, f))
  {
    if s != [] {
      var n := |s| - 1;
      var rest := Recipients(s[..n], f);
      assert NoDuplicates(s[..n]) by {
        forall i, j | 0 <= i < j < n ensures s[..n][i].observer != s[..n][j].observer {
          assert s[..n][i] == s[i] && s[..n][j] == s[j];
        }
      }
      RecipientsOnce(s[..n], f);
      if Delivers(s[n].filter, f) {
        RecipientsExact(s[..n], f);
        assert s[n].observer !in rest by {
          forall i | 0 <= i < n ensures s[..n][i].observer != s[n].observer {
            assert s[..n][i] == s[i];
          }
        }
        var r := rest + [s[n].observer];
        forall i, j | 0 <= i < j < |r| ensures r[i] != r[j] {
          if j == |rest| {
            assert r[i] == rest[i] && rest[i] in rest;
            assert r[j] == s[n].observer;
          } else {
            assert r[i] == rest[i] && r[j] == rest[j];
          }
        }
        assert Recipients(s, f) == r;
      }
    }
  }

  /** `a` is `b` with some elements dropped, the rest kept in order. */
  predicate SubseqOf<T(==)>(a: seq<T>, b: seq<T>)
  {
    a == [] ||
    (b != [] &&
     ((a[|a| - 1] == b[|b| - 1] && SubseqOf(a[..|a| - 1], b[..|b| - 1])) || SubseqOf(a, b[..|b| - 1])))
  }

  /** Unregistering keeps the surviving entries in list order. */
  lemma {:induction false} WithoutKeepsOrder(s: seq<Entry>, o: Observer)
    ensures SubseqOf(Without(s, o), s)
  {
    if s != [] {
      var n := |s| - 1;
      WithoutKeepsOrder(s[..n], o);
      var rest := Without(s[..n], o);
      if s[n].observer != o {
        assert (rest + [s[n]])[..|rest|] == rest;
      }
    }
  }

  /** A filtered send reaches its recipients in list order. */
  lemma {:induction false} RecipientsKeepOrder(s: seq<Entry>, f: Option<Filter>)
    ensures SubseqOf(Recipients(s, f), Observers(s))
  {
    if s != [] {
      var n := |s| - 1;
      RecipientsKeepOrder(s[..n], f);
      var rest := Recipients(s[..n], f);
      var all := Observers(s);
      assert all[..n] == Observers(s[..n]);
      if Delivers(s[n].filter, f) {
        assert (rest + [s[n].observer])[..|rest|] == rest;
      }
    }
  }

  /** A send without a filter reaches every registered observer, in registration order. */
  lemma {:induction false} BroadcastReachesAll(s: seq<Entry>)
    ensures Recipients(s, None) == Observers(s)
  {
    if s != [] {
      BroadcastReachesAll(s[..|s| - 1]);
    }
  }

  /** An entry with a nil filter receives every send, whatever the send's filter. */
  lemma {:induction false} WildcardReceivesAll(s: seq<Entry>, o: Observer, f: Option<Filter>)
    requires Entry(o, None) in s
    ensures o in Recipients(s, f)
  {
    var i :| 0 <= i < |s| && s[i] == Entry(o, None);
    RecipientsExact(s, f);
    assert s[i].observer == o && Delivers(s[i].filter, f);
  }

  // ---------------------------------------------------------------------------------------
  // The three operations on the whole table

  /** setObserver:protocol:filter: on the table. */
  function WithObserver(t: Table, o: Observer, p: Protocol, f: Option<Filter>): (r: Table)
    ensures p in r
    ensures forall q :: q != p ==> EntriesFor(r, q) == EntriesFor(t, q)
  {
    t[p := Replaced(EntriesFor(t, p), o, f)]
  }

  /** removeObserver:protocol: on the table; a protocol without a list is left alone. */
  function WithoutObserver(t: Table, o: Observer, p: Protocol): (r: Table)
    ensures r.Keys == t.Keys
    ensures forall q :: q != p ==> EntriesFor(r, q) == EntriesFor(t, q)
  {
    if p in t then t[p := Without(t[p], o)] else t
  }

  /** The observers send:protocol:filter: runs the block on; a nil block reaches nobody. */
  function Delivery(t: Table, block: Option<Block>, p: Protocol, f: Option<Filter>): (r: seq<Observer>)
    ensures block.None? ==> r == []
    ensures |r| <= |EntriesFor(t, p)|
    ensures forall x :: x in r ==> IsRegistered(EntriesFor(t, p), x)
  {
    RecipientsExact(EntriesFor(t, p), f);
    if block.None? then [] else Recipients(EntriesFor(t, p), f)
  }

  /** Registering keeps the invariant, provided the observer conforms to the protocol. */
  lemma WithObserverWellFormed(t: Table, o: Observer, p: Protocol, f: Option<Filter>)
    requires WellFormed(t)
    requires ConformsTo(o, p)
    ensures WellFormed(WithObserver(t, o, p, f))
  {
    var s := EntriesFor(t, p);
    ReplacedEntry(s, o, f);
  }

  /** After registering, the protocol's list holds exactly one entry for the observer, with
      the latest filter; registering again replaces it instead of adding a second one. */
  lemma SetObserverRegistersOnce(t: Table, o: Observer, p: Protocol, f: Option<Filter>)
    requires WellFormed(t)
    ensures var s := EntriesFor(WithObserver(t, o, p, f), p);
      && Entry(o, f) in s
      && (forall i :: 0 <= i < |s| && s[i].observer == o ==> s[i] == Entry(o, f))
      && (forall i, j :: 0 <= i < j < |s| ==> s[i].observer != s[j].observer)
      && |s| == |EntriesFor(t, p)| + (if IsRegistered(EntriesFor(t, p), o) then 0 else 1)
  {
    var s0 := EntriesFor(t, p);
    ReplacedEntry(s0, o, f);
    var s := Replaced(s0, o, f);
    var k :| 0 <= k < |s| && s[k].observer == o;
    assert s[k] == Entry(o, f);
  }

  /** Registering with the same observer twice leaves the table as one registration with the
      second filter would. */
  lemma {:induction false} ReplacedTwice(s: seq<Entry>, o: Observer, f: Option<Filter>, g: Option<Filter>)
    ensures Replaced(Replaced(s, o, f), o, g) == Replaced(s, o, g)
  {
    if s != [] && s[0].observer != o {
      ReplacedTwice(s[1..], o, f, g);
    }
  }

  lemma SetObserverTwice(t: Table, o: Observer, p: Protocol, f: Option<Filter>, g: Option<Filter>)
    ensures WithObserver(WithObserver(t, o, p, f), o, p, g) == WithObserver(t, o, p, g)
  {
    ReplacedTwice(EntriesFor(t, p), o, f, g);
  }

  /** Unregistering keeps the invariant. */
  lemma WithoutObserverWellFormed(t: Table, o: Observer, p: Protocol)
    requires WellFormed(t)
    ensures WellFormed(WithoutObserver(t, o, p))
  {
    if p in t {
      WithoutNoDuplicates(t[p], o);
      WithoutMembers(t[p], o);
      var s := Without(t[p], o);
      forall i | 0 <= i < |s| ensures ConformsTo(s[i].observer, p) {
        assert s[i] in t[p];
      }
    }
  }

  /** Unregistering an observer that is not registered for the protocol changes nothing. */
  lemma RemoveAbsentIsNoOp(t: Table, o: Observer, p: Protocol)
    requires !IsRegistered(EntriesFor(t, p), o)
    ensures WithoutObserver(t, o, p) == t
  {
    if p in t {
      WithoutAbsent(t[p], o);
    }
  }

  /** An observer that is not registered for a protocol receives no send on it. */
  lemma UnregisteredReceivesNothing(t: Table, block: Option<Block>, p: Protocol, f: Option<Filter>, o: Observer)
    requires !IsRegistered(EntriesFor(t, p), o)
    ensures o !in Delivery(t, block, p, f)
  {
    RecipientsExact(EntriesFor(t, p), f);
  }

  /** After unregistering, the observer receives no send on that protocol. */
  lemma RemovedReceivesNothing(t: Table, o: Observer, p: Protocol, block: Option<Block>, f: Option<Filter>)
    ensures o !in Delivery(WithoutObserver(t, o, p), block, p, f)
  {
    var s := EntriesFor(WithoutObserver(t, o, p), p);
    if p in t {
      WithoutMembers(t[p], o);
      assert !IsRegistered(s, o) by {
        forall i | 0 <= i < |s| ensures s[i].observer != o {
          assert s[i] in Without(t[p], o);
        }
      }
    }
    UnregisteredReceivesNothing(WithoutObserver(t, o, p), block, p, f, o);
  }

  /** The delivery rule for a registered observer: with a block, it receives the send exactly
      when its filter is nil, the send's filter is nil, or its filter isMatching: the send's. */
  lemma DeliveryRule(t: Table, block: Block, p: Protocol, f: Option<Filter>, o: Observer, g: Option<Filter>)
    requires WellFormed(t)
    requires Entry(o, g) in EntriesFor(t, p)
    ensures o in Delivery(t, Some(block), p, f) <==> (g.None? || f.None? || IsMatching(g.value, f.value))
  {
    var s := EntriesFor(t, p);
    RecipientsExact(s, f);
    var i :| 0 <= i < |s| && s[i] == Entry(o, g);
    if o in Delivery(t, Some(block), p, f) {
      var j :| 0 <= j < |s| && s[j].observer == o && Delivers(s[j].filter, f);
      assert NoDuplicates(s);
      assert i == j;
    }
  }

  /** A send with a nil filter reaches every observer registered for the protocol. */
  lemma BroadcastDelivery(t: Table, block: Block, p: Protocol)
    ensures Delivery(t, Some(block), p, None) == Observers(EntriesFor(t, p))
  {
    BroadcastReachesAll(EntriesFor(t, p));
  }

  /** An observer registered with a nil filter receives every send on the protocol. */
  lemma WildcardDelivery(t: Table, block: Block, p: Protocol, f: Option<Filter>, o: Observer)
    requires Entry(o, None) in EntriesFor(t, p)
    ensures o in Delivery(t, Some(block), p, f)
  {
    WildcardReceivesAll(EntriesFor(t, p), o, f);
  }

  /** A nil block reaches nobody, whatever is registered. */
  lemma NilBlockDeliversNothing(t: Table, p: Protocol, f: Option<Filter>)
    ensures Delivery(t, None, p, f) == []
  {
  }

  /** Every receiver of a send on `p` conforms to `p`. */
  lemma DeliveredConform(t: Table, block: Option<Block>, p: Protocol, f: Option<Filter>)
    requires WellFormed(t)
    ensures forall x :: x in Delivery(t, block, p, f) ==> ConformsTo(x, p)
  {
    var s := EntriesFor(t, p);
    RecipientsExact(s, f);
  }

  /** In a well-formed table a send runs the block at most once on each observer. */
  lemma DeliveredOnce(t: Table, block: Option<Block>, p: Protocol, f: Option<Filter>)
    requires WellFormed(t)
    ensures Distinct(Delivery(t, block, p, f))
  {
    if block.Some? && p in t {
      RecipientsOnce(t[p], f);
    }
  }

  /** Working on protocol `p` never changes who receives a send on another protocol `q`. */
  lemma OtherProtocolsUnaffected(t: Table, o: Observer, p: Protocol, f: Option<Filter>,
                                 q: Protocol, block: Option<Block>, g: Option<Filter>)
    requires q != p
    ensures Delivery(WithObserver(t, o, p, f), block, q, g) == Delivery(t, block, q, g)
    ensures Delivery(WithoutObserver(t, o, p), block, q, g) == Delivery(t, block, q, g)
  {
  }
}
