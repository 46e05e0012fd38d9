/** PSNotificationCenter as an object whose observer table its methods update in place. */
module Center {
  import opened Filters
  import opened Registry

  class NotificationCenter {
    /** For each protocol, its ordered list of registrations. */
    var observers: Table

    ghost predicate Valid()
      reads this
    {
      WellFormed(observers)
    }

    constructor ()
      ensures Valid() && observers == map[]
    {
      observers := map[];
    }

    /** setObserver:protocol:filter: — register `observer` for `protocol`, or give its
        existing registration the new filter. The observer must conform to the protocol. */
    method SetObserver(observer: Observer, protocol: Protocol, filter: Option<Filter>)
      requires Valid()
      requires ConformsTo(observer, protocol)
      modifies this
      ensures Valid()
      ensures observers == WithObserver(old(observers), observer, protocol, filter)
    {
      WithObserverWellFormed(observers, observer, protocol, filter);
      var list := EntriesFor(observers, protocol);
      var i := 0;
      while i < |list| && list[i].observer != observer
        invariant 0 <= i <= |list|
        invariant forall k :: 0 <= k < i ==> list[k].observer != observer
      {
        i := i + 1;
      }
      if i < |list| {
        ReplacedAt(list, observer, filter, i);
        list := list[i := Entry(observer, filter)];
      } else {
        ReplacedAbsent(list, observer, filter);
        list := list + [Entry(observer, filter)];
      }
      observers := observers[protocol := list];
    }

    /** removeObserver:protocol: — drop `observer`'s registration for `protocol`; nothing
        happens when it has none. */
    method RemoveObserver(observer: Observer, protocol: Protocol)
      requires Valid()
      modifies this
      ensures Valid()
      ensures observers == WithoutObserver(old(observers), observer, protocol)
    {
      WithoutObserverWellFormed(observers, observer, protocol);
      if protocol in observers {
        var list := observers[protocol];
        var kept: seq<Entry> := [];
        var i := 0;
        while i < |list|
          invariant 0 <= i <= |list|
          invariant kept == Without(list[..i], observer)
        {
          assert list[..i + 1][..i] == list[..i];
          if list[i].observer != observer {
            kept := kept + [list[i]];
          }
          i := i + 1;
        }
        assert list[..|list|] == list;
        observers := observers[protocol := kept];
      }
    }

    /** send:protocol:filter: — the observers, in registration order, that `block` would be
        run on; each conforms to `protocol`. The table is not changed. */
    method Send(block: Option<Block>, protocol: Protocol, filter: Option<Filter>)
      returns (receivers: seq<Observer>)
      requires Valid()
      ensures receivers == Delivery(observers, block, protocol, filter)
      ensures forall x :: x in receivers ==> ConformsTo(x, protocol)
    {
      DeliveredConform(observers, block, protocol, filter);
      receivers := [];
      if block.None? || protocol !in observers {
        return;
      }
      var list := observers[protocol];
      var i := 0;
      while i < |list|
        invariant 0 <= i <= |list|
        invariant receivers == Recipients(list[..i], filter)
      {
        assert list[..i + 1][..i] == list[..i];
        if Delivers(list[i].filter, filter) {
          receivers := receivers + [list[i].observer];
        }
        i := i + 1;
      }
      assert list[..|list|] == list;
    }
  }

  // A worked example: three observers of "ping" with filters "a", "b" and nil.

  const FilterA: Option<Filter> := Some(Filter(StringClass, [97]))
  const FilterB: Option<Filter> := Some(Filter(StringClass, [98]))
  const Ping1 := Observer(1, {"ping"})
  const Ping2 := Observer(2, {"ping"})
  const Ping3 := Observer(3, {"ping", "pong"})

  /** A new center after registering the three observers in order. */
  method PingCenter() returns (center: NotificationCenter)
    ensures fresh(center) && center.Valid()
    ensures center.observers == map["ping" := [Entry(Ping1, FilterA), Entry(Ping2, FilterB), Entry(Ping3, None)]]
  {
    center := new NotificationCenter();
    center.SetObserver(Ping1, "ping", FilterA);
    assert center.observers["ping"] == [Entry(Ping1, FilterA)];
    center.SetObserver(Ping2, "ping", FilterB);
    assert center.observers["ping"] == [Entry(Ping1, FilterA), Entry(Ping2, FilterB)] by {
      ReplacedAbsent([Entry(Ping1, FilterA)], Ping2, FilterB);
    }
    ghost var before := center.observers;
    assert before == map["ping" := [Entry(Ping1, FilterA), Entry(Ping2, FilterB)]];
    center.SetObserver(Ping3, "ping", None);
    assert EntriesFor(before, "ping") == [Entry(Ping1, FilterA), Entry(Ping2, FilterB)];
    ReplacedAbsent([Entry(Ping1, FilterA), Entry(Ping2, FilterB)], Ping3, None);
    assert [Entry(Ping1, FilterA), Entry(Ping2, FilterB)] + [Entry(Ping3, None)]
        == [Entry(Ping1, FilterA), Entry(Ping2, FilterB), Entry(Ping3, None)];
    assert center.observers == before["ping" := [Entry(Ping1, FilterA), Entry(Ping2, FilterB), Entry(Ping3, None)]];
  }

  /** A send filtered by "a" reaches the first and the third observer, a send on "pong"
      nobody, and a send with a nil block nobody. */
  method PingScenario()
  {
    var center := PingCenter();
    var ping := center.observers["ping"];
    assert Recipients(ping[..2], FilterA) == [Ping1] by {
      assert ping[..2][..1] == [Entry(Ping1, FilterA)];
      assert Recipients([Entry(Ping1, FilterA)], FilterA) == [Ping1];
      assert !Delivers(FilterB, FilterA);
    }
    var got := center.Send(Some(0), "ping", FilterA);
    assert got == [Ping1, Ping3];
    got := center.Send(Some(0), "pong", FilterA);
    assert got == [];
    got := center.Send(None, "ping", None);
    assert got == [];
  }

  /** Once the first observer is re-registered with "b" and the second removed, the list keeps
      two entries and a send filtered by "b" reaches the first and the third. */
  method ReRegisterScenario()
  {
    var center := PingCenter();
    var ping := center.observers["ping"];
    center.SetObserver(Ping1, "ping", FilterB);
    var after := [Entry(Ping1, FilterB), Entry(Ping2, FilterB), Entry(Ping3, None)];
    assert center.observers["ping"] == after by {
      ReplacedAt(ping, Ping1, FilterB, 0);
    }
    center.RemoveObserver(Ping2, "ping");
    assert Without(after[..1], Ping2) == [Entry(Ping1, FilterB)];
    assert Without(after[..2], Ping2) == [Entry(Ping1, FilterB)] by {
      assert after[..2][..1] == after[..1];
    }
    assert center.observers["ping"] == [Entry(Ping1, FilterB), Entry(Ping3, None)];
    assert Recipients([Entry(Ping1, FilterB), Entry(Ping3, None)][..1], FilterB) == [Ping1];
    var got := center.Send(Some(0), "ping", FilterB);
    assert got == [Ping1, Ping3];
  }
}
