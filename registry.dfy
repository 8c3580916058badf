/** The `countdownIntervals` table (scripts.js:68) and the three code paths that touch it:
    `updateCountdown` (115-155), its `tick` closure (132-150) and the removal branch of
    `renderEvents` (258-262), plus the unload loop (413-416).

    The table maps an event id to the handle `setInterval` returned for it. Clearing an
    interval does not delete its key, except in `renderEvents`; so what the invariants
    speak of is the set of ACTIVE handles (intervals not yet cleared), not the keys. */
module Timers {
  import opened Countdown

  /** A `setInterval` handle: a positive integer, so that `if (countdownIntervals[id])`
      is true exactly when the key is present. */
  type Handle = nat

  /** What a card's countdown element shows. */
  datatype Display = Ended | Live(text: string)

  const EndedText: string := "Event has ended"

  function DisplayText(d: Display): string {
    match d
    case Ended => EndedText
    case Live(text) => text
  }

  /** The table, the set of intervals still running, each id's countdown display, and the
      next handle `setInterval` will return. */
  datatype Table = Table(
    intervals: map<int, Handle>,
    active: set<Handle>,
    display: map<int, Display>,
    nextHandle: Handle)

  const EmptyTable: Table := Table(map[], {}, map[], 1)

  /** Every handle in the table was issued before; every running interval is in the table;
      no handle is shared by two ids. Together: at most one running interval per id, and
      no running interval that the table has forgotten. */
  ghost predicate Inv(t: Table) {
    && t.nextHandle >= 1
    && (forall id :: id in t.intervals ==> 1 <= t.intervals[id] < t.nextHandle)
    && (forall h :: h in t.active ==> exists id :: id in t.intervals && t.intervals[id] == h)
    && (forall a, b :: a in t.intervals && b in t.intervals && a != b ==> t.intervals[a] != t.intervals[b])
  }

  /** The interval registered for `id` is still running, so `tick` will fire for it. */
  predicate Ticking(t: Table, id: int) {
    id in t.intervals && t.intervals[id] in t.active
  }

  /** `clearInterval(countdownIntervals[id])`; clearing `undefined` does nothing. */
  function ClearedFor(t: Table, id: int): Table {
    if id in t.intervals then t.(active := t.active - {t.intervals[id]}) else t
  }

  /** One run of `tick` with `remaining` milliseconds left (scripts.js:133-149). */
  function Ticked(t: Table, id: int, remaining: int): (r: Table)
    ensures r.intervals == t.intervals && r.nextHandle == t.nextHandle && r.active <= t.active
    ensures r.display.Keys == t.display.Keys + {id}
    ensures forall x :: x in t.display && x != id ==> r.display[x] == t.display[x]
  {
    if remaining <= 0 then ClearedFor(t.(display := t.display[id := Ended]), id)
    else t.(display := t.display[id := Live(CountdownText(remaining))])
  }

  /** `updateCountdown(id, ...)` where `difference` is the time left when it starts
      (scripts.js:117) and `firstRemaining` the time left when its first `tick` reads the
      clock again (scripts.js:133). */
  function Registered(t: Table, id: int, difference: int, firstRemaining: int): (r: Table)
    ensures r.nextHandle >= t.nextHandle && r.active <= t.active + {t.nextHandle}
    ensures r.intervals.Keys <= t.intervals.Keys + {id}
    ensures forall x :: x in t.intervals && x != id ==> x in r.intervals && r.intervals[x] == t.intervals[x]
    ensures r.display.Keys == t.display.Keys + {id}
  {
    var t1 := ClearedFor(t, id);
    if difference <= 0 then t1.(display := t1.display[id := Ended])
    else
      var t2 := Ticked(t1, id, firstRemaining);
      t2.(intervals := t2.intervals[id := t2.nextHandle],
          active := t2.active + {t2.nextHandle},
          nextHandle := t2.nextHandle + 1)
  }

  /** The removal branch of `renderEvents`: clear the interval and delete the key. */
  function Cancelled(t: Table, id: int): (r: Table)
    ensures r.intervals.Keys == t.intervals.Keys - {id}
    ensures forall x :: x in r.intervals ==> r.intervals[x] == t.intervals[x]
    ensures r.active <= t.active && r.display == t.display && r.nextHandle == t.nextHandle
  {
    if id in t.intervals then t.(intervals := t.intervals - {id}, active := t.active - {t.intervals[id]})
    else t
  }

  /** `Cancelled` for each id of `ids`, in order. */
  function CancelledAll(t: Table, ids: seq<int>): (r: Table)
    ensures forall x :: x in r.intervals <==> x in t.intervals && x !in ids
    ensures forall x :: x in r.intervals ==> r.intervals[x] == t.intervals[x]
    ensures r.active <= t.active && r.display == t.display && r.nextHandle == t.nextHandle
  {
    if ids == [] then t else Cancelled(CancelledAll(t, ids[..|ids| - 1]), ids[|ids| - 1])
  }

  /** The handles stored in the table. */
  function Handles(t: Table): set<Handle> {
    set id | id in t.intervals :: t.intervals[id]
  }

  /** The unload loop: clear every handle in the table (keys stay). */
  function Unloaded(t: Table): (r: Table)
    ensures r.intervals == t.intervals && r.display == t.display && r.nextHandle == t.nextHandle
    ensures r.active <= t.active
    ensures forall id :: id in t.intervals ==> t.intervals[id] !in r.active
  {
    t.(active := t.active - Handles(t))
  }

  lemma ClearedForKeepsInvariant(t: Table, id: int)
    requires Inv(t)
    ensures Inv(ClearedFor(t, id))
  {
  }

  /** A tick, whatever the time left, keeps the invariant. */
  lemma TickKeepsInvariant(t: Table, id: int, remaining: int)
    requires Inv(t)
    ensures Inv(Ticked(t, id, remaining))
  {
    if remaining <= 0 {
      var t1 := t.(display := t.display[id := Ended]);
      assert Inv(t1);
      ClearedForKeepsInvariant(t1, id);
    }
  }

  /** Registering keeps the invariant: the handle it stores is fresh. */
  lemma RegisterKeepsInvariant(t: Table, id: int, difference: int, firstRemaining: int)
    requires Inv(t)
    ensures Inv(Registered(t, id, difference, firstRemaining))
  {
    var t1 := ClearedFor(t, id);
    ClearedForKeepsInvariant(t, id);
    if difference > 0 {
      var t2 := Ticked(t1, id, firstRemaining);
      TickKeepsInvariant(t1, id, firstRemaining);
      assert !Ticking(t2, id);
      StoreFreshKeepsInvariant(t2, id);
    } else {
      assert Inv(t1.(display := t1.display[id := Ended]));
    }
  }

  /** Storing the next handle under an id whose interval is stopped keeps the invariant. */
  lemma StoreFreshKeepsInvariant(t: Table, id: int)
    requires Inv(t) && !Ticking(t, id)
    ensures Inv(t.(intervals := t.intervals[id := t.nextHandle],
                   active := t.active + {t.nextHandle},
                   nextHandle := t.nextHandle + 1))
  {
    var h := t.nextHandle;
    var t' := t.(intervals := t.intervals[id := h], active := t.active + {h}, nextHandle := h + 1);
    forall x | x in t'.active ensures exists owner :: owner in t'.intervals && t'.intervals[owner] == x {
      if x != h {
        var owner :| owner in t.intervals && t.intervals[owner] == x;
        assert owner != id;
        assert t'.intervals[owner] == x;
      } else {
        assert t'.intervals[id] == h;
      }
    }
  }

  /** Registering first stops the interval an earlier registration left for the same id. */
  lemma RegisterStopsPrevious(t: Table, id: int, difference: int, firstRemaining: int)
    requires Inv(t) && id in t.intervals
    ensures t.intervals[id] !in Registered(t, id, difference, firstRemaining).active
  {
  }

  /** An event that has already started shows "Event has ended" and gets no running interval;
      the key of an earlier registration is kept, not deleted. */
  lemma RegisterEnded(t: Table, id: int, difference: int, firstRemaining: int)
    requires difference <= 0
    ensures var t' := Registered(t, id, difference, firstRemaining);
      && t'.display[id] == Ended
      && !Ticking(t', id)
      && t'.intervals == t.intervals
      && t'.nextHandle == t.nextHandle
  {
  }

  /** An event still ahead gets exactly one running interval under a fresh handle, and the
      display the first tick computes. */
  lemma RegisterStarts(t: Table, id: int, difference: int, firstRemaining: int)
    requires Inv(t) && difference > 0
    ensures var t' := Registered(t, id, difference, firstRemaining);
      && Ticking(t', id)
      && t'.intervals[id] == t.nextHandle
      && t.nextHandle !in Handles(t)
      && t'.active == t.active - (if id in t.intervals then {t.intervals[id]} else {}) + {t.nextHandle}
      && t'.display[id] == (if firstRemaining > 0 then Live(CountdownText(firstRemaining)) else Ended)
  {
    forall x | x in Handles(t) ensures x < t.nextHandle {
      var owner :| owner in t.intervals && t.intervals[owner] == x;
    }
  }

  /** Registering one id changes nothing about any other id. */
  lemma RegisterLeavesOthers(t: Table, id: int, difference: int, firstRemaining: int, other: int)
    requires Inv(t) && other != id
    ensures var t' := Registered(t, id, difference, firstRemaining);
      && (other in t'.intervals <==> other in t.intervals)
      && (other in t.intervals ==> t'.intervals[other] == t.intervals[other])
      && (Ticking(t', other) <==> Ticking(t, other))
      && (other in t'.display <==> other in t.display)
      && (other in t.display ==> t'.display[other] == t.display[other])
  {
    var t' := Registered(t, id, difference, firstRemaining);
    if other in t.intervals {
      assert t.intervals[other] < t.nextHandle;
      if id in t.intervals {
        assert t.intervals[other] != t.intervals[id];
      }
    }
  }

  /** When no time is left the tick shows "Event has ended" and stops the id's interval, so
      no further tick fires for it; the key stays in the table. */
  lemma TickEnds(t: Table, id: int, remaining: int)
    requires remaining <= 0
    ensures var t' := Ticked(t, id, remaining);
      && t'.display[id] == Ended
      && !Ticking(t', id)
      && t'.intervals == t.intervals
  {
  }

  /** While time is left the tick only rewrites the id's text; which intervals run is unchanged. */
  lemma TickShowsTimeLeft(t: Table, id: int, remaining: int)
    requires remaining > 0
    ensures var t' := Ticked(t, id, remaining);
      && t'.display[id] == Live(CountdownText(remaining))
      && t'.intervals == t.intervals
      && t'.active == t.active
  {
  }

  /** A tick for one id leaves every other id's interval and display alone. */
  lemma TickLeavesOthers(t: Table, id: int, remaining: int, other: int)
    requires Inv(t) && other != id
    ensures var t' := Ticked(t, id, remaining);
      && (Ticking(t', other) <==> Ticking(t, other))
      && (other in t'.display <==> other in t.display)
      && (other in t.display ==> t'.display[other] == t.display[other])
  {
    if other in t.intervals && id in t.intervals {
      assert t.intervals[other] != t.intervals[id];
    }
  }

  /** Cancelling stops the id's interval and forgets its key, keeps the invariant, and leaves
      every other id alone. */
  lemma CancelRemoves(t: Table, id: int)
    requires Inv(t)
    ensures var t' := Cancelled(t, id);
      && Inv(t')
      && id !in t'.intervals
      && !Ticking(t', id)
      && (id in t.intervals ==> t.intervals[id] !in t'.active)
      && (forall other :: other != id ==> (Ticking(t', other) <==> Ticking(t, other)))
      && (forall other :: other != id && other in t.intervals ==> other in t'.intervals && t'.intervals[other] == t.intervals[other])
  {
    var t' := Cancelled(t, id);
    if id in t.intervals {
      forall x | x in t'.active ensures exists owner :: owner in t'.intervals && t'.intervals[owner] == x {
        var owner :| owner in t.intervals && t.intervals[owner] == x;
        assert owner != id;
        assert t'.intervals[owner] == x;
      }
    }
  }

  /** Cancelling a sequence of ids (the cards `renderEvents` removes) leaves none of them
      in the table, stops every interval any of them had, and touches no other id. */
  lemma {:induction false} CancelAllRemoves(t: Table, ids: seq<int>)
    requires Inv(t)
    ensures var t' := CancelledAll(t, ids);
      && Inv(t')
      && (forall k :: 0 <= k < |ids| ==> ids[k] !in t'.intervals)
      && (forall k :: 0 <= k < |ids| && ids[k] in t.intervals ==> t.intervals[ids[k]] !in t'.active)
      && (forall other :: other !in ids ==> (Ticking(t', other) <==> Ticking(t, other)))
      && t'.display == t.display
  {
    if ids != [] {
      var n := |ids| - 1;
      var front := ids[..n];
      CancelAllRemoves(t, front);
      var t1 := CancelledAll(t, front);
      CancelRemoves(t1, ids[n]);
      var t' := CancelledAll(t, ids);
      forall k | 0 <= k < |ids| && ids[k] in t.intervals ensures t.intervals[ids[k]] !in t'.active {
        if k < n {
          assert front[k] == ids[k];
        } else if ids[n] !in front {
          assert Ticking(t1, ids[n]) <==> Ticking(t, ids[n]);
          if ids[n] in t1.intervals {
            assert t1.intervals[ids[n]] == t.intervals[ids[n]] by {
              // `front` never deleted this key, so it still maps to the original handle.
              KeyUntouched(t, front, ids[n]);
            }
          } else {
            KeyUntouched(t, front, ids[n]);
          }
        } else {
          var j :| 0 <= j < n && front[j] == ids[n];
          assert t.intervals[front[j]] !in t1.active;
        }
      }
      forall k | 0 <= k < |ids| ensures ids[k] !in t'.intervals {
        if k < n { assert front[k] == ids[k]; }
      }
      forall other | other !in ids ensures Ticking(t', other) <==> Ticking(t, other) {
        assert other !in front;
      }
    }
  }

  /** An id that a sequence of cancellations never names keeps its entry. */
  lemma {:induction false} KeyUntouched(t: Table, ids: seq<int>, id: int)
    requires id !in ids
    ensures id in CancelledAll(t, ids).intervals <==> id in t.intervals
    ensures id in t.intervals ==> CancelledAll(t, ids).intervals[id] == t.intervals[id]
  {
    if ids != [] {
      KeyUntouched(t, ids[..|ids| - 1], id);
    }
  }

  /** The unload loop leaves no interval running. */
  lemma UnloadStopsAll(t: Table)
    requires Inv(t)
    ensures Unloaded(t).active == {}
  {
    forall h | h in t.active ensures h in Handles(t) {
      var owner :| owner in t.intervals && t.intervals[owner] == h;
    }
  }

  /** Once an id has no running interval, only a fresh registration of that id gives it one:
      ticks, cancellations and registrations of other ids, and unloading, never do. */
  lemma OnlyRegistrationRestarts(t: Table, id: int, other: int, difference: int, remaining: int)
    requires Inv(t) && !Ticking(t, id) && other != id
    ensures !Ticking(Ticked(t, id, remaining), id)
    ensures !Ticking(Ticked(t, other, remaining), id)
    ensures !Ticking(Cancelled(t, other), id)
    ensures !Ticking(Registered(t, other, difference, remaining), id)
    ensures !Ticking(Unloaded(t), id)
  {
    RegisterLeavesOthers(t, other, difference, remaining, id);
    TickLeavesOthers(t, other, remaining, id);
  }

  lemma NonEmptyHasElement(s: set<int>)
    requires s != {}
    ensures exists x :: x in s
  {
    if forall x :: x !in s {
      assert false;
    }
  }

  /** The table as an object, updated in place as the page's global is. */
  class CountdownRegistry {
    var intervals: map<int, Handle>
    var active: set<Handle>
    var display: map<int, Display>
    var nextHandle: Handle

    function State(): Table
      reads this
    {
      Table(intervals, active, display, nextHandle)
    }

    ghost predicate Valid()
      reads this
    {
      Inv(State())
    }

    constructor ()
      ensures Valid() && State() == EmptyTable
    {
      intervals, active, display, nextHandle := map[], {}, map[], 1;
    }

    /** The `tick` closure, run once with `remaining` milliseconds left. */
    method Tick(id: int, remaining: int)
      requires Valid()
      modifies this
      ensures Valid() && State() == Ticked(old(State()), id, remaining)
    {
      TickKeepsInvariant(State(), id, remaining);
      if remaining <= 0 {
        display := display[id := Ended];
        if id in intervals {
          active := active - {intervals[id]};
        }
        return;
      }
      display := display[id := Live(CountdownText(remaining))];
    }

    /** `updateCountdown`: stop any earlier interval for `id`; show "Event has ended" if the
        event has started, otherwise run the first tick and start a new interval. */
    method Register(id: int, difference: int, firstRemaining: int)
      requires Valid()
      modifies this
      ensures Valid() && State() == Registered(old(State()), id, difference, firstRemaining)
    {
      RegisterKeepsInvariant(State(), id, difference, firstRemaining);
      if id in intervals {
        active := active - {intervals[id]};
      }
      if difference <= 0 {
        display := display[id := Ended];
        return;
      }
      Tick(id, firstRemaining);
      var h := nextHandle;
      nextHandle := nextHandle + 1;
      active := active + {h};
      intervals := intervals[id := h];
    }

    /** The removal branch of `renderEvents` for one card's id. */
    method Cancel(id: int)
      requires Valid()
      modifies this
      ensures Valid() && State() == Cancelled(old(State()), id)
    {
      CancelRemoves(State(), id);
      if id in intervals {
        active := active - {intervals[id]};
        intervals := intervals - {id};
      }
    }

    /** The unload handler's `for (const id in countdownIntervals)` loop. */
    method ClearAll()
      requires Valid()
      modifies this
      ensures Valid() && State() == Unloaded(old(State()))
      ensures active == {}
    {
      UnloadStopsAll(State());
      var keys := intervals.Keys;
      while keys != {}
        invariant keys <= intervals.Keys
        invariant intervals == old(intervals) && display == old(display) && nextHandle == old(nextHandle)
        invariant active == old(active) - (set id | id in intervals.Keys - keys :: intervals[id])
        decreases keys
      {
        NonEmptyHasElement(keys);
        var id :| id in keys;
        active := active - {intervals[id]};
        keys := keys - {id};
      }
      assert (set id | id in intervals.Keys :: intervals[id]) == Handles(State());
    }
  }
}
