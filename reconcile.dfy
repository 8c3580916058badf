/** The plan `renderEvents` (scripts.js:245-303) carries out, as a pure function of the ids
    of the cards already in the container and the events to show: which cards leave, which
    events get a new card, which existing cards only get their highlighting redone, and the
    text announced in the live region. */
module Reconcile {
  import opened Text
  import opened Seqs
  import opened Events
  import opened Timers

  const NoResultsText: string := "No events match your criteria."

  /** The live-region text for `n` results (scripts.js:295-298). */
  function StatusText(n: nat): (s: string)
    ensures |s| > 2 && (s[2] == 'w' <==> n > 0)
    ensures n > 0 ==> |s| >= 20 && s[..12] == "Now showing " && (|s| == 20 <==> n == 1) && (s[|s| - 2] == 's' <==> n > 1)
    ensures n > 1 ==> |s| == 20 + |NatToDecimal(n)| && s[12..12 + |NatToDecimal(n)|] == NatToDecimal(n)
  {
    if n == 0 then NoResultsText
    else
      var d := NatToDecimal(n);
      var s := "Now showing " + d + " event" + (if n == 1 then "" else "s") + ".";
      if n == 1 then
        assert d == "1";
        assert s == "Now showing 1 event.";
        s
      else
        assert s == "Now showing " + d + " events.";
        assert s[12..12 + |d|] == d;
        s
  }

  /** The plan: ids of cards to remove (one per card, in container order), events that get a
      new card and events whose card is refreshed (both in the order given), and the status. */
  datatype Plan = Plan(toRemove: seq<int>, toAdd: seq<Event>, toRefresh: seq<Event>, status: string)

  function NotAmong(ids: seq<int>): int -> bool {
    id => id !in ids
  }

  function IsNew(existing: seq<int>): Event -> bool {
    (e: Event) => e.id !in existing
  }

  function IsKnown(existing: seq<int>): Event -> bool {
    (e: Event) => e.id in existing
  }

  /** `renderEvents(evs)` against a container whose cards carry the ids `existing`. A card
      leaves exactly when its id is not among the new ids; an event gets a new card exactly
      when its id is not among the existing ones, and is refreshed otherwise. */
  function MakePlan(existing: seq<int>, evs: seq<Event>): (p: Plan)
    ensures forall i :: 0 <= i < |existing| ==> (existing[i] in p.toRemove <==> existing[i] !in Ids(evs))
    ensures forall k :: 0 <= k < |p.toRemove| ==> p.toRemove[k] in existing && p.toRemove[k] !in Ids(evs)
    ensures forall i :: 0 <= i < |evs| ==> (evs[i] in p.toAdd <==> evs[i].id !in existing)
    ensures forall i :: 0 <= i < |evs| ==> (evs[i] in p.toRefresh <==> evs[i].id in existing)
    ensures forall k :: 0 <= k < |p.toAdd| ==> p.toAdd[k] in evs && p.toAdd[k].id !in existing
    ensures forall k :: 0 <= k < |p.toRefresh| ==> p.toRefresh[k] in evs && p.toRefresh[k].id in existing
    ensures p.status == StatusText(|evs|)
  {
    var newIds := Ids(evs);
    Plan(Filter(existing, NotAmong(newIds)), Filter(evs, IsNew(existing)), Filter(evs, IsKnown(existing)),
      StatusText(|evs|))
  }

  /** The three parts do not overlap: no removed id is shown again, and no event is both
      added and refreshed. Together the added and refreshed events are all the events. */
  lemma PlanPartitions(existing: seq<int>, evs: seq<Event>)
    ensures var p := MakePlan(existing, evs);
      && (forall k :: 0 <= k < |p.toRemove| ==> p.toRemove[k] !in Ids(p.toAdd) && p.toRemove[k] !in Ids(p.toRefresh))
      && (forall j, k :: 0 <= j < |p.toAdd| && 0 <= k < |p.toRefresh| ==> p.toAdd[j].id != p.toRefresh[k].id)
      && (forall i :: 0 <= i < |evs| ==> evs[i] in p.toAdd || evs[i] in p.toRefresh)
      && |p.toAdd| + |p.toRefresh| == |evs|
  {
    var p := MakePlan(existing, evs);
    FilterSplits(evs, IsKnown(existing), IsNew(existing));
    forall k | 0 <= k < |p.toRemove| ensures p.toRemove[k] !in Ids(p.toAdd) && p.toRemove[k] !in Ids(p.toRefresh) {
      var id := p.toRemove[k];
      forall j | 0 <= j < |p.toAdd| ensures p.toAdd[j].id != id {
        var e := p.toAdd[j];
        var i :| 0 <= i < |evs| && evs[i] == e;
        assert Ids(evs)[i] == e.id;
      }
      forall j | 0 <= j < |p.toRefresh| ensures p.toRefresh[j].id != id {
        var e := p.toRefresh[j];
        var i :| 0 <= i < |evs| && evs[i] == e;
        assert Ids(evs)[i] == e.id;
      }
    }
  }

  /** The cards the plan adds are the events with new ids, in the order they are given. */
  lemma PlanAddsInOrder(existing: seq<int>, evs: seq<Event>)
    ensures var idx := MatchingIndices(evs, IsNew(existing));
      var add := MakePlan(existing, evs).toAdd;
      && |add| == |idx|
      && (forall k :: 0 <= k < |idx| ==> idx[k] < |evs| && add[k] == evs[idx[k]])
      && (forall k, l :: 0 <= k < l < |idx| ==> idx[k] < idx[l])
  {
    FilterSelectsMatchingIndices(evs, IsNew(existing));
  }

  /** Rendering the same events over exactly their own cards removes and adds nothing and
      refreshes every card. */
  lemma RerenderRefreshesOnly(evs: seq<Event>)
    ensures var p := MakePlan(Ids(evs), evs);
      p.toRemove == [] && p.toAdd == [] && p.toRefresh == evs
  {
    var ids := Ids(evs);
    var p := MakePlan(ids, evs);
    forall i | 0 <= i < |evs| ensures evs[i].id in ids {
      assert ids[i] == evs[i].id;
    }
    FilterKeepsAll(evs, IsKnown(ids));
    FilterSplits(evs, IsKnown(ids), IsNew(ids));
    FilterSplits(ids, NotAmong(ids), x => !NotAmong(ids)(x));
    FilterKeepsAll(ids, x => !NotAmong(ids)(x));
  }

  /** Rendering into an empty container adds every event. */
  lemma FirstRenderAddsAll(evs: seq<Event>)
    ensures var p := MakePlan([], evs);
      p.toRemove == [] && p.toAdd == evs && p.toRefresh == []
  {
    FilterKeepsAll(evs, IsNew([]));
    FilterSplits(evs, IsNew([]), IsKnown([]));
  }

  /** After the removal loop cancelled the plan's ids, none of them is left in the interval
      table, none of the intervals they had is still running, and every other id is untouched. */
  lemma RemovalStopsTimers(t: Table, existing: seq<int>, evs: seq<Event>)
    requires Inv(t)
    ensures var r := MakePlan(existing, evs).toRemove;
      var t' := CancelledAll(t, r);
      && Inv(t')
      && (forall k :: 0 <= k < |r| ==> r[k] !in t'.intervals && !Ticking(t', r[k]))
      && (forall k :: 0 <= k < |r| && r[k] in t.intervals ==> t.intervals[r[k]] !in t'.active)
      && (forall id :: id !in r ==> (Ticking(t', id) <==> Ticking(t, id)))
  {
    CancelAllRemoves(t, MakePlan(existing, evs).toRemove);
  }

  /** Different result counts are announced differently. */
  lemma StatusTextInjective(a: nat, b: nat)
    ensures StatusText(a) == StatusText(b) ==> a == b
  {
    if StatusText(a) == StatusText(b) {
      if a > 1 && b > 1 {
        DecimalInjective(a, b);
      }
    }
  }
}
