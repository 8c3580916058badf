/** The event container as `renderEvents` (scripts.js:245-303) changes it, including the
    room its two deferred phases leave between a call and its effects.

    A call of `renderEvents` does its work in three parts:
    - at once (`Begin`): mark every card whose id is not among the new ids as leaving
      (`card-exit`), cancel its countdown, and remember the ids of all cards present;
    - 10 ms later (`Finish`): clear the container if there is nothing to show, add a card
      for each event whose id was not remembered, refresh the highlighting of the others,
      and announce the count;
    - 400 ms later, per leaving card (`Detach`): take that card out if it is still there.
    Other calls, countdown ticks and detaches can run in between, in any order. Cards are
    told apart by a key standing for the DOM node's identity. */
module Page {
  import opened Options
  import opened Seqs
  import opened Events
  import opened Timers
  import opened Highlight
  import opened Reconcile

  /** One card: its identity, the event id in `data-id`, whether it carries `card-exit`,
      and the markup of its `h2` and of its description paragraph. */
  datatype Card = Card(key: nat, id: int, exiting: bool, heading: string, blurb: string)

  /** The container's cards in document order, the next node identity, the countdown table
      and the live-region text. */
  datatype Page = Page(cards: seq<Card>, nextKey: nat, timers: Table, status: string)

  const EmptyPage: Page := Page([], 0, EmptyTable, "")

  /** `Array.from(eventContainer.children).map(c => c.getAttribute('data-id'))`. */
  function CardIds(cards: seq<Card>): (ids: seq<int>)
    ensures |ids| == |cards|
    ensures forall k :: 0 <= k < |cards| ==> ids[k] == cards[k].id
  {
    seq(|cards|, k requires 0 <= k < |cards| => cards[k].id)
  }

  /** Some card for `id` is on show and not leaving. */
  predicate HasLive(cards: seq<Card>, id: int) {
    exists k :: 0 <= k < |cards| && !cards[k].exiting && cards[k].id == id
  }

  predicate Fits(c: Card, id: int, liveOnly: bool) {
    c.id == id && (liveOnly ==> !c.exiting)
  }

  /** The first card for `id` at or after position `from` (only cards not leaving, if
      `liveOnly`): `querySelector` returns the first match in document order. */
  function FindFrom(cards: seq<Card>, id: int, liveOnly: bool, from: nat): (r: Option<nat>)
    requires from <= |cards|
    ensures r.Some? ==> from <= r.value < |cards| && Fits(cards[r.value], id, liveOnly)
    ensures r.Some? ==> forall k :: from <= k < r.value ==> !Fits(cards[k], id, liveOnly)
    ensures r.None? ==> forall k :: from <= k < |cards| ==> !Fits(cards[k], id, liveOnly)
    decreases |cards| - from
  {
    if from == |cards| then None
    else if Fits(cards[from], id, liveOnly) then Some(from)
    else FindFrom(cards, id, liveOnly, from + 1)
  }

  /** `container.querySelector(...)` for `id`: the first fitting card, or none at all. */
  function FindCard(cards: seq<Card>, id: int, liveOnly: bool): (r: Option<nat>)
    ensures r.Some? ==> r.value < |cards| && Fits(cards[r.value], id, liveOnly)
    ensures r.Some? ==> forall k :: 0 <= k < r.value ==> !Fits(cards[k], id, liveOnly)
    ensures r.None? ==> forall k :: 0 <= k < |cards| ==> !Fits(cards[k], id, liveOnly)
  {
    FindFrom(cards, id, liveOnly, 0)
  }

  /** `createEventCard(event, searchTerm)`: a new node, not yet leaving, highlighted. */
  function NewCard(key: nat, e: Event, term: string): Card {
    Card(key, e.id, false, HighlightMatch(e.title, term), HighlightMatch(e.description, term))
  }

  /** Redo the highlighting of card `k` (scripts.js:288-289). */
  function Refresh(cards: seq<Card>, k: nat, e: Event, term: string): seq<Card>
    requires k < |cards|
  {
    cards[k := cards[k].(heading := HighlightMatch(e.title, term), blurb := HighlightMatch(e.description, term))]
  }

  /** Append a new card and start its countdown; `createEventCard` calls `updateCountdown`,
      here with one clock reading `now` for both of its reads. */
  function Append(p: Page, e: Event, term: string, now: int): (r: Page)
    ensures |r.cards| == |p.cards| + 1 && forall k :: 0 <= k < |p.cards| ==> r.cards[k] == p.cards[k]
    ensures r.cards[|p.cards|] == NewCard(p.nextKey, e, term) && r.nextKey == p.nextKey + 1
    ensures r.timers == Registered(p.timers, e.id, e.startMs - now, e.startMs - now) && r.status == p.status
  {
    var d := e.startMs - now;
    p.(cards := p.cards + [NewCard(p.nextKey, e, term)],
       nextKey := p.nextKey + 1,
       timers := Registered(p.timers, e.id, d, d))
  }

  // ---------------------------------------------------------------------------------------
  // The immediate part.

  /** What the immediate part leaves: the page, the keys of the cards whose detach is now
      pending, and the ids of all cards present (`existingCardIds`). */
  datatype Begun = Begun(page: Page, leaving: seq<nat>, snapshot: seq<int>)

  /** The keys of the cards that leave, in document order. */
  function LeavingKeys(cards: seq<Card>, newIds: seq<int>): seq<nat> {
    if cards == [] then []
    else
      var n := |cards| - 1;
      LeavingKeys(cards[..n], newIds) + (if cards[n].id !in newIds then [cards[n].key] else [])
  }

  /** The ids of the cards that leave, one per card, in document order. */
  function RemovedIds(cards: seq<Card>, newIds: seq<int>): (r: seq<int>)
    ensures forall k :: 0 <= k < |r| ==> r[k] !in newIds
  {
    if cards == [] then []
    else
      var n := |cards| - 1;
      RemovedIds(cards[..n], newIds) + (if cards[n].id !in newIds then [cards[n].id] else [])
  }

  function MarkLeaving(cards: seq<Card>, newIds: seq<int>): (r: seq<Card>)
    ensures |r| == |cards|
    ensures forall k :: 0 <= k < |cards| ==> r[k] == (if cards[k].id in newIds then cards[k] else cards[k].(exiting := true))
  {
    seq(|cards|, k requires 0 <= k < |cards| => if cards[k].id in newIds then cards[k] else cards[k].(exiting := true))
  }

  /** The `cardsToRemove.forEach` loop (scripts.js:250-269). */
  function Begin(p: Page, evs: seq<Event>): (b: Begun)
    ensures |b.page.cards| == |p.cards| && b.page.nextKey == p.nextKey && b.page.status == p.status
    ensures forall k :: 0 <= k < |p.cards| ==>
      && b.page.cards[k].key == p.cards[k].key && b.page.cards[k].id == p.cards[k].id
      && (b.page.cards[k].exiting <==> p.cards[k].exiting || p.cards[k].id !in Ids(evs))
    ensures |b.snapshot| == |p.cards| && forall k :: 0 <= k < |p.cards| ==> b.snapshot[k] == p.cards[k].id
  {
    var newIds := Ids(evs);
    Begun(p.(cards := MarkLeaving(p.cards, newIds), timers := CancelledAll(p.timers, RemovedIds(p.cards, newIds))),
      LeavingKeys(p.cards, newIds), CardIds(p.cards))
  }

  /** The cancellations are the plan's removals: one per card whose id is not to be shown. */
  lemma {:induction false} RemovedIdsArePlanned(cards: seq<Card>, newIds: seq<int>)
    ensures RemovedIds(cards, newIds) == Filter(CardIds(cards), NotAmong(newIds))
  {
    if cards != [] {
      var n := |cards| - 1;
      RemovedIdsArePlanned(cards[..n], newIds);
      assert CardIds(cards)[..n] == CardIds(cards[..n]);
    }
  }

  /** The immediate part carries out the plan's removals, and remembers every card's id. */
  lemma BeginFollowsPlan(p: Page, evs: seq<Event>)
    ensures var b := Begin(p, evs);
      && b.page.timers == CancelledAll(p.timers, MakePlan(CardIds(p.cards), evs).toRemove)
      && b.snapshot == CardIds(p.cards)
      && CardIds(b.page.cards) == CardIds(p.cards)
  {
    RemovedIdsArePlanned(p.cards, Ids(evs));
  }

  // ---------------------------------------------------------------------------------------
  // The part run 10 ms later, as written.

  /** One turn of `eventsToRender.forEach` as written: the test is against the ids remembered
      when the call began, and the card refreshed is the first one with the id, leaving or not. */
  function StepAsWritten(p: Page, e: Event, term: string, snapshot: seq<int>, now: int): Page {
    if IsNew(snapshot)(e) then Append(p, e, term, now)
    else match FindCard(p.cards, e.id, false)
      case None => p
      case Some(k) => p.(cards := Refresh(p.cards, k, e, term))
  }

  function StepsAsWritten(p: Page, evs: seq<Event>, term: string, snapshot: seq<int>, now: int): Page {
    if evs == [] then p
    else StepAsWritten(StepsAsWritten(p, evs[..|evs| - 1], term, snapshot, now), evs[|evs| - 1], term, snapshot, now)
  }

  /** The deferred part of `renderEvents` as written (scripts.js:273-302). */
  function FinishAsWritten(p: Page, evs: seq<Event>, term: string, snapshot: seq<int>, now: int): (r: Page)
    ensures r.status == StatusText(|evs|)
    ensures evs == [] ==> r.cards == []
    ensures evs != [] ==> Extends(p.cards, r.cards)
  {
    var p0 := if evs == [] then p.(cards := []) else p;
    StepsAsWrittenExtends(p0, evs, term, snapshot, now);
    StepsAsWritten(p0, evs, term, snapshot, now).(status := StatusText(|evs|))
  }

  // ---------------------------------------------------------------------------------------
  // The part run 10 ms later, corrected.

  /** One turn of the loop, corrected: an event gets a new card exactly when no card for its
      id is on show and not leaving at the time the turn runs; otherwise that card is refreshed. */
  function StepFixed(p: Page, e: Event, term: string, now: int): (r: Page)
    ensures Extends(p.cards, r.cards) && r.status == p.status
  {
    match FindCard(p.cards, e.id, true)
    case None => Append(p, e, term, now)
    case Some(k) => p.(cards := Refresh(p.cards, k, e, term))
  }

  function StepsFixed(p: Page, evs: seq<Event>, term: string, now: int): (r: Page)
    ensures Extends(p.cards, r.cards) && r.status == p.status
  {
    if evs == [] then p
    else StepFixed(StepsFixed(p, evs[..|evs| - 1], term, now), evs[|evs| - 1], term, now)
  }

  function FinishFixed(p: Page, evs: seq<Event>, term: string, now: int): (r: Page)
    ensures r.status == StatusText(|evs|)
    ensures evs == [] ==> r.cards == []
    ensures evs != [] ==> Extends(p.cards, r.cards)
  {
    var p0 := if evs == [] then p.(cards := []) else p;
    StepsFixed(p0, evs, term, now).(status := StatusText(|evs|))
  }

  // ---------------------------------------------------------------------------------------
  // The part run 400 ms later, and the countdown's own ticks.

  function FindKey(cards: seq<Card>, key: nat, from: nat): (r: Option<nat>)
    requires from <= |cards|
    ensures r.Some? ==> from <= r.value < |cards| && cards[r.value].key == key
    ensures r.Some? ==> forall k :: from <= k < r.value ==> cards[k].key != key
    ensures r.None? ==> forall k :: from <= k < |cards| ==> cards[k].key != key
    decreases |cards| - from
  {
    if from == |cards| then None
    else if cards[from].key == key then Some(from)
    else FindKey(cards, key, from + 1)
  }

  /** `if (card.parentNode === eventContainer) eventContainer.removeChild(card)`. */
  function Detach(p: Page, key: nat): (r: Page)
    ensures r.timers == p.timers && r.nextKey == p.nextKey && r.status == p.status
    ensures (forall k :: 0 <= k < |p.cards| ==> p.cards[k].key != key) ==> r.cards == p.cards
    ensures (exists k :: 0 <= k < |p.cards| && p.cards[k].key == key) ==>
      exists k :: 0 <= k < |p.cards| && p.cards[k].key == key && r.cards == p.cards[..k] + p.cards[k + 1..]
        && forall j :: 0 <= j < k ==> p.cards[j].key != key
  {
    match FindKey(p.cards, key, 0)
    case None => p
    case Some(k) => p.(cards := p.cards[..k] + p.cards[k + 1..])
  }

  /** A countdown interval fires; intervals fire only while running. */
  function TickPage(p: Page, id: int, remaining: int): (r: Page)
    ensures r.cards == p.cards && r.nextKey == p.nextKey && r.status == p.status
    ensures r.timers == Ticked(p.timers, id, remaining)
  {
    p.(timers := Ticked(p.timers, id, remaining))
  }

  // ---------------------------------------------------------------------------------------
  // What the page keeps true.

  /** No two cards on show and not leaving carry the same id. */
  predicate LiveDistinct(cards: seq<Card>) {
    forall i, j :: 0 <= i < j < |cards| && !cards[i].exiting && !cards[j].exiting ==> cards[i].id != cards[j].id
  }

  /** The id's countdown is either running or says "Event has ended". */
  predicate CountdownShown(t: Table, id: int) {
    id in t.display && (Ticking(t, id) || t.display[id] == Ended)
  }

  /** The table's own invariant; node identities are unique and below the next one; each
      event is on show at most once; and every card on show has a countdown that is running
      or has ended. */
  ghost predicate PageInv(p: Page) {
    && Inv(p.timers)
    && (forall k :: 0 <= k < |p.cards| ==> p.cards[k].key < p.nextKey)
    && (forall i, j :: 0 <= i < j < |p.cards| ==> p.cards[i].key != p.cards[j].key)
    && LiveDistinct(p.cards)
    && (forall k :: 0 <= k < |p.cards| && !p.cards[k].exiting ==> CountdownShown(p.timers, p.cards[k].id))
  }

  /** `b` keeps the cards of `a` in place, with the same identity, id and leaving mark. */
  predicate Extends(a: seq<Card>, b: seq<Card>) {
    |a| <= |b| && forall k :: 0 <= k < |a| ==> b[k].key == a[k].key && b[k].id == a[k].id && b[k].exiting == a[k].exiting
  }

  lemma AppendKeepsInv(p: Page, e: Event, term: string, now: int)
    requires PageInv(p) && !HasLive(p.cards, e.id)
    ensures PageInv(Append(p, e, term, now))
  {
    var d := e.startMs - now;
    var p' := Append(p, e, term, now);
    RegisterKeepsInvariant(p.timers, e.id, d, d);
    AppendShowsCountdowns(p, e, term, now);
    AppendKeepsKeys(p.cards, p.nextKey, NewCard(p.nextKey, e, term));
  }

  /** Appending a live card under the next identity, for an id not on show, keeps the
      identities unique and below the next one, and each id on show at most once. */
  lemma AppendKeepsKeys(cards: seq<Card>, nextKey: nat, c: Card)
    requires forall k :: 0 <= k < |cards| ==> cards[k].key < nextKey
    requires forall i, j :: 0 <= i < j < |cards| ==> cards[i].key != cards[j].key
    requires LiveDistinct(cards) && !HasLive(cards, c.id) && c.key == nextKey
    ensures var r := cards + [c];
      && (forall k :: 0 <= k < |r| ==> r[k].key < nextKey + 1)
      && (forall i, j :: 0 <= i < j < |r| ==> r[i].key != r[j].key)
      && LiveDistinct(r)
  {
    var r := cards + [c];
    assert forall k :: 0 <= k < |cards| ==> r[k] == cards[k];
  }

  /** After an append every card on show, the new one included, has its countdown shown. */
  lemma AppendShowsCountdowns(p: Page, e: Event, term: string, now: int)
    requires PageInv(p) && !HasLive(p.cards, e.id)
    ensures var p' := Append(p, e, term, now);
      forall k :: 0 <= k < |p'.cards| && !p'.cards[k].exiting ==> CountdownShown(p'.timers, p'.cards[k].id)
  {
    var d := e.startMs - now;
    var p' := Append(p, e, term, now);
    forall k | 0 <= k < |p'.cards| && !p'.cards[k].exiting ensures CountdownShown(p'.timers, p'.cards[k].id) {
      if k < |p.cards| {
        assert p'.cards[k] == p.cards[k];
        RegisterLeavesOthers(p.timers, e.id, d, d, p.cards[k].id);
      } else if d > 0 {
        RegisterStarts(p.timers, e.id, d, d);
      } else {
        RegisterEnded(p.timers, e.id, d, d);
      }
    }
  }

  lemma StepFixedKeepsInv(p: Page, e: Event, term: string, now: int)
    requires PageInv(p)
    ensures PageInv(StepFixed(p, e, term, now))
    ensures Extends(p.cards, StepFixed(p, e, term, now).cards)
  {
    match FindCard(p.cards, e.id, true)
    case None =>
      AppendKeepsInv(p, e, term, now);
    case Some(k) =>
      var p' := StepFixed(p, e, term, now);
      assert forall i :: 0 <= i < |p.cards| ==> p'.cards[i].key == p.cards[i].key && p'.cards[i].id == p.cards[i].id && p'.cards[i].exiting == p.cards[i].exiting;
  }

  lemma {:induction false} StepsFixedKeepsInv(p: Page, evs: seq<Event>, term: string, now: int)
    requires PageInv(p)
    ensures PageInv(StepsFixed(p, evs, term, now))
    ensures Extends(p.cards, StepsFixed(p, evs, term, now).cards)
  {
    if evs != [] {
      var n := |evs| - 1;
      StepsFixedKeepsInv(p, evs[..n], term, now);
      StepFixedKeepsInv(StepsFixed(p, evs[..n], term, now), evs[n], term, now);
    }
  }

  /** The corrected deferred part keeps the page invariant, whatever ran before it. */
  lemma FinishFixedKeepsInv(p: Page, evs: seq<Event>, term: string, now: int)
    requires PageInv(p)
    ensures PageInv(FinishFixed(p, evs, term, now))
  {
    var p0 := if evs == [] then p.(cards := []) else p;
    StepsFixedKeepsInv(p0, evs, term, now);
  }

  /** The immediate part keeps the page invariant: the cards left on show keep their ids, so
      their countdowns are untouched by the cancellations. */
  lemma BeginKeepsInv(p: Page, evs: seq<Event>)
    requires PageInv(p)
    ensures PageInv(Begin(p, evs).page)
  {
    var newIds := Ids(evs);
    var removed := RemovedIds(p.cards, newIds);
    var p' := Begin(p, evs).page;
    CancelAllRemoves(p.timers, removed);
    forall k | 0 <= k < |p'.cards| && !p'.cards[k].exiting ensures CountdownShown(p'.timers, p'.cards[k].id) {
      var id := p.cards[k].id;
      assert id in newIds;
      assert id !in removed;
    }
  }

  /** Taking out one card keeps the page invariant. */
  lemma DetachKeepsInv(p: Page, key: nat)
    requires PageInv(p)
    ensures PageInv(Detach(p, key))
  {
    match FindKey(p.cards, key, 0)
    case None =>
    case Some(k) =>
      var c := p.cards;
      var r := c[..k] + c[k + 1..];
      forall i | 0 <= i < |r| ensures r[i] == c[Skip(i, k)] {
        if i < k { assert r[i] == c[..k][i]; } else { assert r[i] == c[k + 1..][i - k]; }
      }
      forall i, j | 0 <= i < j < |r| ensures r[i].key != r[j].key {
        assert Skip(i, k) < Skip(j, k) < |c|;
      }
      forall i, j | 0 <= i < j < |r| && !r[i].exiting && !r[j].exiting ensures r[i].id != r[j].id {
        assert Skip(i, k) < Skip(j, k) < |c|;
      }
      assert LiveDistinct(r);
  }

  /** The position in the cards of the `i`-th card left after taking out the `k`-th. */
  function Skip(i: nat, k: nat): (j: nat)
    ensures i <= j <= i + 1 && (j == i <==> i < k)
  {
    if i < k then i else i + 1
  }

  /** A tick of a running countdown keeps the page invariant. */
  lemma TickPageKeepsInv(p: Page, id: int, remaining: int)
    requires PageInv(p) && Ticking(p.timers, id)
    ensures PageInv(TickPage(p, id, remaining))
  {
    var t' := Ticked(p.timers, id, remaining);
    TickKeepsInvariant(p.timers, id, remaining);
    forall k | 0 <= k < |p.cards| && !p.cards[k].exiting ensures CountdownShown(t', p.cards[k].id) {
      if p.cards[k].id == id {
        if remaining <= 0 {
          TickEnds(p.timers, id, remaining);
        } else {
          TickShowsTimeLeft(p.timers, id, remaining);
        }
      } else {
        TickLeavesOthers(p.timers, id, remaining, p.cards[k].id);
      }
    }
  }

  // ---------------------------------------------------------------------------------------
  // Which events are on show.

  lemma StepFixedLive(p: Page, e: Event, term: string, now: int)
    ensures forall x :: HasLive(StepFixed(p, e, term, now).cards, x) <==> HasLive(p.cards, x) || x == e.id
  {
    var p' := StepFixed(p, e, term, now);
    match FindCard(p.cards, e.id, true)
    case None =>
      assert !p'.cards[|p.cards|].exiting && p'.cards[|p.cards|].id == e.id;
      forall x | HasLive(p.cards, x) ensures HasLive(p'.cards, x) {
        var k :| 0 <= k < |p.cards| && !p.cards[k].exiting && p.cards[k].id == x;
        assert p'.cards[k] == p.cards[k];
      }
    case Some(k) =>
      assert forall i :: 0 <= i < |p.cards| ==> p'.cards[i].id == p.cards[i].id && p'.cards[i].exiting == p.cards[i].exiting;
  }

  lemma {:induction false} StepsFixedLive(p: Page, evs: seq<Event>, term: string, now: int)
    ensures forall x :: HasLive(StepsFixed(p, evs, term, now).cards, x) <==> HasLive(p.cards, x) || x in Ids(evs)
  {
    if evs != [] {
      var n := |evs| - 1;
      StepsFixedLive(p, evs[..n], term, now);
      StepFixedLive(StepsFixed(p, evs[..n], term, now), evs[n], term, now);
      assert Ids(evs) == Ids(evs[..n]) + [evs[n].id];
    }
  }

  /** A render whose deferred part runs before anything else leaves on show exactly one card
      for each event to render and nothing else, each with a running or ended countdown, and
      announces how many there are. */
  lemma RenderShowsExactly(p: Page, evs: seq<Event>, term: string, now: int)
    requires PageInv(p)
    ensures var f := FinishFixed(Begin(p, evs).page, evs, term, now);
      && PageInv(f)
      && (forall x :: HasLive(f.cards, x) <==> x in Ids(evs))
      && f.status == StatusText(|evs|)
  {
    var b := Begin(p, evs).page;
    BeginKeepsInv(p, evs);
    FinishFixedKeepsInv(b, evs, term, now);
    var b0 := if evs == [] then b.(cards := []) else b;
    StepsFixedLive(b0, evs, term, now);
    forall x | HasLive(b0.cards, x) ensures x in Ids(evs) {
      var k :| 0 <= k < |b0.cards| && !b0.cards[k].exiting && b0.cards[k].id == x;
    }
  }

  /** The card with this identity, if still present, is leaving, and the identity was issued. */
  predicate Departing(p: Page, key: nat) {
    key < p.nextKey && forall k :: 0 <= k < |p.cards| && p.cards[k].key == key ==> p.cards[k].exiting
  }

  /** The keys of the cards the immediate part marks as leaving. */
  lemma {:induction false} LeavingKeysAreCards(cards: seq<Card>, newIds: seq<int>)
    ensures forall j :: 0 <= j < |LeavingKeys(cards, newIds)| ==>
      exists k :: 0 <= k < |cards| && cards[k].key == LeavingKeys(cards, newIds)[j] && cards[k].id !in newIds
  {
    if cards != [] {
      var n := |cards| - 1;
      LeavingKeysAreCards(cards[..n], newIds);
      var r := LeavingKeys(cards, newIds);
      forall j | 0 <= j < |r| ensures exists k :: 0 <= k < |cards| && cards[k].key == r[j] && cards[k].id !in newIds {
        var front := LeavingKeys(cards[..n], newIds);
        if j < |front| {
          assert r[j] == front[j];
          var k :| 0 <= k < n && cards[..n][k].key == front[j] && cards[..n][k].id !in newIds;
          assert cards[k] == cards[..n][k];
          assert 0 <= k < |cards| && cards[k].key == r[j] && cards[k].id !in newIds;
        } else {
          assert 0 <= n < |cards| && cards[n].key == r[j] && cards[n].id !in newIds;
        }
      }
      assert r == LeavingKeys(cards, newIds);
    } else {
      assert LeavingKeys(cards, newIds) == [];
    }
  }

  /** Every detach the immediate part schedules is for a leaving card. */
  lemma BeginSchedulesDeparting(p: Page, evs: seq<Event>)
    requires PageInv(p)
    ensures var b := Begin(p, evs);
      forall j :: 0 <= j < |b.leaving| ==> Departing(b.page, b.leaving[j])
  {
    var b := Begin(p, evs);
    var newIds := Ids(evs);
    LeavingKeysAreCards(p.cards, newIds);
    forall j | 0 <= j < |b.leaving| ensures Departing(b.page, b.leaving[j]) {
      var k :| 0 <= k < |p.cards| && p.cards[k].key == b.leaving[j] && p.cards[k].id !in newIds;
      forall i | 0 <= i < |b.page.cards| && b.page.cards[i].key == b.leaving[j] ensures b.page.cards[i].exiting {
        assert i == k;
      }
    }
  }

  lemma StepFixedDeparting(p: Page, e: Event, term: string, now: int, key: nat)
    requires PageInv(p) && Departing(p, key)
    ensures Departing(StepFixed(p, e, term, now), key)
  {
    StepFixedKeepsInv(p, e, term, now);
  }

  lemma {:induction false} StepsFixedDeparting(p: Page, evs: seq<Event>, term: string, now: int, key: nat)
    requires PageInv(p) && Departing(p, key)
    ensures Departing(StepsFixed(p, evs, term, now), key)
  {
    if evs != [] {
      var n := |evs| - 1;
      StepsFixedDeparting(p, evs[..n], term, now, key);
      StepsFixedKeepsInv(p, evs[..n], term, now);
      StepFixedDeparting(StepsFixed(p, evs[..n], term, now), evs[n], term, now, key);
    }
  }

  /** A leaving card never comes back: the immediate part and the ticks keep it leaving. */
  lemma BeginTickKeepDeparting(p: Page, key: nat, evs: seq<Event>, id: int, remaining: int)
    requires Departing(p, key)
    ensures Departing(Begin(p, evs).page, key)
    ensures Departing(TickPage(p, id, remaining), key)
  {
  }

  /** The corrected deferred part keeps a leaving card leaving, or takes it out. */
  lemma FinishFixedKeepsDeparting(p: Page, evs: seq<Event>, term: string, now: int, key: nat)
    requires PageInv(p) && Departing(p, key)
    ensures Departing(FinishFixed(p, evs, term, now), key)
  {
    var p0 := if evs == [] then p.(cards := []) else p;
    StepsFixedDeparting(p0, evs, term, now, key);
  }

  /** Taking out some card keeps every other leaving card leaving. */
  lemma DetachKeepsDeparting(p: Page, other: nat, key: nat)
    requires Departing(p, key)
    ensures Departing(Detach(p, other), key)
  {
    match FindKey(p.cards, other, 0)
    case None =>
    case Some(k) =>
      var c := p.cards;
      var r := c[..k] + c[k + 1..];
      assert forall i :: 0 <= i < |r| ==> r[i] == (if i < k then c[i] else c[i + 1]);
  }

  /** Taking out a leaving card changes nothing about which events are on show. */
  lemma DetachDepartingKeepsLive(p: Page, key: nat)
    requires Departing(p, key)
    ensures forall x :: HasLive(Detach(p, key).cards, x) <==> HasLive(p.cards, x)
  {
    match FindKey(p.cards, key, 0)
    case None =>
    case Some(k) =>
      var c := p.cards;
      var r := c[..k] + c[k + 1..];
      assert forall i :: 0 <= i < |r| ==> r[i] == (if i < k then c[i] else c[i + 1]);
      forall x | HasLive(c, x) ensures HasLive(r, x) {
        var i :| 0 <= i < |c| && !c[i].exiting && c[i].id == x;
        if i < k {
          assert r[i] == c[i];
        } else {
          assert r[i - 1] == c[i];
        }
      }
  }

  // ---------------------------------------------------------------------------------------
  // The deferred part as written: what it gets wrong.

  lemma StepAsWrittenExtends(p: Page, e: Event, term: string, snapshot: seq<int>, now: int)
    ensures Extends(p.cards, StepAsWritten(p, e, term, snapshot, now).cards)
  {
    var r := StepAsWritten(p, e, term, snapshot, now);
    assert forall i :: 0 <= i < |p.cards| ==> r.cards[i].key == p.cards[i].key && r.cards[i].id == p.cards[i].id && r.cards[i].exiting == p.cards[i].exiting;
  }

  lemma {:induction false} StepsAsWrittenExtends(p: Page, evs: seq<Event>, term: string, snapshot: seq<int>, now: int)
    ensures Extends(p.cards, StepsAsWritten(p, evs, term, snapshot, now).cards)
  {
    if evs != [] {
      var n := |evs| - 1;
      StepsAsWrittenExtends(p, evs[..n], term, snapshot, now);
      StepAsWrittenExtends(StepsAsWritten(p, evs[..n], term, snapshot, now), evs[n], term, snapshot, now);
    }
  }

  /** As written, an id remembered when the call began never gets a card on show again from
      this call: if its only cards are leaving, they are merely refreshed. */
  lemma {:induction false} StepsAsWrittenNoRevive(p: Page, evs: seq<Event>, term: string, snapshot: seq<int>, now: int, x: int)
    requires x in snapshot && !HasLive(p.cards, x)
    ensures !HasLive(StepsAsWritten(p, evs, term, snapshot, now).cards, x)
  {
    if evs != [] {
      var n := |evs| - 1;
      var q := StepsAsWritten(p, evs[..n], term, snapshot, now);
      StepsAsWrittenNoRevive(p, evs[..n], term, snapshot, now, x);
      StepAsWrittenExtends(q, evs[n], term, snapshot, now);
      var r := StepAsWritten(q, evs[n], term, snapshot, now);
      forall k | 0 <= k < |r.cards| && !r.cards[k].exiting ensures r.cards[k].id != x {
        if k < |q.cards| {
          assert !q.cards[k].exiting;
        } else {
          assert r.cards[k].id == evs[n].id;
        }
      }
    }
  }

  /** Some card for `x` at position `from` or later is on show and not leaving. */
  predicate LiveAfter(cards: seq<Card>, from: nat, x: int) {
    exists k :: from <= k < |cards| && !cards[k].exiting && cards[k].id == x
  }

  /** As written, an event whose id was not remembered gets a new card on show, after the
      cards already there. */
  lemma {:induction false} StepsAsWrittenAppends(p: Page, evs: seq<Event>, term: string, snapshot: seq<int>, now: int, x: int)
    requires x in Ids(evs) && x !in snapshot
    ensures LiveAfter(StepsAsWritten(p, evs, term, snapshot, now).cards, |p.cards|, x)
  {
    var n := |evs| - 1;
    var q := StepsAsWritten(p, evs[..n], term, snapshot, now);
    var r := StepsAsWritten(p, evs, term, snapshot, now);
    StepsAsWrittenExtends(p, evs[..n], term, snapshot, now);
    if evs[n].id == x {
      var k := |q.cards|;
      assert |p.cards| <= k < |r.cards| && !r.cards[k].exiting && r.cards[k].id == x;
    } else {
      assert Ids(evs) == Ids(evs[..n]) + [evs[n].id];
      StepsAsWrittenAppends(p, evs[..n], term, snapshot, now, x);
      var k :| |p.cards| <= k < |q.cards| && !q.cards[k].exiting && q.cards[k].id == x;
      StepAsWrittenExtends(q, evs[n], term, snapshot, now);
      assert |p.cards| <= k < |r.cards| && !r.cards[k].exiting && r.cards[k].id == x;
    }
  }

  /** Marking cards as leaving keeps every card, with its id. */
  lemma BeginKeepsCards(p: Page, evs: seq<Event>)
    ensures CardIds(Begin(p, evs).page.cards) == CardIds(p.cards)
    ensures forall k :: 0 <= k < |p.cards| && p.cards[k].exiting ==> Begin(p, evs).page.cards[k].exiting
    ensures forall x :: x !in Ids(evs) ==> !HasLive(Begin(p, evs).page.cards, x)
    ensures forall x :: HasLive(Begin(p, evs).page.cards, x) ==> HasLive(p.cards, x)
  {
  }

  /** What the correction leaves open: two calls that both begin before either's deferred
      part runs. The first call's deferred part adds a card for an event only it selected, and
      the second call's deferred part, which marks nothing as leaving, keeps that card on show. */
  lemma StaleFinishShowsUnwanted(p: Page, evsA: seq<Event>, evsB: seq<Event>, term: string, nowA: int, nowB: int, x: int)
    requires x in Ids(evsA) && x !in Ids(evsB) && evsB != []
    ensures var bA := Begin(p, evsA);
      var bB := Begin(bA.page, evsB);
      var fA := FinishFixed(bB.page, evsA, term, nowA);
      var fB := FinishFixed(fA, evsB, term, nowB);
      HasLive(fB.cards, x) && fB.status == StatusText(|evsB|)
  {
    var bB := Begin(Begin(p, evsA).page, evsB);
    var fA := FinishFixed(bB.page, evsA, term, nowA);
    StepsFixedLive(bB.page, evsA, term, nowA);
    StepsFixedLive(fA, evsB, term, nowB);
  }

  /** Finding, the 400 ms window: a card that starts leaving is still counted as present by a
      second call made before it is taken out, so the second call only refreshes it. The event
      is then to be shown, and counted in the status, with no card on show for it. */
  lemma ExitWindowLosesEvent(p: Page, evs1: seq<Event>, evs2: seq<Event>, term: string, now1: int, now2: int, x: int)
    requires HasLive(p.cards, x) && evs1 != [] && x !in Ids(evs1) && x in Ids(evs2)
    ensures var b1 := Begin(p, evs1);
      var f1 := FinishAsWritten(b1.page, evs1, term, b1.snapshot, now1);
      var b2 := Begin(f1, evs2);
      var f2 := FinishAsWritten(b2.page, evs2, term, b2.snapshot, now2);
      !HasLive(f2.cards, x) && f2.status == StatusText(|evs2|)
  {
    var b1 := Begin(p, evs1);
    var k :| 0 <= k < |p.cards| && !p.cards[k].exiting && p.cards[k].id == x;
    assert CardIds(p.cards)[k] == x;
    BeginKeepsCards(p, evs1);
    StepsAsWrittenNoRevive(b1.page, evs1, term, b1.snapshot, now1, x);
    StepsAsWrittenExtends(b1.page, evs1, term, b1.snapshot, now1);
    var f1 := FinishAsWritten(b1.page, evs1, term, b1.snapshot, now1);
    assert CardIds(f1.cards)[k] == x;
    var b2 := Begin(f1, evs2);
    BeginKeepsCards(f1, evs2);
    StepsAsWrittenNoRevive(b2.page, evs2, term, b2.snapshot, now2, x);
  }

  /** Finding, the 10 ms window: two calls made before either's deferred part runs remember the
      same ids, so both add a card for an event that had none: the event is on show twice. */
  lemma DoubleRenderDuplicates(p: Page, evs: seq<Event>, term: string, now1: int, now2: int, x: int)
    requires x in Ids(evs) && x !in CardIds(p.cards)
    ensures var b1 := Begin(p, evs);
      var b2 := Begin(b1.page, evs);
      var f1 := FinishAsWritten(b2.page, evs, term, b1.snapshot, now1);
      var f2 := FinishAsWritten(f1, evs, term, b2.snapshot, now2);
      !LiveDistinct(f2.cards)
  {
    var b1 := Begin(p, evs);
    BeginKeepsCards(p, evs);
    var b2 := Begin(b1.page, evs);
    BeginKeepsCards(b1.page, evs);
    var f1 := FinishAsWritten(b2.page, evs, term, b1.snapshot, now1);
    StepsAsWrittenAppends(b2.page, evs, term, b1.snapshot, now1, x);
    var k1 :| |b2.page.cards| <= k1 < |f1.cards| && !f1.cards[k1].exiting && f1.cards[k1].id == x;
    var f2 := FinishAsWritten(f1, evs, term, b2.snapshot, now2);
    StepsAsWrittenAppends(f1, evs, term, b2.snapshot, now2, x);
    StepsAsWrittenExtends(f1, evs, term, b2.snapshot, now2);
    var k2 :| |f1.cards| <= k2 < |f2.cards| && !f2.cards[k2].exiting && f2.cards[k2].id == x;
    assert 0 <= k1 < k2 < |f2.cards| && !f2.cards[k1].exiting && !f2.cards[k2].exiting && f2.cards[k1].id == f2.cards[k2].id;
  }

  // ---------------------------------------------------------------------------------------
  // The same schedules with the corrected deferred part.

  /** Corrected, the 400 ms window: the event is on show after the second call, and stays on
      show when the leaving card is taken out. */
  lemma ExitWindowKeepsEvent(p: Page, evs1: seq<Event>, evs2: seq<Event>, term: string, now1: int, now2: int, x: int)
    requires PageInv(p) && x in Ids(evs2)
    ensures var b1 := Begin(p, evs1);
      var f1 := FinishFixed(b1.page, evs1, term, now1);
      var b2 := Begin(f1, evs2);
      var f2 := FinishFixed(b2.page, evs2, term, now2);
      && HasLive(f2.cards, x)
      && (forall j :: 0 <= j < |b1.leaving| ==> HasLive(Detach(f2, b1.leaving[j]).cards, x))
  {
    var b1 := Begin(p, evs1);
    BeginKeepsInv(p, evs1);
    BeginSchedulesDeparting(p, evs1);
    var f1 := FinishFixed(b1.page, evs1, term, now1);
    FinishFixedKeepsInv(b1.page, evs1, term, now1);
    RenderShowsExactly(f1, evs2, term, now2);
    var b2 := Begin(f1, evs2);
    BeginKeepsInv(f1, evs2);
    var f2 := FinishFixed(b2.page, evs2, term, now2);
    forall j | 0 <= j < |b1.leaving| ensures HasLive(Detach(f2, b1.leaving[j]).cards, x) {
      var key := b1.leaving[j];
      FinishFixedKeepsDeparting(b1.page, evs1, term, now1, key);
      BeginTickKeepDeparting(f1, key, evs2, 0, 0);
      FinishFixedKeepsDeparting(b2.page, evs2, term, now2, key);
      DetachDepartingKeepsLive(f2, key);
    }
  }

  /** Corrected, the 10 ms window: the event is on show, once. */
  lemma DoubleRenderShowsOnce(p: Page, evs: seq<Event>, term: string, now1: int, now2: int, x: int)
    requires PageInv(p) && x in Ids(evs)
    ensures var b1 := Begin(p, evs);
      var b2 := Begin(b1.page, evs);
      var f1 := FinishFixed(b2.page, evs, term, now1);
      var f2 := FinishFixed(f1, evs, term, now2);
      LiveDistinct(f2.cards) && HasLive(f2.cards, x)
  {
    var b1 := Begin(p, evs);
    BeginKeepsInv(p, evs);
    var b2 := Begin(b1.page, evs);
    BeginKeepsInv(b1.page, evs);
    var f1 := FinishFixed(b2.page, evs, term, now1);
    FinishFixedKeepsInv(b2.page, evs, term, now1);
    StepsFixedLive(b2.page, evs, term, now1);
    FinishFixedKeepsInv(f1, evs, term, now2);
    StepsFixedLive(f1, evs, term, now2);
  }

  // ---------------------------------------------------------------------------------------
  // The container as an object, with the corrected deferred part.

  /** Taking one more element of a sequence of ids to cancel cancels one more id. */
  lemma CancelledAllSnoc(t: Table, ids: seq<int>, id: int)
    ensures CancelledAll(t, ids + [id]) == Cancelled(CancelledAll(t, ids), id)
  {
    assert (ids + [id])[..|ids|] == ids;
  }

  lemma LeavingKeysSnoc(cards: seq<Card>, i: nat, newIds: seq<int>)
    requires i < |cards|
    ensures LeavingKeys(cards[..i + 1], newIds)
      == LeavingKeys(cards[..i], newIds) + (if cards[i].id !in newIds then [cards[i].key] else [])
  {
    assert cards[..i + 1][..i] == cards[..i];
  }

  lemma RemovedIdsSnoc(cards: seq<Card>, i: nat, newIds: seq<int>)
    requires i < |cards|
    ensures RemovedIds(cards[..i + 1], newIds)
      == RemovedIds(cards[..i], newIds) + (if cards[i].id !in newIds then [cards[i].id] else [])
  {
    assert cards[..i + 1][..i] == cards[..i];
  }

  /** The container's cards, the node counter and the status region, together with the
      countdown table they share with `updateCountdown`. */
  class EventPage {
    var cards: seq<Card>
    var nextKey: nat
    var status: string
    const timers: CountdownRegistry

    function State(): Page
      reads this, timers
    {
      Page(cards, nextKey, timers.State(), status)
    }

    ghost predicate Valid()
      reads this, timers
    {
      PageInv(State())
    }

    constructor ()
      ensures Valid() && State() == EmptyPage && fresh(timers)
    {
      cards, nextKey, status := [], 0, "";
      timers := new CountdownRegistry();
    }

    /** The immediate part of `renderEvents`: mark each card leaving whose id is not to be
        shown, cancel its countdown, and hand back the detaches to schedule and the ids the
        deferred part will consult. */
    method RenderEvents(evs: seq<Event>) returns (leaving: seq<nat>, snapshot: seq<int>)
      requires Valid()
      modifies this, timers
      ensures Valid()
      ensures Begun(State(), leaving, snapshot) == Begin(old(State()), evs)
    {
      BeginKeepsInv(State(), evs);
      snapshot := CardIds(cards);
      leaving := MarkAll(Ids(evs));
    }

    /** The `cardsToRemove.forEach` loop over the cards whose id is not among `newIds`. */
    method MarkAll(newIds: seq<int>) returns (leaving: seq<nat>)
      requires timers.Valid()
      modifies this, timers
      ensures timers.Valid()
      ensures cards == MarkLeaving(old(cards), newIds) && leaving == LeavingKeys(old(cards), newIds)
      ensures timers.State() == CancelledAll(old(timers.State()), RemovedIds(old(cards), newIds))
      ensures nextKey == old(nextKey) && status == old(status)
    {
      ghost var c0 := cards;
      ghost var t0 := timers.State();
      ghost var removed: seq<int> := [];
      leaving := [];
      var i := 0;
      while i < |cards|
        invariant 0 <= i <= |cards| == |c0|
        invariant forall k :: 0 <= k < i ==> cards[k] == (if c0[k].id in newIds then c0[k] else c0[k].(exiting := true))
        invariant forall k :: i <= k < |cards| ==> cards[k] == c0[k]
        invariant leaving == LeavingKeys(c0[..i], newIds)
        invariant removed == RemovedIds(c0[..i], newIds)
        invariant timers.Valid() && timers.State() == CancelledAll(t0, removed)
        invariant nextKey == old(nextKey) && status == old(status)
      {
        var c := cards[i];
        LeavingKeysSnoc(c0, i, newIds);
        RemovedIdsSnoc(c0, i, newIds);
        if c.id !in newIds {
          CancelledAllSnoc(t0, removed, c.id);
          LeaveCard(i);
          removed := removed + [c.id];
          leaving := leaving + [c.key];
        }
        i := i + 1;
      }
      assert c0[..i] == c0;
      assert cards == MarkLeaving(c0, newIds);
    }

    /** `card.classList.add('card-exit')` and the cancellation of its countdown. */
    method LeaveCard(i: nat)
      requires timers.Valid() && i < |cards|
      modifies this, timers
      ensures cards == old(cards)[i := old(cards)[i].(exiting := true)]
      ensures timers.Valid() && timers.State() == Cancelled(old(timers.State()), old(cards)[i].id)
      ensures nextKey == old(nextKey) && status == old(status)
    {
      var c := cards[i];
      cards := cards[i := c.(exiting := true)];
      timers.Cancel(c.id);
    }

    /** The deferred part, corrected: each event gets a new card and a countdown exactly when
        no card for it is on show and not leaving at that moment; otherwise that card's
        highlighting is redone. Then the count is announced. */
    method AddCards(evs: seq<Event>, term: string, now: int)
      requires Valid()
      modifies this, timers
      ensures Valid()
      ensures State() == FinishFixed(old(State()), evs, term, now)
    {
      FinishFixedKeepsInv(State(), evs, term, now);
      if |evs| == 0 {
        cards := [];
      }
      AddAll(evs, term, now);
      status := StatusText(|evs|);
    }

    /** The corrected `eventsToRender.forEach` loop. */
    method AddAll(evs: seq<Event>, term: string, now: int)
      requires Valid()
      modifies this, timers
      ensures Valid()
      ensures State() == StepsFixed(old(State()), evs, term, now)
    {
      ghost var p0 := State();
      var j := 0;
      while j < |evs|
        invariant 0 <= j <= |evs|
        invariant Valid()
        invariant State() == StepsFixed(p0, evs[..j], term, now)
      {
        assert evs[..j + 1][..j] == evs[..j];
        AddCard(evs[j], term, now);
        j := j + 1;
      }
      assert evs[..j] == evs;
    }

    /** One turn of the corrected loop. */
    method AddCard(e: Event, term: string, now: int)
      requires Valid()
      modifies this, timers
      ensures Valid()
      ensures State() == StepFixed(old(State()), e, term, now)
    {
      match FindCard(cards, e.id, true) {
        case None =>
          AppendKeepsInv(State(), e, term, now);
          AppendCard(e, term, now);
        case Some(k) =>
          StepFixedKeepsInv(State(), e, term, now);
          cards := Refresh(cards, k, e, term);
      }
    }

    /** `eventContainer.appendChild(createEventCard(event, searchTerm))`. */
    method AppendCard(e: Event, term: string, now: int)
      requires timers.Valid()
      modifies this, timers
      ensures timers.Valid()
      ensures State() == Append(old(State()), e, term, now)
    {
      var d := e.startMs - now;
      cards := cards + [NewCard(nextKey, e, term)];
      nextKey := nextKey + 1;
      timers.Register(e.id, d, d);
    }

    /** The detach scheduled for a leaving card: take it out if it is still in the container. */
    method DetachCard(key: nat)
      requires Valid()
      modifies this
      ensures Valid()
      ensures State() == Detach(old(State()), key)
    {
      DetachKeepsInv(State(), key);
      match FindKey(cards, key, 0) {
        case None =>
        case Some(k) =>
          cards := cards[..k] + cards[k + 1..];
      }
    }

    /** A running countdown fires. */
    method TickCountdown(id: int, remaining: int)
      requires Valid() && Ticking(timers.State(), id)
      modifies timers
      ensures Valid()
      ensures State() == TickPage(old(State()), id, remaining)
    {
      TickPageKeepsInv(State(), id, remaining);
      timers.Tick(id, remaining);
    }
  }
}
