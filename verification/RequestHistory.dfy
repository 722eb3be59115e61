/** What the request engine does, told from what has happened so far. */
module RequestHistory {
  import opened Wire
  import opened RequestEngine

  /** The engine when it starts, wherever its cursors are. */
  predicate IsNew(w: World) { w.devices == map[] }

  predicate Heard(events: seq<Event>, i: nat, d: byte)
    requires i <= |events|
  {
    exists j :: 0 <= j < i && events[j].Seen? && events[j].src == d
  }

  /** Event `e` is information of the given kind from device `d`: an address claim, or product
      information. */
  predicate Informs(e: Event, kind: RequestKind, d: byte) {
    e.Seen? && e.src == d && e.pgn == match kind case Claim => 60928 case ProductInfo => 126996
  }

  /** When device `d` last gave information of the kind, among the first `i` events. */
  function LastInformed(events: seq<Event>, i: nat, kind: RequestKind, d: byte): Option<nat>
    requires i <= |events|
  {
    if i == 0 then None
    else if Informs(events[i - 1], kind, d) then Some(events[i - 1].now)
    else LastInformed(events, i - 1, kind, d)
  }

  /** When it was last asked for it. */
  function LastAsked(w: World, events: seq<Event>, i: nat, kind: RequestKind, d: byte): Option<nat>
    requires i <= |events|
  {
    if i == 0 then None
    else if AsksAt(w, events, i - 1, kind, d) then Some(events[i - 1].now)
    else LastAsked(w, events, i - 1, kind, d)
  }

  lemma {:induction false} WorldNext(w: World, events: seq<Event>, i: nat)
    requires i < |events|
    ensures WorldAt(w, events, i + 1) == Step(WorldAt(w, events, i), events[i])
    decreases i
  {
    if i > 0 {
      WorldNext(Step(w, events[0]), events[1..], i - 1);
    }
  }

  /** What is known of device `d` after the first `i` events: whether it was heard at all, and when it
      last gave each kind of information and was last asked for it. */
  predicate KnownAt(w: World, events: seq<Event>, i: nat, d: byte)
    requires i <= |events|
  {
    var devices := WorldAt(w, events, i).devices;
    && (d in devices <==> Heard(events, i, d))
    && (d in devices ==>
          && devices[d].seen
          && devices[d].claim == Stamps(LastInformed(events, i, Claim, d), LastAsked(w, events, i, Claim, d))
          && devices[d].prodInfo == Stamps(LastInformed(events, i, ProductInfo, d), LastAsked(w, events, i, ProductInfo, d)))
    && (d !in devices ==>
          && LastInformed(events, i, Claim, d) == None && LastAsked(w, events, i, Claim, d) == None
          && LastInformed(events, i, ProductInfo, d) == None && LastAsked(w, events, i, ProductInfo, d) == None)
  }

  lemma HeardNext(events: seq<Event>, i: nat, d: byte)
    requires i < |events|
    ensures Heard(events, i + 1, d) <==> Heard(events, i, d) || (events[i].Seen? && events[i].src == d)
  {
  }

  lemma SeenNext(w: World, events: seq<Event>, i: nat, d: byte)
    requires i < |events| && KnownAt(w, events, i, d) && events[i].Seen?
    ensures KnownAt(w, events, i + 1, d)
  {
    var e := events[i];
    WorldNext(w, events, i);
    HeardNext(events, i, d);
    SeenHistory(w, events, i, Claim, d);
    SeenHistory(w, events, i, ProductInfo, d);
  }

  lemma SeenHistory(w: World, events: seq<Event>, i: nat, kind: RequestKind, d: byte)
    requires i < |events| && events[i].Seen?
    ensures LastInformed(events, i + 1, kind, d)
            == if Informs(events[i], kind, d) then Some(events[i].now) else LastInformed(events, i, kind, d)
    ensures LastAsked(w, events, i + 1, kind, d) == LastAsked(w, events, i, kind, d)
  {
  }

  /** A call marks the device that it asks, and nothing else. */
  lemma AskEffect(w: World, e: Event, d: byte)
    requires e.Ask?
    ensures var w' := Step(w, e);
            var asked := Target(w, e) == Some(d);
            && (asked ==> d in w.devices) && (d in w'.devices <==> d in w.devices)
            && (d in w.devices ==>
                  var x := w.devices[d];
                  w'.devices[d] == if !asked then x
                                   else if e.kind == Claim then x.(claim := x.claim.(requested := Some(e.now)))
                                   else x.(prodInfo := x.prodInfo.(requested := Some(e.now))))
  {
  }

  lemma AskHistory(w: World, events: seq<Event>, i: nat, kind: RequestKind, d: byte)
    requires i < |events| && events[i].Ask?
    ensures LastInformed(events, i + 1, kind, d) == LastInformed(events, i, kind, d)
    ensures LastAsked(w, events, i + 1, kind, d)
            == if kind == events[i].kind && Target(WorldAt(w, events, i), events[i]) == Some(d) then Some(events[i].now)
               else LastAsked(w, events, i, kind, d)
  {
  }

  lemma AskNext(w: World, events: seq<Event>, i: nat, d: byte)
    requires i < |events| && KnownAt(w, events, i, d) && events[i].Ask?
    ensures KnownAt(w, events, i + 1, d)
  {
    WorldNext(w, events, i);
    HeardNext(events, i, d);
    AskEffect(WorldAt(w, events, i), events[i], d);
    AskHistory(w, events, i, Claim, d);
    AskHistory(w, events, i, ProductInfo, d);
  }

  lemma KnownNext(w: World, events: seq<Event>, i: nat, d: byte)
    requires i < |events| && KnownAt(w, events, i, d)
    ensures KnownAt(w, events, i + 1, d)
  {
    if events[i].Seen? {
      SeenNext(w, events, i, d);
    } else {
      AskNext(w, events, i, d);
    }
  }

  /** In every run: what the engine knows of a device is what has happened to it. */
  lemma {:induction false} KnowsExactly(w: World, events: seq<Event>, i: nat, d: byte)
    requires IsNew(w) && i <= |events|
    ensures KnownAt(w, events, i, d)
  {
    if i > 0 {
      KnowsExactly(w, events, i - 1, d);
      KnownNext(w, events, i - 1, d);
    }
  }

  /** A moment lies at least 300 s back, or never was. */
  predicate LongAgo(t: Option<nat>, now: nat) { t.Some? ==> now >= t.value + 300_000_000_000 }

  /** At event `i`, device `d` may be asked: it was heard, by whatever it sent, and neither gave the
      information nor was asked for it within 300 s. */
  predicate MayBeAsked(w: World, events: seq<Event>, i: nat, kind: RequestKind, d: byte, now: nat)
    requires i <= |events|
  {
    Heard(events, i, d) && LongAgo(LastInformed(events, i, kind, d), now) && LongAgo(LastAsked(w, events, i, kind, d), now)
  }

  lemma DueExactly(w: World, events: seq<Event>, i: nat, kind: RequestKind, d: byte, now: nat)
    requires IsNew(w) && i <= |events|
    ensures Due(WorldAt(w, events, i).devices, d, kind, now) <==> MayBeAsked(w, events, i, kind, d, now)
  {
    KnowsExactly(w, events, i, d);
  }

  /** In every run, a call asks the first device round from the cursor that may be asked, if there is
      any, and the cursor of its kind then stands behind that device; nothing else moves a cursor. */
  lemma AskExactly(w: World, events: seq<Event>, i: nat)
    requires IsNew(w) && i < |events| && events[i].Ask?
    ensures var kind, now := events[i].kind, events[i].now;
            var before, after := WorldAt(w, events, i), WorldAt(w, events, i + 1);
            match Target(before, events[i])
            case None => after == before && forall e: byte :: !MayBeAsked(w, events, i, kind, e, now)
            case Some(d) =>
              && MayBeAsked(w, events, i, kind, d, now)
              && (forall e: byte :: Distance(CursorOf(before, kind), e) < Distance(CursorOf(before, kind), d) ==>
                    !MayBeAsked(w, events, i, kind, e, now))
              && CursorOf(after, kind) == (d + 1) % 256
              && forall other :: other != kind ==> CursorOf(after, other) == CursorOf(before, other)
  {
    var kind, now, before := events[i].kind, events[i].now, WorldAt(w, events, i);
    WorldNext(w, events, i);
    NextIsNearest(before.devices, CursorOf(before, kind), kind, now);
    forall e: byte
      ensures Due(before.devices, e, kind, now) <==> MayBeAsked(w, events, i, kind, e, now)
    {
      DueExactly(w, events, i, kind, e, now);
    }
  }
}
