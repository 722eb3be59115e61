/** The scheduler that asks devices for their address claim and product information in turn. */
module RequestEngine {
  import opened Wire

  const PGN_CLAIM := 60928
  const PGN_PROD_INFO := 126996

  /** 300 seconds, in nanoseconds: the least time between two requests of a kind to a device. */
  const DEVICE_REQUEST_INTERVAL := 300_000_000_000

  datatype RequestKind = Claim | ProductInfo

  /** When a kind of information last came from a device and was last asked of it. */
  datatype Stamps = Stamps(received: Option<nat>, requested: Option<nat>)

  datatype Device = Device(seen: bool, claim: Stamps, prodInfo: Stamps)

  type Devices = map<byte, Device>

  const UNKNOWN := Device(false, Stamps(None, None), Stamps(None, None))

  function StampsOf(dev: Device, kind: RequestKind): Stamps { if kind == Claim then dev.claim else dev.prodInfo }

  /** The time since `t`, at least zero. */
  function Elapsed(now: nat, t: nat): nat { if now >= t then now - t else 0 }

  predicate Recent(stamp: Option<nat>, now: nat) {
    stamp.Some? && Elapsed(now, stamp.value) < DEVICE_REQUEST_INTERVAL
  }

  /** The device was seen, and neither answered nor was asked within the interval. */
  predicate Due(devices: Devices, d: byte, kind: RequestKind, now: nat) {
    && d in devices && devices[d].seen
    && !Recent(StampsOf(devices[d], kind).received, now) && !Recent(StampsOf(devices[d], kind).requested, now)
  }

  function Noted(devices: Devices, pgn: nat, src: byte, now: nat): Devices {
    var dev := if src in devices then devices[src] else UNKNOWN;
    var seen := dev.(seen := true);
    devices[src := if pgn == PGN_CLAIM then seen.(claim := seen.claim.(received := Some(now)))
                   else if pgn == PGN_PROD_INFO then seen.(prodInfo := seen.prodInfo.(received := Some(now)))
                   else seen]
  }

  function Asked(devices: Devices, d: byte, kind: RequestKind, now: nat): Devices
    requires d in devices
  {
    var dev := devices[d];
    devices[d := if kind == Claim then dev.(claim := dev.claim.(requested := Some(now)))
                 else dev.(prodInfo := dev.prodInfo.(requested := Some(now)))]
  }

  /** The first due device at `offset` or further round from the cursor. */
  function Scan(devices: Devices, cursor: byte, kind: RequestKind, now: nat, offset: nat): (r: Option<byte>)
    requires offset <= 256
    ensures r.Some? ==> r.value in devices
    decreases 256 - offset
  {
    if offset == 256 then None
    else
      var idx := (cursor + offset) % 256;
      if Due(devices, idx, kind, now) then Some(idx) else Scan(devices, cursor, kind, now, offset + 1)
  }

  datatype Choice = Choice(device: Option<byte>, devices: Devices, cursor: byte)

  function Next(devices: Devices, cursor: byte, kind: RequestKind, now: nat): Choice {
    match Scan(devices, cursor, kind, now, 0)
    case None => Choice(None, devices, cursor)
    case Some(d) => Choice(Some(d), Asked(devices, d, kind, now), (d + 1) % 256)
  }

  class Engine {
    var devices: Devices

    constructor ()
      ensures devices == map[]
    {
      devices := map[];
    }

    method NoteDeviceSeen(pgn: nat, src: byte, now: nat)
      modifies this
      ensures devices == Noted(old(devices), pgn, src, now)
    {
      var entry := if src in devices then devices[src] else UNKNOWN;
      entry := entry.(seen := true);
      if pgn == PGN_CLAIM {
        entry := entry.(claim := entry.claim.(received := Some(now)));
      } else if pgn == PGN_PROD_INFO {
        entry := entry.(prodInfo := entry.prodInfo.(received := Some(now)));
      }
      devices := devices[src := entry];
    }

    method NextDue(cursor: byte, kind: RequestKind, now: nat) returns (device: Option<byte>, cursor': byte)
      modifies this
      ensures Choice(device, devices, cursor') == Next(old(devices), cursor, kind, now)
    {
      for offset := 0 to 256
        invariant devices == old(devices)
        invariant Scan(devices, cursor, kind, now, 0) == Scan(devices, cursor, kind, now, offset)
      {
        var idx := (cursor + offset) % 256;
        if idx in devices && devices[idx].seen {
          var state := devices[idx];
          var stamps := if kind == Claim then state.claim else state.prodInfo;
          if !Recent(stamps.received, now) && !Recent(stamps.requested, now) {
            if kind == Claim {
              state := state.(claim := state.claim.(requested := Some(now)));
            } else {
              state := state.(prodInfo := state.prodInfo.(requested := Some(now)));
            }
            devices := devices[idx := state];
            return Some(idx), (idx + 1) % 256;
          }
        }
      }
      return None, cursor;
    }
  }

  // ----- The choice -----

  /** How far round from `c` the address `d` is. */
  function Distance(c: byte, d: byte): (n: nat)
    ensures n < 256 && (c + n) % 256 == d
  {
    (d - c) % 256
  }

  /** `r` is the nearest due device at least `offset` round from the cursor, if there is any. */
  ghost predicate Nearest(r: Option<byte>, devices: Devices, cursor: byte, kind: RequestKind, now: nat, offset: nat) {
    match r
    case None => forall e: byte :: Distance(cursor, e) >= offset ==> !Due(devices, e, kind, now)
    case Some(d) =>
      && Due(devices, d, kind, now) && Distance(cursor, d) >= offset
      && forall e: byte :: offset <= Distance(cursor, e) < Distance(cursor, d) ==> !Due(devices, e, kind, now)
  }

  lemma {:induction false} ScanNearest(devices: Devices, cursor: byte, kind: RequestKind, now: nat, offset: nat)
    requires offset <= 256
    ensures Nearest(Scan(devices, cursor, kind, now, offset), devices, cursor, kind, now, offset)
    decreases 256 - offset
  {
    if offset < 256 {
      var idx := (cursor + offset) % 256;
      assert Distance(cursor, idx) == offset;
      assert forall e: byte :: Distance(cursor, e) == offset ==> e == idx;
      ScanNearest(devices, cursor, kind, now, offset + 1);
    }
  }

  /** A request is made exactly when some seen device is due, and it goes to the nearest such
      device round from the cursor. */
  lemma NextIsNearest(devices: Devices, cursor: byte, kind: RequestKind, now: nat)
    ensures Nearest(Next(devices, cursor, kind, now).device, devices, cursor, kind, now, 0)
    ensures Next(devices, cursor, kind, now).device.None? <==> forall e: byte :: !Due(devices, e, kind, now)
  {
    ScanNearest(devices, cursor, kind, now, 0);
  }

  /** Asking a device other than `d` moves the cursor nearer to `d`. */
  lemma NearerStep(c: byte, e: byte, d: byte)
    requires e != d && Distance(c, e) <= Distance(c, d)
    ensures Distance((e + 1) % 256, d) == Distance(c, d) - Distance(c, e) - 1
  {
  }

  // ----- Runs -----

  datatype Event = Seen(now: nat, pgn: nat, src: byte) | Ask(now: nat, kind: RequestKind)

  /** The devices, and the round-robin cursor of each kind. */
  datatype World = World(devices: Devices, claimCursor: byte, prodCursor: byte)

  function CursorOf(w: World, kind: RequestKind): byte { if kind == Claim then w.claimCursor else w.prodCursor }

  function Step(w: World, e: Event): World {
    match e
    case Seen(now, pgn, src) => w.(devices := Noted(w.devices, pgn, src, now))
    case Ask(now, kind) =>
      var c := Next(w.devices, CursorOf(w, kind), kind, now);
      if kind == Claim then w.(devices := c.devices, claimCursor := c.cursor)
      else w.(devices := c.devices, prodCursor := c.cursor)
  }

  /** The device that an event asks, if any. */
  function Target(w: World, e: Event): Option<byte> {
    match e
    case Seen(_, _, _) => None
    case Ask(now, kind) => Next(w.devices, CursorOf(w, kind), kind, now).device
  }

  predicate Asks(w: World, e: Event, kind: RequestKind, d: byte) {
    e.Ask? && e.kind == kind && Target(w, e) == Some(d)
  }

  /** The world before event `i` of the run. */
  function WorldAt(w: World, events: seq<Event>, i: nat): World
    requires i <= |events|
    decreases i
  {
    if i == 0 then w else WorldAt(Step(w, events[0]), events[1..], i - 1)
  }

  /** Event `i` of the run asks device `d` for `kind`. */
  predicate AsksAt(w: World, events: seq<Event>, i: nat, kind: RequestKind, d: byte)
    requires i < |events|
  {
    Asks(WorldAt(w, events, i), events[i], kind, d)
  }

  predicate Call(e: Event, kind: RequestKind) { e.Ask? && e.kind == kind }

  /** If event `i` is a call for `kind`, device `d` is due at it. */
  predicate DueAt(w: World, events: seq<Event>, i: nat, kind: RequestKind, d: byte)
    requires i < |events|
  {
    Call(events[i], kind) ==> Due(WorldAt(w, events, i).devices, d, kind, events[i].now)
  }

  ghost predicate AlwaysDue(w: World, events: seq<Event>, kind: RequestKind, d: byte) {
    forall i: nat :: i < |events| ==> DueAt(w, events, i, kind, d)
  }

  ghost predicate Served(w: World, events: seq<Event>, kind: RequestKind, d: byte) {
    exists i: nat :: i < |events| && AsksAt(w, events, i, kind, d)
  }

  /** How many calls for `kind` the run makes. */
  function Calls(events: seq<Event>, kind: RequestKind): nat {
    if events == [] then 0 else (if Call(events[0], kind) then 1 else 0) + Calls(events[1..], kind)
  }

  lemma UnservedNearer(w: World, e: Event, kind: RequestKind, d: byte)
    requires Call(e, kind) && Due(w.devices, d, kind, e.now) && !Asks(w, e, kind, d)
    ensures Distance(CursorOf(Step(w, e), kind), d) < Distance(CursorOf(w, kind), d)
  {
    var c := CursorOf(w, kind);
    NextIsNearest(w.devices, c, kind, e.now);
    NearerStep(c, Target(w, e).value, d);
  }

  lemma RestDue(w: World, events: seq<Event>, kind: RequestKind, d: byte)
    requires events != [] && AlwaysDue(w, events, kind, d)
    ensures AlwaysDue(Step(w, events[0]), events[1..], kind, d)
    ensures Call(events[0], kind) ==> Due(w.devices, d, kind, events[0].now)
  {
    assert DueAt(w, events, 0, kind, d);
    forall i: nat | i < |events[1..]|
      ensures DueAt(Step(w, events[0]), events[1..], i, kind, d)
    {
      assert DueAt(w, events, i + 1, kind, d);
    }
  }

  lemma ServedLater(w: World, events: seq<Event>, kind: RequestKind, d: byte)
    requires events != [] && Served(Step(w, events[0]), events[1..], kind, d)
    ensures Served(w, events, kind, d)
  {
    var i: nat :| i < |events[1..]| && AsksAt(Step(w, events[0]), events[1..], i, kind, d);
    assert AsksAt(w, events, i + 1, kind, d);
  }

  /** Fairness: a device that is due at every call is asked within as many calls as it is round
      from the cursor, and one, whatever else happens between them. */
  lemma {:induction false} AskedInTime(w: World, events: seq<Event>, kind: RequestKind, d: byte)
    requires AlwaysDue(w, events, kind, d)
    requires Calls(events, kind) >= Distance(CursorOf(w, kind), d) + 1
    ensures Served(w, events, kind, d)
    decreases |events|
  {
    var e := events[0];
    RestDue(w, events, kind, d);
    if Asks(w, e, kind, d) {
      assert AsksAt(w, events, 0, kind, d);
    } else {
      if Call(e, kind) {
        UnservedNearer(w, e, kind, d);
      }
      CursorKept(w, e, kind);
      AskedInTime(Step(w, e), events[1..], kind, d);
      ServedLater(w, events, kind, d);
    }
  }

  /** Only calls for a kind move its cursor. */
  lemma CursorKept(w: World, e: Event, kind: RequestKind)
    ensures !Call(e, kind) ==> CursorOf(Step(w, e), kind) == CursorOf(w, kind)
  {
  }

  // ----- Spacing -----

  /** The clock does not go back, from `since` on. */
  predicate Monotone(events: seq<Event>, since: nat) {
    events != [] ==> events[0].now >= since && Monotone(events[1..], events[0].now)
  }

  /** Device `d` answered, or was asked, for `kind` at `t` or later. */
  predicate Fresh(devices: Devices, kind: RequestKind, d: byte, t: nat) {
    d in devices &&
    var s := StampsOf(devices[d], kind);
    (s.received.Some? && s.received.value >= t) || (s.requested.Some? && s.requested.value >= t)
  }

  lemma StepStaysFresh(w: World, e: Event, kind: RequestKind, d: byte, t: nat)
    requires Fresh(w.devices, kind, d, t) && e.now >= t
    ensures Fresh(Step(w, e).devices, kind, d, t)
  {
  }

  lemma AskedNotFresh(w: World, e: Event, kind: RequestKind, d: byte, t: nat)
    requires Fresh(w.devices, kind, d, t) && Asks(w, e, kind, d) && e.now >= t
    ensures e.now >= t + DEVICE_REQUEST_INTERVAL
  {
    NextIsNearest(w.devices, CursorOf(w, kind), kind, e.now);
  }

  /** After an answer or a request at `t`, the device is left alone for the whole interval. */
  lemma {:induction false} FreshIsSpared(w: World, events: seq<Event>, kind: RequestKind, d: byte, t: nat, since: nat, i: nat)
    requires Fresh(w.devices, kind, d, t) && Monotone(events, since) && since >= t
    requires i < |events| && AsksAt(w, events, i, kind, d)
    ensures events[i].now >= t + DEVICE_REQUEST_INTERVAL
    decreases i
  {
    var e := events[0];
    if i == 0 {
      AskedNotFresh(w, e, kind, d, t);
    } else {
      StepStaysFresh(w, e, kind, d, t);
      FreshIsSpared(Step(w, e), events[1..], kind, d, t, e.now, i - 1);
    }
  }

  lemma AskedIsFresh(w: World, e: Event, kind: RequestKind, d: byte)
    requires Asks(w, e, kind, d)
    ensures Fresh(Step(w, e).devices, kind, d, e.now)
  {
  }

  /** Spacing: in every run with a clock that does not go back, two requests of one kind to one
      device are at least the interval apart. */
  lemma {:induction false} RequestsAreSpaced(w: World, events: seq<Event>, since: nat, kind: RequestKind, d: byte, i: nat, j: nat)
    requires Monotone(events, since) && i < j < |events|
    requires AsksAt(w, events, i, kind, d) && AsksAt(w, events, j, kind, d)
    ensures events[j].now >= events[i].now + DEVICE_REQUEST_INTERVAL
    decreases i
  {
    var e := events[0];
    if i == 0 {
      AskedIsFresh(w, e, kind, d);
      FreshIsSpared(Step(w, e), events[1..], kind, d, e.now, e.now, j - 1);
    } else {
      RequestsAreSpaced(Step(w, e), events[1..], e.now, kind, d, i - 1, j - 1);
    }
  }

  /** What just arrived is not asked for: no request within the interval of an answer. */
  lemma AnswersSpareRequests(w: World, events: seq<Event>, since: nat, kind: RequestKind, d: byte, j: nat)
    requires Monotone(events, since) && 0 < j < |events|
    requires events[0].Seen? && events[0].src == d
    requires events[0].pgn == if kind == Claim then PGN_CLAIM else PGN_PROD_INFO
    requires AsksAt(w, events, j, kind, d)
    ensures events[j].now >= events[0].now + DEVICE_REQUEST_INTERVAL
  {
    var e := events[0];
    FreshIsSpared(Step(w, e), events[1..], kind, d, e.now, e.now, j - 1);
  }
}
