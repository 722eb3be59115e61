/** The ISO 11783-5 address-claim state machine of one node. */
module AddressClaim {
  import opened Wire

  /** Highest assignable source address. */
  const ADDR_MAX: byte := 253
  /** How long a claim must go uncontested. */
  const CLAIM_TIMEOUT_MS: nat := 250
  /** How long to listen before picking an address. */
  const SCAN_TIMEOUT_MS: nat := 1000

  const PGN_ISO_REQUEST: u32 := 59904
  const PGN_ISO_ADDRESS_CLAIM: u32 := 60928

  datatype ClaimState = Disabled | Scanning | Pending | Claimed | Failed

  /** The value of one claimer: the fields of the class below at one moment. */
  datatype Node = Node(
    name: u64,
    address: byte,
    preferred: byte,
    state: ClaimState,
    deadline: nat,
    arbitrary: bool,
    used: set<byte>)

  function NewNode(name: u64, preferred: byte, arbitrary: bool): Node {
    Node(name, preferred, preferred, Pending, 0, arbitrary, {})
  }

  function PassiveNode(name: u64): Node {
    NewNode(name, 0, true).(state := Disabled)
  }

  function ClaimFrame(n: Node): RawFrame {
    RawFrame(None, 6, PGN_ISO_ADDRESS_CLAIM, n.address, ADDR_GLOBAL, LeBytes(n.name, 8))
  }

  function RequestFrame(src: byte, dst: byte, pgn: u32): RawFrame {
    RawFrame(None, 6, PGN_ISO_REQUEST, src, dst, LeBytes(pgn, 3))
  }

  /** The lowest assignable address at or above `a` that is not in `used`. */
  function LowestFree(used: set<byte>, a: nat): (r: Option<byte>)
    ensures r.Some? ==> a <= r.value <= ADDR_MAX && r.value !in used
    ensures r.Some? ==> forall b: byte :: a <= b < r.value ==> b in used
    ensures r.None? ==> forall b: byte :: a <= b <= ADDR_MAX ==> b in used
    decreases 256 - a
  {
    if a > ADDR_MAX then None
    else if a !in used then Some(a)
    else LowestFree(used, a + 1)
  }

  /** A node that has just broadcast a claim for `address`. */
  function Announce(n: Node, now: nat, address: byte): Node {
    n.(address := address, state := Pending, deadline := now + CLAIM_TIMEOUT_MS)
  }

  /** A node with nowhere to go. */
  function GiveUp(n: Node): Node {
    n.(address := ADDR_NULL, state := Failed)
  }

  function Started(n: Node, now: nat): (Node, seq<RawFrame>) {
    if n.state == Disabled then (n, [])
    else (n.(state := Scanning, deadline := now + SCAN_TIMEOUT_MS),
          [RequestFrame(ADDR_NULL, ADDR_GLOBAL, PGN_ISO_ADDRESS_CLAIM)])
  }

  /** Does a claim by `theirName` for `src` contest the address of `n`? */
  predicate Contests(n: Node, src: byte, theirName: u64) {
    && src <= ADDR_MAX
    && n.state != Disabled && n.state != Scanning
    && theirName != n.name
    && src == n.address
  }

  function Heard(n: Node, now: nat, src: byte, theirName: u64): (Node, seq<RawFrame>) {
    if src > ADDR_MAX || n.state == Disabled || theirName == n.name then (n, [])
    else if !Contests(n, src, theirName) then (n.(used := n.used + {src}), [])
    else if n.name < theirName then
      var n' := Announce(n, now, n.address);
      (n', [ClaimFrame(n')])
    else
      var learned := n.(used := n.used + {src});
      var free := LowestFree(learned.used, 0);
      var n' := if n.arbitrary && free.Some? then Announce(learned, now, free.value) else GiveUp(learned);
      (n', [ClaimFrame(n')])
  }

  function Begun(n: Node, now: nat): (Node, seq<RawFrame>) {
    var free := LowestFree(n.used, 0);
    var n' :=
      if n.preferred !in n.used then Announce(n, now, n.preferred)
      else if free.Some? then Announce(n, now, free.value)
      else GiveUp(n);
    (n', [ClaimFrame(n')])
  }

  function Ticked(n: Node, now: nat): (Node, seq<RawFrame>) {
    if n.state == Scanning && now >= n.deadline then Begun(n, now)
    else if n.state == Pending && now >= n.deadline then (n.(state := Claimed), [])
    else (n, [])
  }

  function Answered(n: Node): Option<RawFrame> {
    if n.state == Claimed || n.state == Pending then Some(ClaimFrame(n)) else None
  }

  /** The claimer itself. Every method does to the fields what the function named
      in its postcondition does to their value. */
  class Claimer {
    const name: u64
    var address: byte
    const preferred: byte
    var state: ClaimState
    var deadline: nat
    const arbitrary: bool
    const used: array<bool>

    ghost predicate Valid() { used.Length == 256 }

    ghost function UsedSet(): set<byte>
      reads used
      requires Valid()
    {
      set a: byte | used[a]
    }

    ghost function View(): Node
      reads this, used
      requires Valid()
    {
      Node(name, address, preferred, state, deadline, arbitrary, UsedSet())
    }

    constructor (name: u64, preferred: byte, arbitrary: bool)
      ensures Valid() && fresh(used)
      ensures View() == NewNode(name, preferred, arbitrary)
    {
      this.name := name;
      this.address := preferred;
      this.preferred := preferred;
      this.state := Pending;
      this.deadline := 0;
      this.arbitrary := arbitrary;
      this.used := new bool[256](_ => false);
    }

    constructor Passive(name: u64)
      ensures Valid() && fresh(used)
      ensures View() == PassiveNode(name)
    {
      this.name := name;
      this.address := 0;
      this.preferred := 0;
      this.state := Disabled;
      this.deadline := 0;
      this.arbitrary := true;
      this.used := new bool[256](_ => false);
    }

    /** The claimed source address, once one is owned. */
    method Address() returns (a: Option<byte>)
      requires Valid()
      ensures a.Some? <==> state == Claimed
      ensures a.Some? ==> a.value == address
    {
      a := if state == Claimed then Some(address) else None;
    }

    method Start(now: nat) returns (frames: seq<RawFrame>)
      requires Valid()
      modifies this
      ensures (View(), frames) == Started(old(View()), now)
    {
      if state == Disabled {
        return [];
      }
      state := Scanning;
      deadline := now + SCAN_TIMEOUT_MS;
      return [RequestFrame(ADDR_NULL, ADDR_GLOBAL, PGN_ISO_ADDRESS_CLAIM)];
    }

    method OnAddressClaim(now: nat, src: byte, theirName: u64) returns (frames: seq<RawFrame>)
      requires Valid()
      modifies this, used
      ensures (View(), frames) == Heard(old(View()), now, src, theirName)
    {
      if src > ADDR_MAX || state == Disabled {
        return [];
      }
      if theirName == name {
        return [];
      }
      ghost var before := UsedSet();
      if state == Scanning || src != address {
        used[src] := true;
        assert UsedSet() == before + {src};
        return [];
      }
      if name < theirName {
        state := Pending;
        deadline := now + CLAIM_TIMEOUT_MS;
        var frame := OwnClaim();
        return [frame];
      }
      used[src] := true;
      assert UsedSet() == before + {src};
      if arbitrary {
        var next := PickFree();
        if next.Some? {
          address := next.value;
          state := Pending;
          deadline := now + CLAIM_TIMEOUT_MS;
          assert UsedSet() == before + {src};
          var frame := OwnClaim();
          return [frame];
        }
      }
      address := ADDR_NULL;
      state := Failed;
      assert UsedSet() == before + {src};
      var frame := OwnClaim();
      assert View() == Heard(old(View()), now, src, theirName).0;
      return [frame];
    }

    method RespondToClaimRequest() returns (frame: Option<RawFrame>)
      requires Valid()
      ensures frame == Answered(View())
    {
      if state == Claimed || state == Pending {
        var f := OwnClaim();
        return Some(f);
      }
      return None;
    }

    method Tick(now: nat) returns (frames: seq<RawFrame>)
      requires Valid()
      modifies this
      ensures (View(), frames) == Ticked(old(View()), now)
    {
      if state == Scanning && now >= deadline {
        frames := BeginClaim(now);
      } else if state == Pending && now >= deadline {
        state := Claimed;
        frames := [];
      } else {
        frames := [];
      }
    }

    method BeginClaim(now: nat) returns (frames: seq<RawFrame>)
      requires Valid()
      modifies this
      ensures (View(), frames) == Begun(old(View()), now)
    {
      if used[preferred] {
        var next := PickFree();
        match next {
          case Some(a) => address := a;
          case None =>
            address := ADDR_NULL;
            state := Failed;
            var frame := OwnClaim();
            return [frame];
        }
      } else {
        address := preferred;
      }
      state := Pending;
      deadline := now + CLAIM_TIMEOUT_MS;
      var frame := OwnClaim();
      return [frame];
    }

    method PickFree() returns (free: Option<byte>)
      requires Valid()
      ensures free == LowestFree(UsedSet(), 0)
    {
      var a := 0;
      while a <= ADDR_MAX
        invariant 0 <= a <= 254
        invariant LowestFree(UsedSet(), 0) == LowestFree(UsedSet(), a)
      {
        if !used[a] {
          return Some(a);
        }
        a := a + 1;
      }
      return None;
    }

    method OwnClaim() returns (frame: RawFrame)
      requires Valid()
      ensures frame == ClaimFrame(View())
    {
      frame := RawFrame(None, 6, PGN_ISO_ADDRESS_CLAIM, address, ADDR_GLOBAL, LeBytes(name, 8));
    }
  }
}
