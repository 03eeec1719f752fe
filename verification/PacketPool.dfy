/**
 IPacketFactory's memory pool, used by any number of threads: each Pop, allocation, construction and
 Push is one atomic step. Blocks are numbered addresses.
 */
module PacketPools {

  datatype State = State(
    pool: seq<nat>,        // the stack of free blocks
    awaiting: nat,         // threads whose Pop found nothing and that have yet to allocate
    building: set<nat>,    // blocks handed out, constructor running
    live: set<nat>,        // blocks holding a packet
    allocations: nat       // Pops that found nothing, that is, blocks taken from the heap
  ) {
    /** A claim runs from Pop to Push. */
    function Claims(): nat {
      awaiting + |building| + |live|
    }

    predicate Inv() {
      && (forall i, j :: 0 <= i < j < |pool| ==> pool[i] != pool[j])
      && (forall i :: 0 <= i < |pool| ==> pool[i] !in building && pool[i] !in live)
      && building !! live
      && allocations == |pool| + Claims()
    }
  }

  const EMPTY_POOL: State := State([], 0, {}, {}, 0)

  datatype Event =
    | Pop
    | Allocate(block: nat)     // operator new returns a block that nobody holds
    | Construct(block: nat)    // the constructor returns
    | Throw(block: nat)        // the constructor throws: the block goes back to the pool
    | Destroy(block: nat)      // the last shared_ptr goes away

  predicate Enabled(s: State, e: Event) {
    match e
    case Pop => true
    case Allocate(b) => s.awaiting > 0 && b !in s.pool && b !in s.building && b !in s.live
    case Construct(b) => b in s.building
    case Throw(b) => b in s.building
    case Destroy(b) => b in s.live
  }

  function Step(s: State, e: Event): State {
    if !Enabled(s, e) then s
    else match e
      case Pop =>
        if s.pool == [] then s.(awaiting := s.awaiting + 1, allocations := s.allocations + 1)
        else s.(pool := s.pool[..|s.pool| - 1], building := s.building + {s.pool[|s.pool| - 1]})
      case Allocate(b) => s.(awaiting := s.awaiting - 1, building := s.building + {b})
      case Construct(b) => s.(building := s.building - {b}, live := s.live + {b})
      case Throw(b) => s.(building := s.building - {b}, pool := s.pool + [b])
      case Destroy(b) => s.(live := s.live - {b}, pool := s.pool + [b])
  }

  function Run(events: seq<Event>): State
    decreases |events|
  {
    if events == [] then EMPTY_POOL
    else Step(Run(events[..|events| - 1]), events[|events| - 1])
  }

  /** The largest number of simultaneous claims at any moment of the run. */
  function Peak(events: seq<Event>): nat
    decreases |events|
  {
    var now := Run(events).Claims();
    if events == [] then now
    else
      var before := Peak(events[..|events| - 1]);
      if before > now then before else now
  }

  lemma StepInv(s: State, e: Event)
    requires s.Inv()
    ensures Step(s, e).Inv()
    ensures var s' := Step(s, e);
      s'.allocations == if s.allocations > s'.Claims() then s.allocations else s'.Claims()
  {
    if Enabled(s, e) {
      match e
      case Pop => PopInv(s);
      case _ =>
    }
  }

  lemma PopInv(s: State)
    requires s.Inv()
    ensures Step(s, Pop).Inv()
  {
  }

  /**
   Every interleaving of creations, throwing constructors and destructions: no block is pooled twice,
   or pooled while handed out, or handed out twice; and the blocks ever allocated are exactly those
   pooled and claimed, which is exactly the peak number of simultaneous claims.
   */
  lemma {:induction false} PoolExact(events: seq<Event>)
    ensures Run(events).Inv()
    ensures Run(events).allocations == Peak(events)
    decreases |events|
  {
    if events == [] {
      assert EMPTY_POOL.Inv();
    } else {
      hide Step;
      var n := |events| - 1;
      PoolExact(events[..n]);
      StepInv(Run(events[..n]), events[n]);
    }
  }

  /** A packet released and created again with nothing in between gets the same block, and the heap is not asked. */
  lemma Reuse(events: seq<Event>, b: nat)
    requires b in Run(events).live
    ensures var s := Step(Step(Run(events), Destroy(b)), Pop);
      b in s.building && s.pool == Run(events).pool && s.allocations == Run(events).allocations
  {
  }

  /** A throwing constructor costs no memory: the block it was given can be popped again. */
  lemma ThrowReturnsBlock(events: seq<Event>, b: nat)
    requires b in Run(events).building
    ensures var s := Step(Run(events), Throw(b));
      b in s.pool && b !in s.building && s.Claims() == Run(events).Claims() - 1 && s.allocations == Run(events).allocations
  {
    PoolExact(events);
  }

  // ----- the object -----

  datatype Popped = Null | Block(address: nat)

  class PacketPool {
    var pool: seq<nat>

    constructor ()
      ensures pool == []
    {
      pool := [];
    }

    method Pop() returns (r: Popped)
      modifies this
      ensures r == if old(pool) == [] then Null else Block(old(pool)[|old(pool)| - 1])
      ensures pool == if old(pool) == [] then [] else old(pool)[..|old(pool)| - 1]
    {
      if |pool| == 0 {
        return Null;
      }
      r := Block(pool[|pool| - 1]);
      pool := pool[..|pool| - 1];
    }

    method Push(address: nat)
      modifies this
      ensures pool == old(pool) + [address]
    {
      pool := pool + [address];
    }
  }

  /**
   CreatePacket on the pool of state s, in which other threads may be anywhere in their own calls: the
   run of Pop, Allocate if the pool was empty, and Construct or Throw. `heapBlock` is what operator new
   would return.
   */
  method CreatePacket(pool: PacketPool, heapBlock: nat, throws: bool, ghost s: State)
    returns (r: Popped, ghost events: seq<Event>)
    requires s.Inv() && s.pool == pool.pool
    requires heapBlock !in s.pool && heapBlock !in s.building && heapBlock !in s.live
    modifies pool
    ensures Steps(s, events).Inv() && Steps(s, events).pool == pool.pool
    ensures Steps(s, events).awaiting == s.awaiting && Steps(s, events).building == s.building
    ensures Steps(s, events).allocations == s.allocations + (if old(pool.pool) == [] then 1 else 0)
    ensures throws ==> r == Null && Steps(s, events).live == s.live
    ensures !throws ==> r.Block? && r.address !in s.live && Steps(s, events).live == s.live + {r.address}
  {
    var raw := pool.Pop();
    var block := if raw.Null? then heapBlock else raw.address;
    ghost var last := if throws then Throw(block) else Construct(block);
    events := [Event.Pop] + (if raw.Null? then [Allocate(block)] + [last] else [last]);
    CreateSteps(s, block, last, events);
    hide State.Inv, Steps, Step;
    if throws {
      pool.Push(block);
      r := Null;
    } else {
      r := Block(block);
    }
  }

  /** DestroyPacket: nothing for a null pointer, otherwise the block goes back on the stack. */
  method DestroyPacket(pool: PacketPool, packet: Popped, ghost s: State)
    requires s.Inv() && s.pool == pool.pool && (packet.Block? ==> packet.address in s.live)
    modifies pool
    ensures var s' := if packet.Null? then s else Step(s, Destroy(packet.address));
      s'.Inv() && s'.pool == pool.pool && s'.allocations == s.allocations
  {
    if packet.Null? {
      return;
    }
    pool.Push(packet.address);
  }

  /** The events by which one thread comes to hold a block. */
  function Take(s: State, block: nat): State {
    if s.pool == [] then Step(Step(s, Event.Pop), Allocate(block)) else Step(s, Event.Pop)
  }

  lemma TakeInv(s: State, block: nat)
    requires s.Inv()
    requires if s.pool == [] then block !in s.building && block !in s.live else block == s.pool[|s.pool| - 1]
    ensures var t := Take(s, block);
      && t.Inv() && t.awaiting == s.awaiting && t.live == s.live && block !in s.live && block !in s.building
      && t.building == s.building + {block}
      && t.allocations == s.allocations + (if s.pool == [] then 1 else 0)
      && t.pool == (if s.pool == [] then [] else s.pool[..|s.pool| - 1])
  {
    StepInv(s, Event.Pop);
    StepInv(Step(s, Event.Pop), Allocate(block));
    hide State.Inv;
  }

  /** The machine's side of CreatePacket. */
  lemma CreateSteps(s: State, block: nat, last: Event, events: seq<Event>)
    requires s.Inv() && (last == Construct(block) || last == Throw(block))
    requires if s.pool == [] then block !in s.building && block !in s.live else block == s.pool[|s.pool| - 1]
    requires events == [Event.Pop] + (if s.pool == [] then [Allocate(block)] + [last] else [last])
    ensures var s', rest := Steps(s, events), if s.pool == [] then [] else s.pool[..|s.pool| - 1];
      && s'.Inv() && s'.awaiting == s.awaiting && s'.building == s.building && block !in s.live
      && s'.allocations == s.allocations + (if s.pool == [] then 1 else 0)
      && s'.pool == (if last.Throw? then rest + [block] else rest)
      && s'.live == (if last.Throw? then s.live else s.live + {block})
  {
    var t := Take(s, block);
    TakeInv(s, block);
    StepInv(t, last);
    assert Steps(s, events) == Step(t, last) by {
      hide Step;
      StepsCons(s, Event.Pop, if s.pool == [] then [Allocate(block)] + [last] else [last]);
      StepsCons(Step(s, Event.Pop), Allocate(block), [last]);
      StepsCons(t, last, []);
      assert [last] + [] == [last];
    }
    hide Take, Steps, State.Inv;
    assert Step(t, last).building == s.building;
  }

  function Steps(s: State, events: seq<Event>): State
    decreases |events|
  {
    if events == [] then s else Steps(Step(s, events[0]), events[1..])
  }

  lemma StepsCons(s: State, e: Event, rest: seq<Event>)
    ensures Steps(s, [e] + rest) == Steps(Step(s, e), rest)
  {
    assert ([e] + rest)[1..] == rest;
  }
}
