/**
 The pin table: which buffers handed to the host are kept alive.
 */
module Pins {
  import opened Bytes
  import opened Abi

  type Ptr = nat

  /** A reply payload has a 32-bit length. */
  type Payload = bs: seq<byte> | |bs| < 0x1_0000_0000

  /**
   What happens during one call, as the host and the handler decide it: the handler
   reads its arguments and calls out; while it waits, the host may call back in, and
   then answers with a reply buffer or with none.
   */
  datatype Work = Work(name: seq<byte>, args: seq<byte>, acts: seq<Act>)

  datatype Act =
    | ReadArgs
    | MeshCall(calls: seq<Work>, answer: Option<Payload>)

  /** Where the allocator puts a buffer that must not overlap the live ones: anywhere free but at zero. */
  type Allocator = set<Ptr> -> Ptr

  ghost predicate Allocates(a: Allocator) {
    forall used: set<Ptr> :: a(used) !in used && a(used) != 0
  }

  // ---------------------------------------------------------------------------
  // Events
  // ---------------------------------------------------------------------------

  /** The buffers of an invocation, with what the host wrote there. */
  datatype Frame = Frame(namePtr: Ptr, argPtr: Ptr, name: seq<byte>, args: seq<byte>)

  datatype Event =
    | Alloc(p: Ptr, len: int)              // `crab_alloc` hands a buffer out
    | Write(p: Ptr, bs: seq<byte>)         // the host writes into a buffer
    | Enter(frame: Frame)                  // `crab_invoke` begins
    | Reply(p: Ptr, payload: seq<byte>)    // a mesh call of the running handler is answered
    | Leave(frame: Frame)                  // the running handler has finished

  /** What an event does to the table. AssemblyScript releases arguments on entry, the others on return. */
  function NextPins(lane: Lane, pinned: map<Ptr, seq<byte>>, e: Event): map<Ptr, seq<byte>> {
    match e
    case Alloc(p, len) => pinned[p := seq(if len < 1 then 1 else len, _ => 0)]
    case Write(p, bs) =>
      if p in pinned && |bs| <= |pinned[p]| then pinned[p := bs + pinned[p][|bs|..]] else pinned
    case Enter(f) => if lane.As? then pinned - {f.namePtr} - {f.argPtr} else pinned
    case Reply(p, _) => pinned - {p}
    case Leave(f) => if lane.As? then pinned else pinned - {f.namePtr} - {f.argPtr}
  }

  class Runtime {
    const lane: Lane
    const alloc: Allocator
    var pinned: map<Ptr, seq<byte>>

    constructor (lane: Lane, alloc: Allocator)
      requires !lane.Rust?
      ensures this.lane == lane && this.alloc == alloc && pinned == map[]
    {
      this.lane := lane;
      this.alloc := alloc;
      pinned := map[];
    }

    /** `crab_alloc`: a buffer of at least one byte, kept until it is released. */
    method CrabAlloc(len: int) returns (p: Ptr)
      requires Allocates(alloc)
      modifies this`pinned
      ensures p !in old(pinned) && p != 0
      ensures pinned == NextPins(lane, old(pinned), Alloc(p, len))
    {
      p := alloc(pinned.Keys);
      pinned := pinned[p := seq(if len < 1 then 1 else len, _ => 0)];
    }

    method Unpin(p: Ptr)
      modifies this`pinned
      ensures pinned == old(pinned) - {p}
    {
      pinned := pinned - {p};
    }

    /** A buffer is only ever read, or written by the host, while it is pinned. */
    method Read(p: Ptr, n: nat) returns (bs: seq<byte>)
      requires p in pinned && n <= |pinned[p]|
      ensures bs == pinned[p][..n]
    {
      bs := pinned[p][..n];
    }

    method HostWrite(p: Ptr, bs: seq<byte>)
      requires p in pinned && |bs| <= |pinned[p]|
      modifies this`pinned
      ensures pinned == NextPins(lane, old(pinned), Write(p, bs))
    {
      pinned := pinned[p := bs + pinned[p][|bs|..]];
    }

    /** The host places a name and arguments and invokes: the table is as before. */
    method HostCall(w: Work)
      requires Allocates(alloc)
      modifies this`pinned
      ensures pinned == old(pinned)
      decreases w, 1
    {
      var namePtr := CrabAlloc(|w.name|);
      HostWrite(namePtr, w.name);
      var argPtr := CrabAlloc(|w.args|);
      HostWrite(argPtr, w.args);
      CrabInvoke(w, namePtr, argPtr);
      assert old(pinned) == pinned;
    }

    /** AssemblyScript copies the arguments and releases both buffers at once. */
    method EnterInvoke(f: Frame) returns (copied: seq<byte>)
      requires f.namePtr in pinned && f.name <= pinned[f.namePtr]
      requires f.argPtr in pinned && f.args <= pinned[f.argPtr]
      modifies this`pinned
      ensures pinned == NextPins(lane, old(pinned), Enter(f))
      ensures lane.As? ==> copied == f.args
    {
      var name := Read(f.namePtr, |f.name|);
      assert name == f.name;
      if lane.As? {
        copied := Read(f.argPtr, |f.args|);
        Unpin(f.namePtr);
        Unpin(f.argPtr);
      } else {
        copied := [];
      }
    }

    /** Go and C++ release both buffers when the handler has finished. */
    method LeaveInvoke(f: Frame)
      modifies this`pinned
      ensures pinned == NextPins(lane, old(pinned), Leave(f))
    {
      if !lane.As? {
        Unpin(f.namePtr);
        Unpin(f.argPtr);
      }
    }

    /** Go and C++ read the arguments in place. */
    method ReadArguments(f: Frame, copied: seq<byte>) returns (args: seq<byte>)
      requires lane.As? ==> copied == f.args
      requires !lane.As? ==> f.argPtr in pinned && f.args <= pinned[f.argPtr]
      ensures args == f.args
    {
      args := copied;
      if !lane.As? {
        args := Read(f.argPtr, |f.args|);
      }
    }

    method CrabInvoke(w: Work, namePtr: Ptr, argPtr: Ptr)
      requires Allocates(alloc)
      requires namePtr in pinned && w.name <= pinned[namePtr]
      requires argPtr in pinned && w.args <= pinned[argPtr]
      modifies this`pinned
      ensures pinned == old(pinned) - {namePtr} - {argPtr}
      decreases w, 0
    {
      var f := Frame(namePtr, argPtr, w.name, w.args);
      var copied := EnterInvoke(f);
      for i := 0 to |w.acts|
        invariant pinned == NextPins(lane, old(pinned), Enter(f))
      {
        match w.acts[i]
        case ReadArgs => var args := ReadArguments(f, copied);
        case MeshCall(_, _) => var payload := CallOut(w.acts[i]);
      }
      LeaveInvoke(f);
    }

    /** The reply is copied out of its buffer, then the buffer is released. */
    method TakeReply(p: Ptr, expected: Payload) returns (payload: seq<byte>)
      requires p in pinned && Lenbuf(expected) <= pinned[p]
      modifies this`pinned
      ensures payload == expected
      ensures pinned == NextPins(lane, old(pinned), Reply(p, expected))
    {
      var bytes := pinned[p];
      LenbufRoundTrip(expected, bytes[|Lenbuf(expected)|..]);
      assert Lenbuf(expected) + bytes[|Lenbuf(expected)|..] == bytes;
      payload := bytes[4..4 + LenOf(bytes)];
      Unpin(p);
    }

    /** A mesh call: the reply is copied out of its buffer, then the buffer is released. */
    method CallOut(act: Act) returns (payload: seq<byte>)
      requires Allocates(alloc) && act.MeshCall?
      modifies this`pinned
      ensures pinned == old(pinned)
      ensures payload == if act.answer.Some? then act.answer.value else []
      decreases act, 0
    {
      for i := 0 to |act.calls|
        invariant pinned == old(pinned)
      {
        HostCall(act.calls[i]);
      }
      if act.answer.None? {
        return [];
      }
      var reply := Lenbuf(act.answer.value);
      var p := CrabAlloc(|reply|);
      HostWrite(p, reply);
      payload := TakeReply(p, act.answer.value);
      assert pinned == old(pinned);
    }
  }

  // ---------------------------------------------------------------------------
  // Runs of events
  // ---------------------------------------------------------------------------

  /** The pin table, and the invocations in progress, the running one last. */
  datatype State = State(pinned: map<Ptr, seq<byte>>, frames: seq<Frame>)

  predicate Holds(f: Frame, p: Ptr) {
    p == f.namePtr || p == f.argPtr
  }

  /** The buffer belongs to an invocation that still reads it. */
  predicate Lent(lane: Lane, s: State, p: Ptr) {
    !lane.As? && exists i :: 0 <= i < |s.frames| && Holds(s.frames[i], p)
  }

  /**
   What a host may do, in any order and as often as it likes: it uses buffers it was handed
   out, gives every buffer away once, and may enter whether or not a handler is running.
   */
  predicate Enabled(lane: Lane, s: State, e: Event) {
    match e
    case Alloc(p, _) => p !in s.pinned && p != 0
    case Write(p, bs) => p in s.pinned && |bs| <= |s.pinned[p]| && !Lent(lane, s, p)
    case Enter(f) =>
      && f.namePtr != f.argPtr && !Lent(lane, s, f.namePtr) && !Lent(lane, s, f.argPtr)
      && f.namePtr in s.pinned && f.name <= s.pinned[f.namePtr]
      && f.argPtr in s.pinned && f.args <= s.pinned[f.argPtr]
    case Reply(p, payload) =>
      && s.frames != [] && p in s.pinned && !Lent(lane, s, p)
      && |payload| < 0x1_0000_0000 && Lenbuf(payload) <= s.pinned[p]
    case Leave(f) => s.frames != [] && s.frames[|s.frames| - 1] == f
  }

  function Next(lane: Lane, s: State, e: Event): State
    requires Enabled(lane, s, e)
  {
    State(NextPins(lane, s.pinned, e),
          match e
          case Enter(f) => s.frames + [f]
          case Leave(_) => s.frames[..|s.frames| - 1]
          case _ => s.frames)
  }

  ghost predicate IsRun(lane: Lane, states: seq<State>, events: seq<Event>) {
    && |states| == |events| + 1
    && states[0] == State(map[], [])
    && forall i :: 0 <= i < |events| ==>
         Enabled(lane, states[i], events[i]) && states[i + 1] == Next(lane, states[i], events[i])
  }

  predicate HandsOut(e: Event, p: Ptr) {
    e.Alloc? && e.p == p
  }

  /** The guest is done with the buffer: a reply that was taken, arguments copied or no longer needed. */
  predicate GivesBack(lane: Lane, e: Event, p: Ptr) {
    match e
    case Reply(q, _) => p == q
    case Enter(f) => lane.As? && Holds(f, p)
    case Leave(f) => !lane.As? && Holds(f, p)
    case _ => false
  }

  /** The buffer was handed out and not given back since. */
  ghost predicate Outstanding(lane: Lane, events: seq<Event>, p: Ptr) {
    exists i :: 0 <= i < |events| && HandsOut(events[i], p) &&
                forall j :: i < j < |events| ==> !GivesBack(lane, events[j], p)
  }

  lemma OutstandingStep(lane: Lane, events: seq<Event>, e: Event, p: Ptr)
    ensures Outstanding(lane, events + [e], p) <==>
            HandsOut(e, p) || (Outstanding(lane, events, p) && !GivesBack(lane, e, p))
  {
    var more := events + [e];
    if HandsOut(e, p) {
      assert HandsOut(more[|events|], p);
    }
    if Outstanding(lane, events, p) && !GivesBack(lane, e, p) {
      var i :| 0 <= i < |events| && HandsOut(events[i], p) &&
               forall j :: i < j < |events| ==> !GivesBack(lane, events[j], p);
      assert HandsOut(more[i], p);
      assert forall j :: i < j < |more| ==> more[j] == if j < |events| then events[j] else e;
    }
    if Outstanding(lane, more, p) && !HandsOut(e, p) {
      var i :| 0 <= i < |more| && HandsOut(more[i], p) &&
               forall j :: i < j < |more| ==> !GivesBack(lane, more[j], p);
      assert HandsOut(events[i], p) && !GivesBack(lane, more[|events|], p);
      assert forall j :: i < j < |events| ==> events[j] == more[j];
    }
  }

  /** At every moment of every run the table holds exactly the buffers handed out and not given back. */
  lemma {:induction false} PinnedAreOutstanding(lane: Lane, states: seq<State>, events: seq<Event>, i: nat, p: Ptr)
    requires IsRun(lane, states, events) && i < |states|
    ensures p in states[i].pinned <==> Outstanding(lane, events[..i], p)
  {
    if i > 0 {
      PinnedAreOutstanding(lane, states, events, i - 1, p);
      assert Enabled(lane, states[i - 1], events[i - 1]);
      assert states[i - 1 + 1] == Next(lane, states[i - 1], events[i - 1]);
      assert events[..i] == events[..i - 1] + [events[i - 1]];
      OutstandingStep(lane, events[..i - 1], events[i - 1], p);
    }
  }

  /** Buffers in use are pinned with what the host wrote, and no two invocations share one. */
  ghost predicate InUse(s: State) {
    && (forall i :: 0 <= i < |s.frames| ==> Intact(s.pinned, s.frames[i]))
    && (forall i, j, p :: 0 <= i < j < |s.frames| && Holds(s.frames[i], p) ==> !Holds(s.frames[j], p))
  }

  ghost predicate Intact(pinned: map<Ptr, seq<byte>>, f: Frame) {
    && f.namePtr in pinned && f.name <= pinned[f.namePtr]
    && f.argPtr in pinned && f.args <= pinned[f.argPtr]
  }

  lemma StepKeepsInUse(lane: Lane, s: State, e: Event)
    requires !lane.As? && InUse(s) && Enabled(lane, s, e)
    ensures InUse(Next(lane, s, e))
  {
    var t := Next(lane, s, e);
    forall i | 0 <= i < |t.frames| ensures Intact(t.pinned, t.frames[i]) {
      if i < |s.frames| {
        assert t.frames[i] == s.frames[i] && Intact(s.pinned, s.frames[i]);
        assert Holds(s.frames[i], s.frames[i].namePtr) && Holds(s.frames[i], s.frames[i].argPtr);
        assert e.Leave? ==> s.frames[|s.frames| - 1] == e.frame;
      }
    }
    forall i, j, p | 0 <= i < j < |t.frames| && Holds(t.frames[i], p) ensures !Holds(t.frames[j], p) {
      assert t.frames[i] == s.frames[i] && Holds(s.frames[i], p);
      assert j < |s.frames| ==> t.frames[j] == s.frames[j];
    }
  }

  /**
   At every moment of every run the arguments of every invocation in progress can still be
   read: Go and C++ find them in their buffers as the host wrote them (AssemblyScript has
   copied them), however many other calls came and went in between.
   */
  lemma {:induction false} ArgumentsStay(lane: Lane, states: seq<State>, events: seq<Event>, i: nat)
    requires !lane.As? && IsRun(lane, states, events) && i < |states|
    ensures InUse(states[i])
  {
    if i > 0 {
      ArgumentsStay(lane, states, events, i - 1);
      assert Enabled(lane, states[i - 1], events[i - 1]);
      assert states[i - 1 + 1] == Next(lane, states[i - 1], events[i - 1]);
      StepKeepsInUse(lane, states[i - 1], events[i - 1]);
    }
  }

  /** Two moments between which everything handed out is given back, and nothing else, have the same pins. */
  lemma BalancedRun(lane: Lane, states: seq<State>, events: seq<Event>, i: nat, k: nat)
    requires IsRun(lane, states, events) && i <= k < |states|
    requires forall p :: Outstanding(lane, events[..i], p) <==> Outstanding(lane, events[..k], p)
    ensures states[i].pinned.Keys == states[k].pinned.Keys
  {
    forall p: Ptr ensures p in states[i].pinned.Keys <==> p in states[k].pinned.Keys {
      PinnedAreOutstanding(lane, states, events, i, p);
      PinnedAreOutstanding(lane, states, events, k, p);
    }
  }
}
