/**
  The platform's monotonic counter (sections 7.5 and 8.5 of the UEFI Specification): a volatile low half, a high half
  kept in four CMOS bytes, and an event that moves the high half on some time after the low half is half used up.
*/
module MonotonicCounter {

  import opened PciTopology

  const TWO_31: nat := 0x8000_0000
  const TWO_32: nat := 0x1_0000_0000
  const TWO_64: nat := 0x1_0000_0000_0000_0000

  // ------------------------------------------------------------- CMOS bytes

  function OfBytes(b0: Byte, b1: Byte, b2: Byte, b3: Byte): nat {
    b0 + 0x100 * (b1 + 0x100 * (b2 + 0x100 * b3))
  }

  /** The i-th byte of a number, lowest first. */
  function ByteOf(v: nat, i: nat): Byte {
    if i == 0 then v % 0x100 else ByteOf(v / 0x100, i - 1)
  }

  lemma BytesRoundTrip(v: nat)
    requires v < TWO_32
    ensures OfBytes(ByteOf(v, 0), ByteOf(v, 1), ByteOf(v, 2), ByteOf(v, 3)) == v
  {
    hide ByteOf, OfBytes;
    FirstBytes(v);
    var q0, r0 := LowByte(v, 0x100_0000);
    var q1, r1 := LowByte(q0, 0x1_0000);
    var q2, r2 := LowByte(q1, 0x100);
    var q3, r3 := LowByte(q2, 1);
    Joined(v, q0, q1, q2, r0, r1, r2);
  }

  /** Split the lowest byte off a number below 256 times a bound. */
  lemma LowByte(v: nat, bound: nat) returns (q: nat, r: Byte)
    requires v < 0x100 * bound
    ensures q == v / 0x100 && r == v % 0x100 && v == r + 0x100 * q && q < bound
    ensures bound == 1 ==> r == v
  {
    q, r := v / 0x100, v % 0x100;
  }

  lemma Joined(v: nat, q0: nat, q1: nat, q2: Byte, r0: Byte, r1: Byte, r2: Byte)
    requires v == r0 + 0x100 * q0 && q0 == r1 + 0x100 * q1 && q1 == r2 + 0x100 * q2
    ensures OfBytes(r0, r1, r2, q2) == v
  {
  }

  lemma FirstBytes(v: nat)
    ensures ByteOf(v, 0) == v % 0x100 && ByteOf(v, 1) == v / 0x100 % 0x100
    ensures ByteOf(v, 2) == v / 0x100 / 0x100 % 0x100 && ByteOf(v, 3) == v / 0x100 / 0x100 / 0x100 % 0x100
  {
    var q := v / 0x100 / 0x100;
    assert ByteOf(q, 1) == q / 0x100 % 0x100;
    assert ByteOf(v / 0x100, 2) == ByteOf(q, 1);
  }

  // ------------------------------------------------------------- the counter as a state machine

  /**
    The stored high half, the counter, whether the event is signalled and by how many calls its handler is behind, and
    whether boot services are over.
  */
  datatype State = State(stored: nat, count: nat, signalled: bool, behind: nat, atRuntime: bool)

  datatype Event = Next | NextHigh | Handler | ExitBootServices | Reboot

  predicate Fits(s: State) {
    s.stored < TWO_32 && s.count < TWO_64
  }

  function Upper(count: nat): nat {
    count / TWO_32
  }

  /** Does adding one change bit 31? */
  predicate Toggles(count: nat) {
    count / TWO_31 % 2 != (count + 1) % TWO_64 / TWO_31 % 2
  }

  /** Move to the start of the next high half, and store it. */
  function Raised(s: State): State {
    var high := (Upper(s.count) + 1) % TWO_32;
    s.(count := high * TWO_32, stored := high)
  }

  function Booted(s: State): State {
    var high := if s.stored == TWO_32 - 1 then 0 else s.stored;
    Raised(State(s.stored, high * TWO_32, false, 0, false))
  }

  function Step(s: State, e: Event): State {
    match e
    case Next =>
      if s.atRuntime then s
      else
        s.(count := (s.count + 1) % TWO_64, signalled := s.signalled || Toggles(s.count),
           behind := if s.signalled then s.behind + 1 else 0)
    case NextHigh => Raised(s)
    case Handler => if s.signalled && !s.atRuntime then Raised(s).(signalled := false, behind := 0) else s
    case ExitBootServices => s.(atRuntime := true)
    case Reboot => Booted(s)
  }

  /** What a step returns to the caller of GetNextMonotonicCount. */
  function Output(s: State, e: Event): seq<nat> {
    if e == Next && !s.atRuntime then [s.count] else []
  }

  function Run(s: State, events: seq<Event>): State
    decreases |events|
  {
    if events == [] then s else Run(Step(s, events[0]), events[1..])
  }

  /** All the counts returned over a run. */
  function Returned(s: State, events: seq<Event>): seq<nat>
    decreases |events|
  {
    if events == [] then [] else Output(s, events[0]) + Returned(Step(s, events[0]), events[1..])
  }

  predicate StrictlyIncreasing(values: seq<nat>) {
    forall i, j | 0 <= i < j < |values| :: values[i] < values[j]
  }

  // ------------------------------------------------------------- what the steps amount to

  /** A call signals the event when it hands out the last count of a half of the low half, and at no other time. */
  lemma SignalsExactly(s: State)
    requires Fits(s) && !s.atRuntime
    ensures Step(s, Next).signalled <==> s.signalled || s.count % 0x8000_0000 == 0x7FFF_FFFF
  {
    ToggledExactly(s.count);
  }

  lemma ToggledExactly(count: nat)
    requires count < TWO_64
    ensures Toggles(count) <==> count % TWO_31 == TWO_31 - 1
  {
    var q, r := count / TWO_31, count % TWO_31;
    assert count == q * TWO_31 + r;
    if r == TWO_31 - 1 {
      assert count + 1 == (q + 1) * TWO_31;
      assert (count + 1) % TWO_64 == if q + 1 == 2 * TWO_32 then 0 else (q + 1) * TWO_31;
    } else {
      assert count + 1 < TWO_64;
      assert (count + 1) / TWO_31 == q;
    }
  }

  /** The next high half starts at the first multiple of 2^32 past the counter; it starts over when there is none. */
  lemma RaisedIsNext(s: State)
    requires Fits(s)
    ensures var t := Step(s, NextHigh);
            && t == s.(count := t.count, stored := t.stored)
            && t.count == t.stored * 0x1_0000_0000
            && if s.count < 0xFFFF_FFFF_0000_0000 then s.count < t.count <= s.count + 0x1_0000_0000 else t.count == 0
    ensures Step(s, Handler) == if s.signalled && !s.atRuntime then Step(s, NextHigh).(signalled := false, behind := 0) else s
  {
  }

  /** The calls in a run. */
  function Nexts(events: seq<Event>): nat {
    if events == [] then 0 else (if events[0] == Next then 1 else 0) + Nexts(events[1..])
  }

  /** Before the low half is half used up the handler has nothing to do, whenever it is run, and nothing is stored. */
  lemma {:induction false} FewCalls(s: State, events: seq<Event>)
    requires Fits(s) && !s.signalled && !s.atRuntime
    requires forall e :: e in events ==> e == Next || e == Handler
    requires s.count % TWO_32 + Nexts(events) < TWO_31
    ensures Returned(s, events) == Counted(s.count, Nexts(events))
    ensures var t := Run(s, events); t.count == s.count + Nexts(events) && t.stored == s.stored && !t.signalled
    decreases |events|
  {
    if events != [] {
      assert forall e :: e in events[1..] ==> e in events;
      assert events[0] in events;
      var t := Step(s, events[0]);
      if events[0] == Next {
        LowHalfCounts(s);
      }
      FewCalls(t, events[1..]);
      assert events[0] == Next ==> Counted(s.count, Nexts(events)) == [s.count] + Counted(t.count, Nexts(events[1..]));
    }
  }

  lemma LowHalfCounts(s: State)
    requires Fits(s) && !s.signalled && !s.atRuntime && s.count % TWO_32 + 1 < TWO_31
    ensures Step(s, Next) == s.(count := s.count + 1, behind := 0) && Fits(Step(s, Next))
    ensures (s.count + 1) % TWO_32 == s.count % TWO_32 + 1
  {
    var q := s.count / TWO_32;
    assert s.count + 1 == q * TWO_32 + (s.count % TWO_32 + 1);
    SignalsExactly(s);
  }

  /**
    A boot hands out the counts from the start of its high half, and leaves what is stored alone, as long as it makes
    fewer than 2^31 calls, however often the event is dispatched in between.
  */
  lemma FewCallsOfABoot(s: State, events: seq<Event>)
    requires s.stored < TWO_32 && Nexts(events) < TWO_31
    requires forall e :: e in events ==> e == Next || e == Handler
    ensures Returned(Booted(s), events) == Counted(Booted(s).stored * TWO_32, Nexts(events))
    ensures Run(Booted(s), events).stored == Booted(s).stored
    ensures !Run(Booted(s), events).signalled
  {
    BootIsTracked(s);
    FewCalls(Booted(s), events);
  }

  // ------------------------------------------------------------- when counts increase

  /** The counter's high half has not run out for this step. */
  predicate Room(s: State, e: Event) {
    match e
    case Next => s.atRuntime || s.count + 1 < TWO_64
    case NextHigh => Upper(s.count) + 1 < TWO_32
    case Handler => !s.signalled || s.atRuntime || Upper(s.count) + 1 < TWO_32
    case ExitBootServices => true
    case Reboot => s.stored + 1 < TWO_32
  }

  /** No more counts were returned than the stored high half has room for: the next boot starts past all of them. */
  predicate Covered(s: State) {
    s.count <= (s.stored + 1) * TWO_32
  }

  /** Each step has room, and each reboot comes while what was returned is covered. */
  predicate Safe(s: State, events: seq<Event>)
    decreases |events|
  {
    events == [] ||
    (Room(s, events[0]) && (events[0] == Reboot ==> Covered(s)) && Safe(Step(s, events[0]), events[1..]))
  }

  predicate HasRoom(s: State, events: seq<Event>)
    decreases |events|
  {
    events == [] || (Room(s, events[0]) && HasRoom(Step(s, events[0]), events[1..]))
  }

  lemma StepAdvances(s: State, e: Event)
    requires Fits(s) && Room(s, e) && (e == Reboot ==> Covered(s))
    ensures Fits(Step(s, e)) && s.count + |Output(s, e)| <= Step(s, e).count
  {
    assert s.count < (Upper(s.count) + 1) * TWO_32;
  }

  lemma {:induction false} SafeRunIncreases(s: State, events: seq<Event>)
    requires Fits(s) && Safe(s, events)
    ensures StrictlyIncreasing(Returned(s, events))
    ensures forall i | 0 <= i < |Returned(s, events)| :: s.count <= Returned(s, events)[i]
    decreases |events|
  {
    if events != [] {
      StepAdvances(s, events[0]);
      SafeRunIncreases(Step(s, events[0]), events[1..]);
    }
  }

  /** Within one boot counts increase however late the handler runs, as long as the high half lasts. */
  lemma {:induction false} OneBootIsSafe(s: State, events: seq<Event>)
    requires HasRoom(s, events) && Reboot !in events
    ensures Safe(s, events)
    decreases |events|
  {
    if events != [] {
      OneBootIsSafe(Step(s, events[0]), events[1..]);
    }
  }

  /** How far the counter can be past the stored high half, given how far behind the handler is. */
  predicate Tracked(s: State) {
    Fits(s) && s.stored * TWO_32 <= s.count &&
    s.count - s.stored * TWO_32 <= if s.signalled then TWO_31 + s.behind else TWO_31 - 1
  }

  /** The handler always runs before more than 2^31 calls are made after its signal. */
  predicate Prompt(s: State, events: seq<Event>)
    decreases |events|
  {
    (s.signalled ==> s.behind <= TWO_31) && (events == [] || Prompt(Step(s, events[0]), events[1..]))
  }

  lemma TrackedStays(s: State, e: Event)
    requires Tracked(s) && Room(s, e)
    ensures Tracked(Step(s, e))
  {
    if e == Next && !s.atRuntime && !s.signalled {
      var k := s.count - s.stored * TWO_32;
      assert s.count / TWO_31 == 2 * s.stored;
      if k == TWO_31 - 1 {
        assert (s.count + 1) / TWO_31 == 2 * s.stored + 1;
      }
    }
  }

  lemma {:induction false} PromptRunIsSafe(s: State, events: seq<Event>)
    requires Tracked(s) && HasRoom(s, events) && Prompt(s, events)
    ensures Safe(s, events)
    decreases |events|
  {
    if events != [] {
      TrackedStays(s, events[0]);
      PromptRunIsSafe(Step(s, events[0]), events[1..]);
    }
  }

  /** A boot starts tracked whatever CMOS held, and stores what it starts from. */
  lemma BootIsTracked(s: State)
    requires s.stored < TWO_32
    ensures Tracked(Booted(s)) && Booted(s).count == Booted(s).stored * TWO_32
    ensures Booted(s).stored == if s.stored == TWO_32 - 1 then 1 else s.stored + 1
  {
  }

  /** Over any run of boots and calls in which the handler is prompt and the high half lasts, counts increase. */
  lemma PromptRunIncreases(s: State, events: seq<Event>)
    requires s.stored < TWO_32 && HasRoom(Booted(s), events) && Prompt(Booted(s), events)
    ensures StrictlyIncreasing(Returned(Booted(s), events))
  {
    BootIsTracked(s);
    PromptRunIsSafe(Booted(s), events);
    SafeRunIncreases(Booted(s), events);
  }

  /**
    The counter moves past what a step returns, and never back, exactly when the high half has room for the step and, if
    it is a reboot, the stored high half covers what was returned.
  */
  lemma StepExact(s: State, e: Event)
    requires Tracked(s)
    ensures s.count + |Output(s, e)| <= Step(s, e).count <==> Room(s, e) && (e == Reboot ==> Covered(s))
  {
    if Room(s, e) && (e == Reboot ==> Covered(s)) {
      StepAdvances(s, e);
    } else if e == Reboot && s.stored == TWO_32 - 1 {
      RunsOut(s);
    }
  }

  /** A boot starts at or past the counter exactly when the high half is not used up and covers what was returned. */
  lemma RebootExact(s: State)
    requires Tracked(s)
    ensures Step(s, Reboot).count >= s.count <==> s.stored + 1 < TWO_32 && Covered(s)
  {
    StepExact(s, Reboot);
  }

  /** No step of a run takes the counter back to a count already returned. */
  predicate NeverBack(s: State, events: seq<Event>)
    decreases |events|
  {
    events == [] ||
    (s.count + |Output(s, events[0])| <= Step(s, events[0]).count && NeverBack(Step(s, events[0]), events[1..]))
  }

  /** The safe runs are just those: over all boots, calls and handler runs. */
  lemma {:induction false} SafeExactly(s: State, events: seq<Event>)
    requires Tracked(s)
    ensures Safe(s, events) <==> NeverBack(s, events)
    decreases |events|
  {
    if events != [] {
      StepExact(s, events[0]);
      if Room(s, events[0]) {
        TrackedStays(s, events[0]);
        SafeExactly(Step(s, events[0]), events[1..]);
      }
    }
  }

  // ------------------------------------------------------------- a handler that is too late

  function Calls(n: nat): seq<Event> {
    seq(n, _ => Next)
  }

  /** The counts returned by n calls in a row. */
  function Counted(from: nat, n: nat): seq<nat> {
    seq(n, i => from + i)
  }

  lemma NextCounts(s: State)
    requires !s.atRuntime && s.count + 1 < TWO_64
    ensures var t := Step(s, Next); t.count == s.count + 1 && t.stored == s.stored && !t.atRuntime
    ensures Output(s, Next) == [s.count]
  {
  }

  lemma {:induction false} CallsRun(s: State, n: nat, rest: seq<Event>)
    requires !s.atRuntime && s.count + n < TWO_64
    ensures var t := Run(s, Calls(n));
            t.count == s.count + n && t.stored == s.stored && !t.atRuntime &&
            Returned(s, Calls(n) + rest) == Counted(s.count, n) + Returned(t, rest)
    decreases n
  {
    hide Step, Output, Returned, Run;
    if n == 0 {
      assert Calls(0) == [] && Calls(0) + rest == rest && Counted(s.count, 0) == [];
      NoEvents(s);
    } else {
      NextCounts(s);
      var next := Step(s, Next);
      CallsRun(next, n - 1, rest);
      assert Calls(n) == [Next] + Calls(n - 1);
      FirstEvent(s, Next, Calls(n - 1));
      assert Calls(n) + rest == [Next] + (Calls(n - 1) + rest);
      FirstEvent(s, Next, Calls(n - 1) + rest);
      assert Counted(s.count, n) == [s.count] + Counted(next.count, n - 1);
    }
  }

  lemma NoEvents(s: State)
    ensures Run(s, []) == s && Returned(s, []) == []
  {
  }

  lemma FirstEvent(s: State, e: Event, rest: seq<Event>)
    ensures Run(s, [e] + rest) == Run(Step(s, e), rest)
    ensures Returned(s, [e] + rest) == Output(s, e) + Returned(Step(s, e), rest)
  {
    assert ([e] + rest)[1..] == rest;
  }

  /** One call more than 2^31 after the signal, and a reboot then repeats the last count returned. */
  lemma LateHandlerRepeats(s: State)
    requires s.stored + 2 < TWO_32
    ensures var counts := Returned(Booted(s), Calls(TWO_32 + 1) + [Reboot, Next]);
            |counts| == TWO_32 + 2 && counts[TWO_32 + 1] == counts[TWO_32]
  {
    BootIsTracked(s);
    var b := Booted(s);
    var t := Run(b, Calls(TWO_32 + 1));
    CallsRun(b, TWO_32 + 1, [Reboot, Next]);
    BootIsTracked(t);
    var r := Booted(t);
    assert [Reboot, Next][1..] == [Next];
    assert Returned(t, [Reboot, Next]) == Returned(r, [Next]);
    assert Returned(r, [Next]) == [r.count] + Returned(Step(r, Next), [Next][1..]);
  }

  /** Once the high half is used up a boot starts over from 1, whatever was returned before. */
  lemma RunsOut(s: State)
    requires s.stored == TWO_32 - 1
    ensures Booted(s).count == TWO_32
  {
  }

  /** On a machine that has booted 2^32 - 2 times, the count goes down at the boot after the next. */
  lemma UsedUpGoesDown(s: State)
    requires s.stored == TWO_32 - 2
    ensures Returned(Booted(s), [Next, Reboot, Next]) == [(TWO_32 - 1) * TWO_32, TWO_32]
  {
    BootIsTracked(s);
    var b := Booted(s);
    var t := Step(b, Next);
    NextCounts(b);
    RunsOut(t);
    var r := Booted(t);
    assert [Next, Reboot, Next] == [Next] + [Reboot, Next] && [Reboot, Next] == [Reboot] + [Next] && [Next] == [Next] + [];
    FirstEvent(b, Next, [Reboot, Next]);
    FirstEvent(t, Reboot, [Next]);
    FirstEvent(r, Next, []);
    NoEvents(Step(r, Next));
  }

  // ------------------------------------------------------------- the driver

  /** CMOS outside the four bytes is as it was. */
  twostate predicate OthersKept(cmos: array<Byte>, offset: nat)
    reads cmos
  {
    forall i | 0 <= i < cmos.Length && !(offset <= i < offset + 4) :: cmos[i] == old(cmos[i])
  }

  lemma CountFits(high: nat)
    requires high < TWO_32
    ensures high * TWO_32 % TWO_64 == high * TWO_32 < TWO_64
  {
  }

  /** The driver's state: CMOS memory, the counter, and what the model needs to know of events and boot services. */
  class Driver {
    const cmos: array<Byte>
    const offset: nat
    var count: nat
    var signalled: bool
    var atRuntime: bool
    ghost var behind: nat

    ghost predicate Valid()
      reads this, cmos
    {
      offset + 4 <= cmos.Length && count < TWO_64
    }

    function Stored(): nat
      requires offset + 4 <= cmos.Length
      reads cmos
    {
      OfBytes(cmos[offset], cmos[offset + 1], cmos[offset + 2], cmos[offset + 3])
    }

    /** The state the machine above is in. */
    ghost function Abstract(): State
      requires Valid()
      reads this, cmos
    {
      State(Stored(), count, signalled, behind, atRuntime)
    }

    /** Starting the driver is a boot, whatever CMOS holds. */
    constructor (cmos: array<Byte>, offset: nat)
      requires offset + 4 <= cmos.Length
      modifies cmos
      ensures this.cmos == cmos && this.offset == offset && Valid() && OthersKept(cmos, offset)
      ensures forall s: State | s.stored == old(OfBytes(cmos[offset], cmos[offset + 1], cmos[offset + 2], cmos[offset + 3])) ::
                Abstract() == Booted(s)
    {
      this.cmos, this.offset := cmos, offset;
      count, signalled, behind, atRuntime := 0, false, 0, false;
      new;
      Initialize();
    }

    method GetMtcFromCmos() returns (high: nat)
      requires Valid()
      ensures high == Stored() < TWO_32
    {
      high := OfBytes(cmos[offset], cmos[offset + 1], cmos[offset + 2], cmos[offset + 3]);
    }

    method SetMtcToCmos(high: nat)
      requires Valid() && high < TWO_32
      modifies cmos
      ensures Stored() == high && OthersKept(cmos, offset)
    {
      hide OfBytes, ByteOf;
      cmos[offset] := ByteOf(high, 0);
      cmos[offset + 1] := ByteOf(high, 1);
      cmos[offset + 2] := ByteOf(high, 2);
      cmos[offset + 3] := ByteOf(high, 3);
      BytesRoundTrip(high);
    }

    /** A boot: the counter restarts above the stored high half. */
    method Initialize()
      requires Valid()
      modifies this, cmos
      ensures Valid() && OthersKept(cmos, offset) && Abstract() == old(Booted(Abstract()))
    {
      hide OfBytes, Raised;
      signalled, behind, atRuntime := false, 0, false;
      var high := GetMtcFromCmos();
      if high == 0xFFFF_FFFF {
        high := 0;
      }
      CountFits(high);
      count := high * TWO_32 % TWO_64;
      high := GetNextHighMonotonicCount();
    }

    /** The next count; not available at runtime. */
    method GetNextMonotonicCount() returns (result: Option<nat>)
      requires Valid()
      modifies this
      ensures Valid() && Abstract() == old(Step(Abstract(), Next))
      ensures result == if old(atRuntime) then None else Some(old(count))
      ensures !old(atRuntime) ==> signalled == (old(signalled) || old(count) % 0x8000_0000 == 0x7FFF_FFFF)
      ensures !old(atRuntime) ==> count == if old(count) == 0xFFFF_FFFF_FFFF_FFFF then 0 else old(count) + 1
    {
      if atRuntime {
        return None;
      }
      result := Some(count);
      ToggledExactly(count);
      if signalled {
        behind := behind + 1;
      } else {
        behind := 0;
      }
      if count / TWO_31 % 2 != (count + 1) % TWO_64 / TWO_31 % 2 {
        signalled := true;
      }
      count := (count + 1) % TWO_64;
    }

    method GetNextHighMonotonicCount() returns (high: nat)
      requires Valid()
      modifies this`count, cmos
      ensures Valid() && OthersKept(cmos, offset) && Abstract() == old(Step(Abstract(), NextHigh)) && high == Stored()
    {
      hide OfBytes;
      high := (count / TWO_32 + 1) % TWO_32;
      CountFits(high);
      count := high * TWO_32 % TWO_64;
      SetMtcToCmos(high);
    }

    /** The event handler, when it comes to run. */
    method EfiMtcEventHandler()
      requires Valid() && signalled && !atRuntime
      modifies this, cmos
      ensures Valid() && OthersKept(cmos, offset) && Abstract() == old(Step(Abstract(), Handler))
    {
      var high := GetNextHighMonotonicCount();
      signalled, behind := false, 0;
    }
  }
}
