/** The event objects of os/rt-thread-nano/src/ipc.c: threads wait until all, or any, of the bits they
    are interested in are set; one send may satisfy several of them, and their clear options take bits
    away again while the send is still going through the list. */
module Events {
  import opened IpcList
  import opened Lists

  type Bits = bv32

  /** RT_EVENT_FLAG_AND, _OR and _CLEAR; with both AND and OR, AND decides. */
  datatype Options = Options(all: bool, any: bool, clear: bool)
  {
    predicate Valid() { all || any }
  }

  /** A suspended thread with its event_set and event_info. */
  datatype Waiter = Waiter(thread: Thread, mask: Bits, options: Options)

  /** What a resumed thread finds in its event_set. */
  datatype Grant = Grant(waiter: Waiter, bits: Bits)

  function Common(a: Bits, b: Bits): Bits { a & b }

  function Minus(a: Bits, b: Bits): Bits { a & !b }

  function Plus(a: Bits, b: Bits): Bits { a | b }

  predicate Meets(mask: Bits, options: Options, flags: Bits) {
    if options.all then Common(mask, flags) == mask
    else options.any && Common(mask, flags) != 0
  }

  function Granted(w: Waiter, flags: Bits): Bits {
    if w.options.all then w.mask else Common(w.mask, flags)
  }

  function Cleared(options: Options, flags: Bits, bits: Bits): Bits {
    if options.clear then Minus(flags, bits) else flags
  }

  // ---------- The loop of rt_event_send ----------

  datatype Served = Served(left: seq<Waiter>, flags: Bits, woken: seq<Grant>, ok: bool)

  /** Go through the waiters in order; an invalid option ends the loop with an error. */
  function Serve(list: seq<Waiter>, flags: Bits): Served {
    if list == [] then Served([], flags, [], true)
    else
      var w := list[0];
      if !w.options.Valid() then Served(list, flags, [], false)
      else if Meets(w.mask, w.options, flags) then
        var bits := Granted(w, flags);
        var r := Serve(list[1..], Cleared(w.options, flags, bits));
        r.(woken := [Grant(w, bits)] + r.woken)
      else
        var r := Serve(list[1..], flags);
        r.(left := [w] + r.left)
  }

  // ---------- Bits ----------

  predicate Within(a: Bits, b: Bits) { Common(a, b) == a }

  predicate Apart(a: Bits, b: Bits) { Common(a, b) == 0 }

  lemma WithinIsTransitive(a: Bits, b: Bits, c: Bits)
    requires Within(a, b) && Within(b, c)
    ensures Within(a, c)
  {
  }

  lemma CommonIsWithin(a: Bits, b: Bits)
    ensures Within(Common(a, b), a) && Within(Common(a, b), b)
  {
  }

  lemma MinusIsWithin(a: Bits, b: Bits)
    ensures Within(Minus(a, b), a) && Apart(b, Minus(a, b))
  {
  }

  lemma ApartFromLess(a: Bits, b: Bits, c: Bits)
    requires Apart(a, b) && Within(c, b)
    ensures Apart(a, c)
  {
  }

  lemma MinusTwice(a: Bits, b: Bits, c: Bits)
    ensures Minus(Minus(a, b), c) == Minus(a, Plus(b, c))
  {
  }

  lemma MinusNothing(a: Bits)
    ensures Minus(a, 0) == a
  {
  }

  /** Taking bits away satisfies nobody. */
  lemma MeetsIsMonotone(mask: Bits, options: Options, less: Bits, flags: Bits)
    requires Meets(mask, options, less) && Within(less, flags)
    ensures Meets(mask, options, flags)
  {
    if options.all {
      assert Within(mask, less);
      WithinIsTransitive(mask, less, flags);
    } else {
      CommonKept(mask, less, flags);
    }
  }

  lemma CommonKept(mask: Bits, less: Bits, flags: Bits)
    requires Common(mask, less) != 0 && Within(less, flags)
    ensures Common(mask, flags) != 0
  {
  }

  // ---------- What one send does ----------

  /** Nobody who waits could be satisfied by the set. */
  ghost predicate Quiet(list: seq<Waiter>, flags: Bits) {
    forall i :: 0 <= i < |list| ==> !Meets(list[i].mask, list[i].options, flags)
  }

  ghost predicate AllValid(list: seq<Waiter>) {
    forall i :: 0 <= i < |list| ==> list[i].options.Valid() && list[i].mask != 0
  }

  /** An AND waiter got its whole mask, an OR waiter a part of it, but not nothing; and the bits were set. */
  predicate Proper(g: Grant, flags: Bits) {
    && g.bits != 0 && Within(g.bits, g.waiter.mask) && Within(g.bits, flags)
    && (g.waiter.options.all ==> g.bits == g.waiter.mask)
  }

  lemma {:induction false} ServeShrinksSet(list: seq<Waiter>, flags: Bits)
    ensures Within(Serve(list, flags).flags, flags)
  {
    hide Common, Minus, Within, Meets, Granted;
    if list == [] {
      MinusNothing(flags);
      MinusIsWithin(flags, 0);
    } else {
      var w := list[0];
      var bits := Granted(w, flags);
      ServeShrinksSet(list[1..], Cleared(w.options, flags, bits));
      ServeShrinksSet(list[1..], flags);
      MinusIsWithin(flags, bits);
      MinusNothing(flags);
      MinusIsWithin(flags, 0);
      if w.options.clear {
        WithinIsTransitive(Serve(list[1..], Minus(flags, bits)).flags, Minus(flags, bits), flags);
      }
    }
  }

  /** After the loop nobody is left waiting whom the final set satisfies, although later waiters
      have taken bits away since the earlier ones were looked at. */
  lemma {:induction false} ServeLeavesQuiet(list: seq<Waiter>, flags: Bits)
    requires AllValid(list)
    ensures var r := Serve(list, flags); r.ok && Quiet(r.left, r.flags) && AllValid(r.left)
  {
    hide Common, Minus, Within, Meets, Granted;
    if list != [] {
      var w := list[0];
      assert AllValid(list[1..]);
      if Meets(w.mask, w.options, flags) {
        ServeLeavesQuiet(list[1..], Cleared(w.options, flags, Granted(w, flags)));
      } else {
        ServeLeavesQuiet(list[1..], flags);
        var r := Serve(list[1..], flags);
        ServeShrinksSet(list[1..], flags);
        if Meets(w.mask, w.options, r.flags) {
          MeetsIsMonotone(w.mask, w.options, r.flags, flags);
        }
      }
    }
  }

  lemma GrantIsProper(w: Waiter, flags: Bits)
    requires w.options.Valid() && w.mask != 0 && Meets(w.mask, w.options, flags)
    ensures Proper(Grant(w, Granted(w, flags)), flags)
  {
    CommonIsWithin(w.mask, flags);
    CommonIsWithin(w.mask, w.mask);
  }

  lemma {:induction false} GrantsAreProper(list: seq<Waiter>, flags: Bits)
    requires AllValid(list)
    ensures forall g :: g in Serve(list, flags).woken ==> Proper(g, flags)
  {
    hide Common, Minus, Within, Meets, Granted;
    if list != [] {
      var w := list[0];
      assert AllValid(list[1..]);
      GrantsAreProper(list[1..], flags);
      if Meets(w.mask, w.options, flags) {
        var bits := Granted(w, flags);
        var after := Cleared(w.options, flags, bits);
        GrantIsProper(w, flags);
        GrantsAreProper(list[1..], after);
        MinusIsWithin(flags, bits);
        forall g | g in Serve(list[1..], after).woken ensures Proper(g, flags) {
          if w.options.clear {
            WithinIsTransitive(g.bits, after, flags);
          }
        }
      }
    }
  }

  /** The bits that the resumed threads with a clear option have taken. */
  function Consumed(woken: seq<Grant>): Bits {
    if woken == [] then 0
    else if woken[0].waiter.options.clear then Plus(woken[0].bits, Consumed(woken[1..]))
    else Consumed(woken[1..])
  }

  /** Exactly the bits taken by clear options disappear from the set. */
  lemma {:induction false} ServeConsumes(list: seq<Waiter>, flags: Bits)
    ensures Serve(list, flags).flags == Minus(flags, Consumed(Serve(list, flags).woken))
  {
    hide Common, Minus, Within, Meets, Granted, Plus;
    if list == [] {
      MinusNothing(flags);
    } else {
      var w := list[0];
      var bits := Granted(w, flags);
      ServeConsumes(list[1..], flags);
      ServeConsumes(list[1..], Cleared(w.options, flags, bits));
      MinusNothing(flags);
      if w.options.Valid() && Meets(w.mask, w.options, flags) {
        var r := Serve(list[1..], Cleared(w.options, flags, bits));
        assert Serve(list, flags).woken[1..] == r.woken;
        MinusTwice(flags, bits, Consumed(r.woken));
      }
    }
  }

  /** No bit taken by a clear option goes to a thread resumed later in the same send. */
  lemma {:induction false} NoBitIsTakenTwice(list: seq<Waiter>, flags: Bits, i: nat, j: nat)
    requires AllValid(list) && i < j < |Serve(list, flags).woken|
    ensures var woken := Serve(list, flags).woken;
            woken[i].waiter.options.clear ==> Apart(woken[i].bits, woken[j].bits)
  {
    hide Common, Minus, Within, Meets, Granted, Apart;
    var w := list[0];
    assert AllValid(list[1..]);
    if Meets(w.mask, w.options, flags) {
      var bits := Granted(w, flags);
      var after := Cleared(w.options, flags, bits);
      var r := Serve(list[1..], after);
      if i > 0 {
        NoBitIsTakenTwice(list[1..], after, i - 1, j - 1);
      } else if w.options.clear {
        GrantsAreProper(list[1..], after);
        assert r.woken[j - 1] in r.woken;
        MinusIsWithin(flags, bits);
        ApartFromLess(bits, after, r.woken[j - 1].bits);
      }
    } else {
      NoBitIsTakenTwice(list[1..], flags, i, j);
    }
  }

  /** Nobody disappears: every waiter is either still waiting, in its place, or resumed. */
  lemma {:induction false} ServeKeepsEveryone(list: seq<Waiter>, flags: Bits)
    ensures forall w :: w in list <==> w in Serve(list, flags).left || exists g :: g in Serve(list, flags).woken && g.waiter == w
    ensures |list| == |Serve(list, flags).left| + |Serve(list, flags).woken|
  {
    hide Common, Minus, Meets, Granted;
    if list != [] && list[0].options.Valid() {
      var w := list[0];
      var g := Grant(w, Granted(w, flags));
      var met := Meets(w.mask, w.options, flags);
      var r := if met then Serve(list[1..], Cleared(w.options, flags, g.bits)) else Serve(list[1..], flags);
      ServeKeepsEveryone(list[1..], if met then Cleared(w.options, flags, g.bits) else flags);
      assert list == [w] + list[1..];
      var s := Serve(list, flags);
      forall x ensures x in list <==> x in s.left || exists h :: h in s.woken && h.waiter == x {
        if met {
          assert s.woken == [g] + r.woken && s.left == r.left;
          if x == w {
            assert g in s.woken && g.waiter == w;
          } else {
            assert forall h :: h in r.woken ==> h in s.woken;
          }
        } else {
          assert s.left == [w] + r.left && s.woken == r.woken;
        }
      }
    }
  }

  // ---------- The protocol ----------

  datatype State = State(flags: Bits, list: seq<Waiter>)

  datatype Event =
    | Send(bits: Bits)
    | Recv(t: Thread, mask: Bits, options: Options, timeout: int)
    | Expire(t: Thread)
    | Reset

  datatype Outcome = Failed | Invalid | TimedOut | Blocked | Done(woken: seq<Grant>) | Got(bits: Bits)

  predicate Waits(s: State, t: Thread) {
    exists i :: 0 <= i < |s.list| && s.list[i].thread == t
  }

  function Threads(list: seq<Waiter>): (threads: seq<Thread>)
    ensures |threads| == |list| && forall i :: 0 <= i < |list| ==> threads[i] == list[i].thread
  {
    seq(|list|, i requires 0 <= i < |list| => list[i].thread)
  }

  /** Where a thread goes in the suspend list. */
  function Place(list: seq<Waiter>, t: Thread, flag: Flag, prio: Priorities): (k: nat)
    ensures k <= |list|
  {
    if flag == Fifo then |list| else Position(Threads(list), prio(t), prio)
  }

  function Remove(list: seq<Waiter>, t: Thread): seq<Waiter> {
    if list == [] then []
    else if list[0].thread == t then list[1..]
    else [list[0]] + Remove(list[1..], t)
  }

  predicate Enabled(s: State, e: Event) {
    match e
    case Recv(t, mask, options, _) => !Waits(s, t)
    case Expire(t) => Waits(s, t)
    case _ => true
  }

  function Apply(s: State, e: Event, flag: Flag, prio: Priorities): (State, Outcome) {
    match e
    case Send(bits) =>
      if bits == 0 then (s, Failed)
      else
        var r := Serve(s.list, Plus(s.flags, bits));
        (State(r.flags, r.left), if r.ok then Done(r.woken) else Invalid)
    case Recv(t, mask, options, timeout) =>
      if mask == 0 then (s, Failed)
      else if Meets(mask, options, s.flags) then
        (s.(flags := Cleared(options, s.flags, mask)), Got(Common(mask, s.flags)))
      else if timeout == 0 then (s, TimedOut)
      else
        var k := Place(s.list, t, flag, prio);
        (s.(list := s.list[..k] + [Waiter(t, mask, options)] + s.list[k..]), Blocked)
    case Expire(t) => (s.(list := Remove(s.list, t)), TimedOut)
    case Reset => (State(0, []), Done([]))
  }

  /** Every receive names AND or OR, as the source asserts. */
  predicate ValidOptions(e: Event) {
    e.Recv? ==> e.options.Valid()
  }

  ghost predicate Inv(s: State) {
    AllValid(s.list) && Quiet(s.list, s.flags)
  }

  lemma {:induction false} RemoveIsSublist(list: seq<Waiter>, t: Thread)
    ensures forall w :: w in Remove(list, t) ==> w in list
  {
    if list != [] {
      RemoveIsSublist(list[1..], t);
    }
  }

  lemma SublistIsInv(list: seq<Waiter>, some: seq<Waiter>, flags: Bits)
    requires AllValid(list) && Quiet(list, flags) && forall w :: w in some ==> w in list
    ensures AllValid(some) && Quiet(some, flags)
  {
    forall i | 0 <= i < |some|
      ensures some[i].options.Valid() && some[i].mask != 0 && !Meets(some[i].mask, some[i].options, flags)
    {
      assert some[i] in list;
    }
  }

  lemma LessIsQuiet(list: seq<Waiter>, flags: Bits, less: Bits)
    requires Quiet(list, flags) && Within(less, flags)
    ensures Quiet(list, less)
  {
    forall i | 0 <= i < |list| ensures !Meets(list[i].mask, list[i].options, less) {
      if Meets(list[i].mask, list[i].options, less) {
        MeetsIsMonotone(list[i].mask, list[i].options, less, flags);
      }
    }
  }

  /** Between critical sections no suspended thread's condition is satisfied by the event set. */
  lemma EventKeepsInv(s: State, e: Event, flag: Flag, prio: Priorities)
    requires Inv(s) && Enabled(s, e) && ValidOptions(e)
    ensures Inv(Apply(s, e, flag, prio).0)
    ensures Apply(s, e, flag, prio).1 != Invalid
  {
    hide Common, Minus, Plus, Within, Meets, Granted, Serve, Place, Remove;
    match e
    case Send(bits) => ServeLeavesQuiet(s.list, Plus(s.flags, bits));
    case Recv(t, mask, options, _) =>
      MinusIsWithin(s.flags, mask);
      if options.clear {
        LessIsQuiet(s.list, s.flags, Minus(s.flags, mask));
      }
    case Expire(t) =>
      RemoveIsSublist(s.list, t);
      SublistIsInv(s.list, Remove(s.list, t), s.flags);
    case Reset =>
  }

  predicate Leads(s: State, events: seq<Event>, flag: Flag, prio: Priorities, r: State)
    decreases |events|
  {
    if events == [] then r == s
    else Enabled(s, events[0]) && ValidOptions(events[0]) && Leads(Apply(s, events[0], flag, prio).0, events[1..], flag, prio, r)
  }

  /** In every reachable state no suspended thread is being missed. */
  lemma {:induction false} NobodyIsMissed(s: State, events: seq<Event>, flag: Flag, prio: Priorities, r: State)
    requires Inv(s) && Leads(s, events, flag, prio, r)
    ensures Inv(r)
    decreases |events|
  {
    hide Inv, Apply;
    if events != [] {
      EventKeepsInv(s, events[0], flag, prio);
      NobodyIsMissed(Apply(s, events[0], flag, prio).0, events[1..], flag, prio, r);
    }
  }

  /** A receive that need not wait gets what it would have been granted as the only waiter, and leaves
      the set as that send would. */
  lemma ReceivingAtOnceIsBeingServed(s: State, t: Thread, mask: Bits, options: Options, timeout: int, flag: Flag, prio: Priorities)
    requires mask != 0 && options.Valid() && Meets(mask, options, s.flags)
    ensures var (r, outcome) := Apply(s, Recv(t, mask, options, timeout), flag, prio);
            var served := Serve([Waiter(t, mask, options)], s.flags);
            outcome == Got(served.woken[0].bits) && r.flags == served.flags
  {
    MinusCommon(s.flags, mask);
  }

  lemma MinusCommon(flags: Bits, mask: Bits)
    ensures Minus(flags, Common(mask, flags)) == Minus(flags, mask)
  {
  }

  /** What a receive without AND or OR, which the source only rules out with an assertion, does to the
      others: a send serves the waiters in front of it as ever, and stops. */
  lemma {:induction false} SendStopsAtInvalid(list: seq<Waiter>, flags: Bits, k: nat)
    requires k < |list| && AllValid(list[..k]) && !list[k].options.Valid()
    ensures var r, b := Serve(list, flags), Serve(list[..k], flags);
            !r.ok && r.flags == b.flags && r.woken == b.woken && r.left == b.left + list[k..]
  {
    hide Common, Minus, Within, Meets, Granted;
    if k > 0 {
      var w := list[0];
      assert list[..k][0] == w && list[..k][1..] == list[1..][..k - 1];
      assert list[1..][k - 1..] == list[k..];
      SendStopsAtInvalid(list[1..], if Meets(w.mask, w.options, flags) then Cleared(w.options, flags, Granted(w, flags)) else flags, k - 1);
    } else {
      assert list[..0] == [] && list[0..] == list;
    }
  }

  /** So nobody is left suspended whom the set satisfies if and only if the bits that the waiters in front
      leave satisfy nobody behind it. */
  lemma InvalidOptionsHideOthers(list: seq<Waiter>, flags: Bits, k: nat)
    requires k < |list| && AllValid(list[..k]) && !list[k].options.Valid()
    ensures var r := Serve(list, flags);
            Quiet(r.left, r.flags) <==> Quiet(list[k + 1..], Serve(list[..k], flags).flags)
  {
    hide Common, Minus, Within, Granted;
    SendStopsAtInvalid(list, flags, k);
    ServeLeavesQuiet(list[..k], flags);
    var r, b := Serve(list, flags), Serve(list[..k], flags);
    assert !Meets(list[k].mask, list[k].options, b.flags);
    hide Meets, Serve;
    var n, behind := |b.left|, list[k + 1..];
    assert r.left == b.left + [list[k]] + behind;
    if Quiet(r.left, r.flags) {
      forall i | 0 <= i < |behind| ensures !Meets(behind[i].mask, behind[i].options, b.flags) {
        assert r.left[n + 1 + i] == behind[i];
      }
    }
    if Quiet(behind, b.flags) {
      forall i | 0 <= i < |r.left| ensures !Meets(r.left[i].mask, r.left[i].options, r.flags) {
        if i > n {
          assert r.left[i] == behind[i - n - 1];
        }
      }
    }
  }

  // ---------- The object ----------

  /** What remains of a send when the waiters before some point of the list have been looked at. */
  function Rest(before: seq<Waiter>, woken: seq<Grant>, list: seq<Waiter>, flags: Bits): Served {
    var r := Serve(list, flags);
    r.(left := before + r.left, woken := woken + r.woken)
  }

  lemma RestSteps(before: seq<Waiter>, woken: seq<Grant>, list: seq<Waiter>, flags: Bits)
    requires list != [] && list[0].options.Valid()
    ensures var w := list[0];
            var bits := Granted(w, flags);
            Rest(before, woken, list, flags)
              == if Meets(w.mask, w.options, flags)
                 then Rest(before, woken + [Grant(w, bits)], list[1..], Cleared(w.options, flags, bits))
                 else Rest(before + [w], woken, list[1..], flags)
  {
    hide Common, Minus, Meets, Granted;
    var w := list[0];
    var bits := Granted(w, flags);
    var r := Serve(list[1..], Cleared(w.options, flags, bits));
    assert woken + ([Grant(w, bits)] + r.woken) == woken + [Grant(w, bits)] + r.woken;
    assert before + ([w] + Serve(list[1..], flags).left) == before + [w] + Serve(list[1..], flags).left;
  }

  lemma RestOfAll(list: seq<Waiter>, flags: Bits)
    ensures Rest([], [], list, flags) == Serve(list, flags)
  {
    assert [] + Serve(list, flags).left == Serve(list, flags).left;
    assert [] + Serve(list, flags).woken == Serve(list, flags).woken;
  }

  lemma RestStops(before: seq<Waiter>, woken: seq<Grant>, list: seq<Waiter>, flags: Bits)
    requires list == [] || !list[0].options.Valid()
    ensures Rest(before, woken, list, flags) == Served(before + list, flags, woken, list == [])
  {
    assert woken + [] == woken;
  }

  class EventObject {
    const flag: Flag
    var flags: Bits
    var suspendThread: seq<Waiter>

    ghost function Abs(): State
      reads this
    {
      State(flags, suspendThread)
    }

    constructor (flag: Flag)
      ensures Abs() == State(0, []) && Inv(Abs()) && this.flag == flag
    {
      this.flag, flags, suspendThread := flag, 0, [];
    }

    /** rt_event_send: the cursor moves on before a satisfied thread leaves the list. */
    method Send(bits: Bits, prio: Priorities) returns (outcome: Outcome)
      modifies this
      ensures (Abs(), outcome) == Apply(old(Abs()), Event.Send(bits), flag, prio)
    {
      hide Common, Minus, Meets, Granted, Plus, Serve, Rest;
      if bits == 0 {
        return Failed;
      }
      flags := Plus(flags, bits);
      var woken := [];
      var n := 0;
      RestOfAll(suspendThread, flags);
      assert suspendThread[0..] == suspendThread && suspendThread[..0] == [];
      while n < |suspendThread|
        invariant n <= |suspendThread|
        invariant Rest(suspendThread[..n], woken, suspendThread[n..], flags) == Serve(old(suspendThread), Plus(old(flags), bits))
        decreases |suspendThread| - n
      {
        var thread := suspendThread[n];
        if !thread.options.Valid() {
          RestStops(suspendThread[..n], woken, suspendThread[n..], flags);
          assert suspendThread[..n] + suspendThread[n..] == suspendThread;
          return Invalid;
        }
        ghost var list := suspendThread[n..];
        RestSteps(suspendThread[..n], woken, list, flags);
        assert list[1..] == suspendThread[n + 1..];
        if Meets(thread.mask, thread.options, flags) {
          var received := Granted(thread, flags);
          flags := Cleared(thread.options, flags, received);
          woken := woken + [Grant(thread, received)];
          Removal(suspendThread, n);
          suspendThread := suspendThread[..n] + suspendThread[n + 1..];
        } else {
          assert suspendThread[..n] + [thread] == suspendThread[..n + 1];
          n := n + 1;
        }
      }
      RestStops(suspendThread[..n], woken, suspendThread[n..], flags);
      assert suspendThread[..n] + suspendThread[n..] == suspendThread;
      outcome := Done(woken);
    }

    /** rt_event_recv up to rt_schedule. */
    method Recv(t: Thread, mask: Bits, options: Options, timeout: int, prio: Priorities) returns (outcome: Outcome)
      modifies this
      ensures (Abs(), outcome) == Apply(old(Abs()), Event.Recv(t, mask, options, timeout), flag, prio)
    {
      hide Common, Minus, Meets;
      if mask == 0 {
        return Failed;
      }
      if Meets(mask, options, flags) {
        outcome := Got(Common(mask, flags));
        flags := Cleared(options, flags, mask);
      } else if timeout == 0 {
        outcome := TimedOut;
      } else {
        var k := FindPlace(t, prio);
        suspendThread := suspendThread[..k] + [Waiter(t, mask, options)] + suspendThread[k..];
        outcome := Blocked;
      }
    }

    method FindPlace(t: Thread, prio: Priorities) returns (k: nat)
      ensures k == Place(suspendThread, t, flag, prio)
    {
      if flag == Fifo {
        return |suspendThread|;
      }
      k := 0;
      ghost var threads := Threads(suspendThread);
      while k < |suspendThread| && prio(suspendThread[k].thread) <= prio(t)
        invariant k <= |suspendThread|
        invariant Position(threads, prio(t), prio) == k + Position(threads[k..], prio(t), prio)
      {
        assert threads[k..][1..] == threads[k + 1..];
        k := k + 1;
      }
    }
  }

  lemma Removal(list: seq<Waiter>, n: nat)
    requires n < |list|
    ensures var r := list[..n] + list[n + 1..]; r[..n] == list[..n] && r[n..] == list[n + 1..]
  {
  }
}
