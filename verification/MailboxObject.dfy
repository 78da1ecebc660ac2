/** struct rt_mailbox of os/rt-thread-nano/src/ipc.c: the atomic sections of its calls on the circular
    message pool, proved to be the events of the protocol in module Mailbox. */
module MailboxObject {
  import opened IpcList
  import opened Lists
  import opened Mailbox

  /** RT_MB_ENTRY_MAX; the size of a mailbox is a 16-bit number, so it is never reached. */
  const ENTRY_MAX: nat := 0xFFFF

  function Wrap(k: nat, size: nat): nat {
    if k >= size then k - size else k
  }

  /** The mails in the pool, oldest first. */
  function Contents(pool: seq<Mail>, outOffset: nat, entry: nat): (q: seq<Mail>)
    requires outOffset <= |pool| && entry <= |pool|
    requires |pool| > 0 ==> outOffset < |pool|
    ensures |q| == entry
    ensures forall i :: 0 <= i < entry ==> q[i] == pool[Wrap(outOffset + i, |pool|)]
  {
    seq(entry, i requires 0 <= i < entry => pool[Wrap(outOffset + i, |pool|)])
  }

  lemma Appended(pool: seq<Mail>, inOffset: nat, outOffset: nat, entry: nat, value: Mail)
    requires outOffset < |pool| && entry < |pool| && inOffset == Wrap(outOffset + entry, |pool|)
    ensures Contents(pool[inOffset := value], outOffset, entry + 1) == Contents(pool, outOffset, entry) + [value]
  {
  }

  lemma Consumed(pool: seq<Mail>, outOffset: nat, entry: nat)
    requires outOffset < |pool| && 0 < entry <= |pool|
    ensures Contents(pool, Wrap(outOffset + 1, |pool|), entry - 1) == Contents(pool, outOffset, entry)[1..]
    ensures Contents(pool, outOffset, entry)[0] == pool[outOffset]
  {
  }

  class MessageBox {
    const flag: Flag
    const size: nat
    const msgPool: array<Mail>
    var entry: nat
    var inOffset: nat
    var outOffset: nat
    var suspendThread: seq<Thread>
    var suspendSenderThread: seq<Thread>

    // What the threads are doing, which the object itself does not record.
    ghost var wokenReceivers: set<Thread>
    ghost var wokenSenders: set<Thread>
    ghost var calls: map<Thread, Call>
    ghost var accepted: seq<Mail>
    ghost var delivered: seq<Mail>

    ghost predicate Valid()
      reads this, msgPool
    {
      && msgPool.Length == size <= ENTRY_MAX
      && entry <= size && outOffset <= size && inOffset <= size
      && (size > 0 ==> outOffset < size && inOffset == Wrap(outOffset + entry, size))
    }

    ghost function Abs(): State
      reads this, msgPool
      requires Valid()
    {
      State(size, Contents(msgPool[..], outOffset, entry),
            Waiters(suspendThread, wokenReceivers), Waiters(suspendSenderThread, wokenSenders),
            calls, accepted, delivered)
    }

    /** rt_mb_init. */
    constructor (size: nat, flag: Flag)
      requires size <= ENTRY_MAX
      ensures Valid() && fresh(msgPool) && Abs() == Init(size) && this.flag == flag
    {
      this.size, this.flag := size, flag;
      msgPool := new Mail[size](_ => 0);
      entry, inOffset, outOffset := 0, 0, 0;
      suspendThread, suspendSenderThread := [], [];
      wokenReceivers, wokenSenders, calls, accepted, delivered := {}, {}, map[], [], [];
    }

    /** rt_mb_send_wait from taking the interrupt lock to releasing it: the loop test, then either
        the suspension or the enqueueing. */
    method SendSection(t: Thread, value: Mail, timeout: int, prio: Priorities) returns (outcome: Outcome)
      requires Valid()
      modifies this, msgPool
      ensures Valid() && (Abs(), outcome) == Mailbox.SendSection(old(Abs()), t, value, timeout, flag, prio)
    {
      if entry == size {
        if timeout == 0 {
          return Full;
        }
        suspendSenderThread := ListSuspend(suspendSenderThread, t, flag, prio);
        calls := calls[t := Sending(value, timeout)];
        return Blocked;
      }
      hide Insert;
      Appended(msgPool[..], inOffset, outOffset, entry, value);
      msgPool[inOffset] := value;
      inOffset := inOffset + 1;
      if inOffset >= size {
        inOffset := 0;
      }
      assert entry < ENTRY_MAX;
      entry := entry + 1;
      accepted := accepted + [value];
      if suspendThread != [] {
        wokenReceivers := wokenReceivers + {suspendThread[0]};
        suspendThread := suspendThread[1..];
      }
      outcome := Sent;
    }

    /** rt_mb_recv, likewise. */
    method RecvSection(t: Thread, timeout: int, prio: Priorities) returns (outcome: Outcome)
      requires Valid()
      modifies this
      ensures Valid() && (Abs(), outcome) == Mailbox.RecvSection(old(Abs()), t, timeout, flag, prio)
    {
      if entry == 0 {
        if timeout == 0 {
          return TimedOut;
        }
        suspendThread := ListSuspend(suspendThread, t, flag, prio);
        calls := calls[t := Receiving(timeout)];
        return Blocked;
      }
      hide Insert;
      Consumed(msgPool[..], outOffset, entry);
      var value := msgPool[outOffset];
      outOffset := outOffset + 1;
      if outOffset >= size {
        outOffset := 0;
      }
      entry := entry - 1;
      delivered := delivered + [value];
      if suspendSenderThread != [] {
        wokenSenders := wokenSenders + {suspendSenderThread[0]};
        suspendSenderThread := suspendSenderThread[1..];
      }
      outcome := Got(value);
    }

    /** A woken thread takes up its call again: the time left is worked out, and the loop goes round. */
    method Resume(t: Thread, elapsed: nat, call: Call, prio: Priorities) returns (outcome: Outcome)
      requires Valid() && Enabled(Abs(), Event.Resume(t, elapsed)) && calls[t] == call
      modifies this, msgPool
      ensures Valid() && (Abs(), outcome) == Apply(old(Abs()), Event.Resume(t, elapsed), flag, prio)
    {
      var timeout := call.timeout;
      if timeout > 0 {
        timeout := timeout - elapsed;
        if timeout < 0 {
          timeout := 0;
        }
      }
      wokenReceivers, wokenSenders, calls := wokenReceivers - {t}, wokenSenders - {t}, calls - {t};
      match call {
        case Sending(value, _) => outcome := SendSection(t, value, timeout, prio);
        case Receiving(_) => outcome := RecvSection(t, timeout, prio);
      }
    }

    /** rt_mb_control with RT_IPC_CMD_RESET: both lists are resumed with an error, one thread at a
        time, and the pool restarts empty. */
    method Control(prio: Priorities) returns (outcome: Outcome)
      requires Valid()
      modifies this
      ensures Valid() && (Abs(), outcome) == Apply(old(Abs()), Reset, flag, prio)
    {
      hide Spared;
      calls := ListResumeAll(suspendThread, calls);
      calls := ListResumeAll(suspendSenderThread, calls);
      suspendThread, suspendSenderThread := [], [];
      entry, inOffset, outOffset := 0, 0, 0;
      accepted := delivered;
      outcome := Sent;
    }
  }
}
