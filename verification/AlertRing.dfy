/** The driver's alert queue (ProcessGuard.c): a ring of 100 slots written at
    index % 100 under a spin lock, drained whole by the client. */
module AlertRing {
  import opened Common

  const MAX_ALERTS: nat := 100

  datatype Alert = Empty | Alert(attackerPid: nat, targetPid: nat, attackerName: string, timestamp: int,
                                 attemptedAccess: nat)
  datatype DrainResult = BufferTooSmall | NoMoreEntries | Drained(alerts: seq<Alert>)

  /** RtlStringCbCopyA into 16 bytes: at most 15 characters survive. */
  function CopyName(name: string): string {
    if |name| <= 15 then name else name[..15]
  }

  lemma NameCopied(name: string, i: nat)
    ensures |CopyName(name)| == (if |name| < 15 then |name| else 15)
    ensures i < |CopyName(name)| ==> CopyName(name)[i] == name[i]
  {}

  /** The slot of the k-th alert since the last drain, through the 32-bit index. */
  function Slot(k: nat): nat { (k % U32) % MAX_ALERTS }

  /** The position of the last of the first n alerts that was written to slot i, if there is one. */
  ghost function LastWriter(n: nat, i: nat): (w: int)
    ensures w == -1 || (0 <= w < n && Slot(w) == i)
    ensures forall k: nat :: w < k < n ==> Slot(k) != i
  {
    if n == 0 then -1 else if Slot(n - 1) == i then n - 1 else LastWriter(n - 1, i)
  }

  /** The queue that recording a history of alerts on a cleared queue leaves. */
  ghost function RingOf(history: seq<Alert>): (q: seq<Alert>)
    ensures |q| == MAX_ALERTS
  {
    seq(MAX_ALERTS, i requires 0 <= i < MAX_ALERTS =>
      var w := LastWriter(|history|, i); if w == -1 then Empty else history[w])
  }

  class Queue {
    var slots: array<Alert>
    var index: nat
    /** Every alert since the last successful drain, oldest first. */
    ghost var history: seq<Alert>

    ghost predicate Valid()
      reads this, slots
    {
      && slots.Length == MAX_ALERTS
      && index == |history| % U32
      && slots[..] == RingOf(history)
    }

    constructor ()
      ensures Valid() && fresh(slots) && history == []
    {
      slots := new Alert[MAX_ALERTS](i => Empty);
      index := 0;
      history := [];
    }

    method AddSecurityAlert(attackerPid: nat, targetPid: nat, attackerName: string, now: int, access: nat)
      requires Valid()
      modifies this`index, this`history, slots
      ensures Valid() && slots == old(slots)
      ensures history == old(history) + [Alert(attackerPid, targetPid, CopyName(attackerName), now, access)]
    {
      hide RingOf, CopyName;
      var alert := Alert(attackerPid, targetPid, CopyName(attackerName), now, access);
      RingNext(history, alert);
      NextIndex(|history|);
      slots[index % MAX_ALERTS] := alert;
      index := (index + 1) % U32;
      history := history + [alert];
    }

    /** A successful drain hands over the whole ring and starts a new history; a refused one
        changes nothing. */
    method GetAlertQueue(outputLength: nat, queueSize: nat) returns (result: DrainResult)
      requires Valid()
      modifies this`index, this`history, slots
      ensures Valid() && slots == old(slots)
      ensures result == if outputLength < queueSize then BufferTooSmall
                        else if |old(history)| % U32 == 0 then NoMoreEntries
                        else Drained(RingOf(old(history)))
      ensures history == if result.Drained? then [] else old(history)
    {
      if outputLength < queueSize {
        return BufferTooSmall;
      }
      if index == 0 {
        return NoMoreEntries;
      }
      result := Drained(slots[..]);
      for i := 0 to MAX_ALERTS
        invariant slots.Length == MAX_ALERTS
        invariant forall k :: 0 <= k < i ==> slots[k] == Empty
      {
        slots[i] := Empty;
      }
      index := 0;
      history := [];
      assert slots[..] == RingOf([]);
    }
  }

  /** One more alert changes one slot of the ring. */
  lemma RingNext(history: seq<Alert>, a: Alert)
    ensures Slot(|history|) < MAX_ALERTS
    ensures RingOf(history + [a]) == RingOf(history)[Slot(|history|) := a]
  {
    hide Slot;
    SlotBound(|history|);
  }

  lemma SlotBound(k: nat)
    ensures Slot(k) < MAX_ALERTS
  {}

  lemma NextIndex(n: nat)
    ensures (n + 1) % U32 == (n % U32 + 1) % U32
  {
    var q, r := n / U32, n % U32;
    assert n == q * U32 + r;
    if r == U32 - 1 {
      assert n + 1 == (q + 1) * U32;
    }
  }

  // ---- What a drain delivers ----

  /** Which alerts of a history of n, by position, are still in the ring. */
  ghost predicate Survives(n: nat, k: nat) {
    k < n && LastWriter(n, Slot(k)) == k
  }

  /** A drain delivers the last min(n, 100) alerts and no others. */
  ghost predicate DeliversLast(n: nat) {
    n % U32 != 0 && forall k: nat :: Survives(n, k) <==> n - 100 <= k < n
  }

  lemma Overwritten(n: nat, k: nat, later: nat)
    requires k < later < n && Slot(later) == Slot(k)
    ensures !Survives(n, k)
  {}

  /** Positions less than 100 apart in one epoch of the index have different slots. */
  lemma DistinctSlots(k: nat, m: nat)
    requires k < m < k + MAX_ALERTS && k / U32 == m / U32
    ensures Slot(k) != Slot(m)
  {}

  lemma EpochSlot(q: nat, x: nat)
    requires x < U32
    ensures Slot(q * U32 + x) == x % MAX_ALERTS
  {
    assert (q * U32 + x) % U32 == x;
  }

  lemma SameEpoch(n: nat, k: nat, m: nat)
    requires n % U32 >= MAX_ALERTS || n < U32
    requires n - MAX_ALERTS <= k < m < n
    ensures k / U32 == m / U32
  {
    var q, e := n / U32, n - n % U32;
    assert e == q * U32;
    EpochNumber(q, k - e);
    EpochNumber(q, m - e);
  }

  lemma EpochNumber(q: nat, x: nat)
    requires x < U32
    ensures (q * U32 + x) / U32 == q
  {}

  lemma InWindow(n: nat, k: nat)
    requires n % U32 >= MAX_ALERTS || n < U32
    requires n - MAX_ALERTS <= k < n
    ensures Survives(n, k)
  {
    hide Slot;
    forall m: nat | k < m < n ensures Slot(m) != Slot(k) {
      SameEpoch(n, k, m);
      DistinctSlots(k, m);
    }
  }

  lemma BeforeWindow(n: nat, k: nat)
    requires n % U32 >= MAX_ALERTS || n < U32
    requires k < n - MAX_ALERTS
    ensures !Survives(n, k)
  {
    hide Slot;
    var q := n / U32;
    var e := q * U32;
    SlotBound(k);
    if e <= k {
      EpochSlot(q, k - e);
      EpochSlot(q, k - e + MAX_ALERTS);
      Overwritten(n, k, k + MAX_ALERTS);
    } else {
      EpochSlot(q, Slot(k));
      Overwritten(n, k, e + Slot(k));
    }
  }

  /** The ring holds exactly the last min(n, 100) alerts, and hands them over, if and only if the
      32-bit index has never wrapped or has moved 100 past its last wrap. */
  lemma DeliversLastExactly(n: nat)
    ensures DeliversLast(n) <==> 0 < n < 0x1_0000_0000 || 100 <= n % 0x1_0000_0000
  {
    hide Slot, LastWriter, Survives;
    if 0 < n < U32 || MAX_ALERTS <= n % U32 {
      forall k: nat ensures Survives(n, k) <==> n - MAX_ALERTS <= k < n {
        if n - MAX_ALERTS <= k < n {
          InWindow(n, k);
        } else if k < n {
          BeforeWindow(n, k);
        } else {
          NotYet(n, k);
        }
      }
    } else if n % U32 != 0 {
      var k := WrapCollides(n);
    }
  }

  lemma NotYet(n: nat, k: nat)
    requires k >= n
    ensures !Survives(n, k)
  {}

  /** 2^32 is 96 modulo 100: just after a wrap, slots before and after it collide inside the window. */
  lemma WrapCollides(n: nat) returns (k: nat)
    requires n >= U32 && 0 < n % U32 < MAX_ALERTS
    ensures n - MAX_ALERTS <= k < n && !Survives(n, k)
  {
    hide Slot, Survives;
    var q, r := n / U32, n % U32;
    var e := q * U32;
    var j := if r <= 96 then r - 1 else 95;
    EpochSlot(q, j);
    EpochSlot(q - 1, U32 - 96 + j);
    k := e - 96 + j;
    Overwritten(n, k, e + j);
  }

  /** Over any run without a wrap, what one drain returns is the alerts since the previous one,
      each in the slot of its own position, and every older slot is empty. */
  lemma DrainContents(history: seq<Alert>, k: nat)
    requires 0 < |history| < U32 && k < MAX_ALERTS
    ensures RingOf(history)[k]
         == if |history| <= k then Empty
            else history[k + 100 * ((|history| - 1 - k) / 100)]
  {
    var n := |history|;
    if k < n {
      var w := k + MAX_ALERTS * ((n - 1 - k) / MAX_ALERTS);
      assert n - MAX_ALERTS <= w < n && Slot(w) == k;
      InWindow(n, w);
    } else {
      assert forall m: nat :: m < n ==> Slot(m) == m;
    }
  }

  // ---- Whole runs ----

  datatype Op =
    | Raise(attackerPid: nat, targetPid: nat, attackerName: string, now: int, access: nat)
    | Drain(outputLength: nat, queueSize: nat)

  /** The alerts a run raises, in order. */
  function Raised(ops: seq<Op>): seq<Alert> {
    if ops == [] then []
    else match Last(ops)
      case Raise(attacker, target, name, now, access) =>
        Raised(Front(ops)) + [Alert(attacker, target, CopyName(name), now, access)]
      case Drain(_, _) => Raised(Front(ops))
  }

  function Joined(batches: seq<seq<Alert>>): seq<Alert> {
    if batches == [] then [] else Joined(Front(batches)) + Last(batches)
  }

  lemma RaisedNext(ops: seq<Op>, op: Op)
    ensures Raised(ops + [op]) == Raised(ops) + if op.Raise? then [Alert(op.attackerPid, op.targetPid, CopyName(op.attackerName), op.now, op.access)] else []
  {
    assert Front(ops + [op]) == ops;
  }

  lemma RaisedNothing()
    ensures Raised([]) == [] && Joined([]) == []
  {}

  lemma MoveBracket<T>(x: seq<T>, y: seq<T>, z: seq<T>)
    ensures x + (y + z) == (x + y) + z && (x + y) + [] == x + y
  {}

  lemma JoinedNext(batches: seq<seq<Alert>>, b: seq<Alert>)
    ensures Joined(batches + [b]) == Joined(batches) + b
  {
    assert Front(batches + [b]) == batches;
  }

  /** Within one drain no alert is delivered twice: different slots hold different positions. */
  lemma OncePerDrain(n: nat, i: nat, j: nat)
    requires i != j && LastWriter(n, i) >= 0
    ensures LastWriter(n, i) != LastWriter(n, j)
  {}

  /** Over any run each alert belongs to exactly one drain, or is still waiting: the batches the drains
      deliver from, and the history left, split the alerts raised in order. */
  method Run(queue: Queue, ops: seq<Op>) returns (delivered: seq<seq<Alert>>, ghost batches: seq<seq<Alert>>)
    requires queue.Valid()
    modifies queue, queue.slots
    ensures queue.Valid()
    ensures Joined(batches) + queue.history == old(queue.history) + Raised(ops)
    ensures |delivered| == |batches|
    ensures forall k :: 0 <= k < |batches| ==> batches[k] != [] && delivered[k] == RingOf(batches[k])
  {
    hide RingOf, LastWriter, CopyName, Raised, Joined;
    ghost var start := queue.history;
    RaisedNothing();
    delivered, batches := [], [];
    assert Joined([]) + queue.history == queue.history + Raised([]);
    for i := 0 to |ops|
      invariant queue.Valid() && queue.slots == old(queue.slots)
      invariant Joined(batches) + queue.history == old(queue.history) + Raised(ops[..i])
      invariant |delivered| == |batches|
      invariant forall k :: 0 <= k < |batches| ==> batches[k] != [] && delivered[k] == RingOf(batches[k])
    {
      ghost var history := queue.history;
      assert ops[..i + 1] == ops[..i] + [ops[i]];
      RaisedNext(ops[..i], ops[i]);
      match ops[i] {
        case Raise(attacker, target, name, now, access) =>
          queue.AddSecurityAlert(attacker, target, name, now, access);
          MoveBracket(Joined(batches), history, [Alert(attacker, target, CopyName(name), now, access)]);
          MoveBracket(start, Raised(ops[..i]), [Alert(attacker, target, CopyName(name), now, access)]);
        case Drain(outputLength, queueSize) =>
          var result := queue.GetAlertQueue(outputLength, queueSize);
          if result.Drained? {
            JoinedNext(batches, history);
            MoveBracket(Joined(batches), history, []);
            delivered, batches := delivered + [result.alerts], batches + [history];
          }
      }
    }
    assert ops[..|ops|] == ops;
  }
}
