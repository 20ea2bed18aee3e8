/** The daemon's connection count and its level-triggered signal: a channel closed
    while nobody is connected, replaced when somebody connects again. */
module ConnTracking {

  /** Channels are numbered as they are made; closed holds those that have been closed. */
  datatype Tracker = Tracker(count: nat, done: nat, made: nat, closed: set<nat>)

  const FRESH := Tracker(0, 0, 1, {})

  function AddOne(t: Tracker): Tracker
  {
    if t.count == 0 && t.done in t.closed then t.(count := 1, done := t.made, made := t.made + 1)
    else t.(count := t.count + 1)
  }

  function RemoveOne(t: Tracker): Tracker
  {
    if t.count == 0 then t
    else if Closes(t) then t.(count := 0, closed := t.closed + {t.done})
    else t.(count := t.count - 1)
  }

  /** A Remove now would close the current channel. */
  predicate Closes(t: Tracker)
  {
    t.count == 1 && t.done !in t.closed
  }

  // ----- the tracker as an object

  class Channel {
    ghost const number: nat
    var closed: bool

    constructor (ghost number: nat)
      ensures this.number == number && !closed
    {
      this.number, closed := number, false;
    }

    /** Closing a closed channel panics, so a caller must know that it is open. */
    method Close()
      requires !closed
      modifies this
      ensures closed
    {
      closed := true;
    }
  }

  class ConnTracker {
    var count: nat
    var done: Channel
    ghost var made: seq<Channel>

    ghost predicate Valid()
      reads this, made
    {
      && made != [] && done == made[|made| - 1]
      && forall i | 0 <= i < |made| :: made[i].number == i
    }

    /** The tracker and every channel it ever made, as a value. */
    ghost function Value(): Tracker
      reads this, made
      requires Valid()
    {
      Tracker(count, |made| - 1, |made|, set i | 0 <= i < |made| && made[i].closed)
    }

    constructor ()
      ensures Valid() && Value() == FRESH && fresh(made)
    {
      var c := new Channel(0);
      count, done, made := 0, c, [c];
    }

    /** A connection arrives; a closed signal is replaced by a fresh one. */
    method Add()
      requires Valid()
      modifies this
      ensures Valid() && Value() == AddOne(old(Value()))
      ensures old(made) <= made && fresh(made[|old(made)|..])
      ensures count == old(count) + 1
      ensures old(count == 0 && done.closed) ==> fresh(done) && !done.closed
      ensures !old(count == 0 && done.closed) ==> done == old(done) && done.closed == old(done.closed)
    {
      if count == 0 {
        if done.closed {
          done := new Channel(|made|);
          made := made + [done];
        }
      }
      count := count + 1;
    }

    /** A connection goes; the last one closes the signal. */
    method Remove()
      requires Valid()
      modifies this`count, done
      ensures Valid() && Value() == RemoveOne(old(Value())) && made == old(made)
      ensures count == if old(count) == 0 then 0 else old(count) - 1
      ensures done == old(done) && done.closed == (old(done.closed) || old(count) == 1)
    {
      if count == 0 {
        return;
      }
      count := count - 1;
      if count == 0 {
        if !done.closed {
          done.Close();
        }
      }
    }

    method Count() returns (n: nat)
      requires Valid()
      ensures n == Value().count
    {
      n := count;
    }

    method Done() returns (c: Channel)
      requires Valid()
      ensures c in made && c.number == Value().done
    {
      c := done;
    }
  }

  // ----- clients and one waiter, interleaved

  /** Where the waiter is in its loop. The signal and the count are each read once, at
      different moments. */
  datatype Waiter = Asking | Waiting(channel: nat) | Grace | Counting | Gone(cancelled: bool)

  /** The whole system, with what has happened: whether anyone ever connected, whether the
      context was cancelled, and the channels closed so far in order. */
  datatype System = System(tracker: Tracker, waiter: Waiter, ever: bool, cancelled: bool, closings: seq<nat>)

  const START := System(FRESH, Asking, false, false, [])

  datatype Event = ClientAdds | ClientRemoves | ContextEnds
                 | WaiterAsks | WaiterWakes | WaiterTimesOut | WaiterCounts | WaiterGivesUp

  predicate Enabled(s: System, e: Event)
  {
    match e
    case ClientAdds => true
    case ClientRemoves => true
    case ContextEnds => true
    case WaiterAsks => s.waiter == Asking
    case WaiterWakes => s.waiter.Waiting? && s.waiter.channel in s.tracker.closed
    case WaiterTimesOut => s.waiter == Grace
    case WaiterCounts => s.waiter == Counting
    case WaiterGivesUp => (s.waiter.Waiting? || s.waiter == Grace) && s.cancelled
  }

  function Next(s: System, e: Event): System
    requires Enabled(s, e)
  {
    match e
    case ClientAdds => s.(tracker := AddOne(s.tracker), ever := true)
    case ClientRemoves =>
      s.(tracker := RemoveOne(s.tracker), closings := if Closes(s.tracker) then s.closings + [s.tracker.done] else s.closings)
    case ContextEnds => s.(cancelled := true)
    case WaiterAsks => s.(waiter := Waiting(s.tracker.done))
    case WaiterWakes => s.(waiter := Grace)
    case WaiterTimesOut => s.(waiter := Counting)
    case WaiterCounts => s.(waiter := if s.tracker.count == 0 then Gone(false) else Asking)
    case WaiterGivesUp => s.(waiter := Gone(true))
  }

  /** states is what the events do, one after another, from the start. */
  ghost predicate IsRun(states: seq<System>, events: seq<Event>)
  {
    && |states| == |events| + 1 && states[0] == START
    && forall i | 0 <= i < |events| :: Enabled(states[i], events[i]) && states[i + 1] == Next(states[i], events[i])
  }

  ghost predicate Sound(s: System)
  {
    var t := s.tracker;
    && t.made == t.done + 1
    && (forall c | c in t.closed :: c < t.made)
    && (forall c: nat | c < t.done :: c in t.closed)
    && (t.done in t.closed ==> t.count == 0)
    && (s.ever && t.count == 0 ==> t.done in t.closed)
    && (!s.ever ==> t.count == 0 && t.closed == {})
    && (forall i, j | 0 <= i < j < |s.closings| :: s.closings[i] != s.closings[j])
    && (forall c :: c in s.closings <==> c in t.closed)
    && (s.waiter.Waiting? ==> s.waiter.channel <= t.done)
    && (s.waiter == Grace || s.waiter == Counting || s.waiter == Gone(false) ==> s.ever)
    && (s.waiter == Gone(true) ==> s.cancelled)
  }

  lemma NextKeepsSound(s: System, e: Event)
    requires Sound(s) && Enabled(s, e)
    ensures Sound(Next(s, e))
  {
  }

  lemma {:induction false} RunIsSound(states: seq<System>, events: seq<Event>, k: nat)
    requires IsRun(states, events) && k < |states|
    ensures Sound(states[k])
  {
    hide Sound, Next;
    if k == 0 {
      assert Sound(START) by { StartIsSound(); }
    } else {
      RunIsSound(states, events, k - 1);
      NextKeepsSound(states[k - 1], events[k - 1]);
      assert states[(k - 1) + 1] == Next(states[k - 1], events[k - 1]);
    }
  }

  lemma StartIsSound()
    ensures Sound(START)
  {
  }

  /** How many clients are connected after some events, read off the events alone: a removal
      with nobody connected is ignored. */
  function Connected(events: seq<Event>): nat
  {
    if events == [] then 0
    else
      var n := Connected(events[..|events| - 1]);
      match events[|events| - 1]
      case ClientAdds => n + 1
      case ClientRemoves => if n == 0 then 0 else n - 1
      case _ => n
  }

  /** The stored count is the number of clients connected. */
  lemma {:induction false} CountIsConnected(states: seq<System>, events: seq<Event>, k: nat)
    requires IsRun(states, events) && k <= |events|
    ensures states[k].tracker.count == Connected(events[..k])
    ensures states[k].ever <==> ClientAdds in events[..k]
  {
    if k > 0 {
      CountIsConnected(states, events, k - 1);
      assert states[(k - 1) + 1] == Next(states[k - 1], events[k - 1]);
      assert events[..k][..k - 1] == events[..k - 1] && events[..k] == events[..k - 1] + [events[k - 1]];
    }
  }

  /** The signal, read off the events: closed exactly when somebody has connected and nobody is
      connected now. While somebody is, the waiter neither wakes on the current signal nor leaves
      on a count. */
  lemma SignalMeansEmpty(states: seq<System>, events: seq<Event>, k: nat)
    requires IsRun(states, events) && k <= |events|
    ensures states[k].tracker.done in states[k].tracker.closed <==> ClientAdds in events[..k] && Connected(events[..k]) == 0
    ensures k < |events| && events[k] == WaiterWakes ==>
              states[k].waiter.Waiting? && states[k].waiter.channel in states[k].tracker.closed
              && (states[k].waiter.channel == states[k].tracker.done ==> Connected(events[..k]) == 0)
    ensures k < |events| && events[k] == WaiterCounts ==> (states[k + 1].waiter == Gone(false) <==> Connected(events[..k]) == 0)
  {
    CountIsConnected(states, events, k);
    SignalIsRight(states, events, k);
  }

  /** The waiter's loop: it asks for the current signal, wakes only if that is closed, lets the
      grace period pass, and then counts; cancelled, it leaves while it waits. Its steps leave the
      tracker alone, and it does not move in a client's. */
  lemma WaiterLoop(states: seq<System>, events: seq<Event>, k: nat)
    requires IsRun(states, events) && k < |events|
    ensures events[k].WaiterAsks? ==> states[k].waiter == Asking && states[k + 1].waiter == Waiting(states[k].tracker.done)
    ensures events[k].WaiterWakes? ==> states[k].waiter.Waiting? && states[k].waiter.channel in states[k].tracker.closed
                                       && states[k + 1].waiter == Grace
    ensures events[k].WaiterTimesOut? ==> states[k].waiter == Grace && states[k + 1].waiter == Counting
    ensures events[k].WaiterCounts? ==> states[k].waiter == Counting && states[k + 1].waiter in {Asking, Gone(false)}
    ensures events[k].WaiterGivesUp? ==> (states[k].waiter.Waiting? || states[k].waiter == Grace) && ContextEnds in events[..k]
                                         && states[k + 1].waiter == Gone(true)
    ensures events[k].ClientAdds? || events[k].ClientRemoves? || events[k].ContextEnds? ==> states[k + 1].waiter == states[k].waiter
    ensures !events[k].ClientAdds? && !events[k].ClientRemoves? ==> states[k + 1].tracker == states[k].tracker
  {
    assert states[k + 1] == Next(states[k], events[k]);
    CancelledByContext(states, events, k);
  }

  lemma {:induction false} CancelledByContext(states: seq<System>, events: seq<Event>, k: nat)
    requires IsRun(states, events) && k <= |events|
    ensures states[k].cancelled <==> ContextEnds in events[..k]
  {
    if k > 0 {
      CancelledByContext(states, events, k - 1);
      assert states[(k - 1) + 1] == Next(states[k - 1], events[k - 1]);
      assert events[..k] == events[..k - 1] + [events[k - 1]];
    }
  }

  /** At every moment of every interleaving: a closed signal means nobody is connected, a count
      back at zero has a closed signal, no channel is ever closed twice, and a waiter that is
      waiting on an open channel holds the current one, so the next drop to zero wakes it. */
  lemma SignalIsRight(states: seq<System>, events: seq<Event>, k: nat)
    requires IsRun(states, events) && k < |states|
    ensures var s := states[k]; var t := s.tracker;
            && (t.done in t.closed <==> t.count == 0 && s.ever)
            && (forall i, j | 0 <= i < j < |s.closings| :: s.closings[i] != s.closings[j])
            && (s.waiter.Waiting? && s.waiter.channel !in t.closed ==> s.waiter.channel == t.done)
            && (s.waiter.Waiting? && s.ever && t.count == 0 ==> Enabled(s, WaiterWakes))
            && (s.waiter == Asking && t.count > 0 ==> Next(s, WaiterAsks).waiter.channel !in t.closed)
  {
    RunIsSound(states, events, k);
  }

  /** The waiter leaves uncancelled only in a step that reads a count of zero, after somebody
      had connected; it leaves cancelled only if the context ended. */
  lemma {:induction false} LeavesOnlyAtZero(states: seq<System>, events: seq<Event>, k: nat)
    requires IsRun(states, events) && k < |states| && states[k].waiter.Gone?
    ensures states[k].waiter.cancelled ==> states[k].cancelled
    ensures !states[k].waiter.cancelled ==>
              exists j :: 0 <= j < k && events[j] == WaiterCounts && states[j].tracker.count == 0 && states[j].ever
  {
    RunIsSound(states, events, k);
    if k > 0 {
      assert states[(k - 1) + 1] == Next(states[k - 1], events[k - 1]);
      RunIsSound(states, events, k - 1);
      if states[k - 1].waiter.Gone? {
        LeavesOnlyAtZero(states, events, k - 1);
      } else if !states[k].waiter.cancelled {
        assert events[k - 1] == WaiterCounts;
      }
    }
  }

  /** A client that is connected when the waiter counts sends it back to waiting, on a channel
      that is still open; nothing the waiter does changes the tracker. */
  lemma ZeroWasTransient(states: seq<System>, events: seq<Event>, k: nat)
    requires IsRun(states, events) && k < |states| && states[k].waiter == Counting && states[k].tracker.count > 0
    ensures var s := Next(Next(states[k], WaiterCounts), WaiterAsks);
            s.tracker == states[k].tracker && s.waiter.Waiting? && s.waiter.channel !in s.tracker.closed
  {
    RunIsSound(states, events, k);
  }

  /** The wait ends on a count exactly when the signal current at that moment is closed,
      whatever happened during the grace period. */
  lemma CountDecides(states: seq<System>, events: seq<Event>, k: nat)
    requires IsRun(states, events) && k < |events| && events[k] == WaiterCounts
    ensures states[k + 1].waiter.Gone? <==> states[k].tracker.done in states[k].tracker.closed
    ensures states[k + 1].waiter.Gone? ==> !states[k + 1].waiter.cancelled
  {
    RunIsSound(states, events, k);
  }

  /** From any moment after the first connection, nobody is connected through to a later one
      exactly when the signal was closed then and is still the same one. */
  lemma {:induction false} QuietExactly(states: seq<System>, events: seq<Event>, j: nat, k: nat)
    requires IsRun(states, events) && j <= k < |states| && states[j].ever
    ensures states[k].ever && states[j].tracker.done <= states[k].tracker.done
    ensures (forall i | j <= i <= k :: states[i].tracker.count == 0)
        <==> states[j].tracker.done in states[j].tracker.closed && states[k].tracker.done == states[j].tracker.done
    decreases k - j
  {
    hide Sound;
    if j == k {
      SignalIsRight(states, events, j);
    } else {
      QuietExactly(states, events, j, k - 1);
      assert states[(k - 1) + 1] == Next(states[k - 1], events[k - 1]);
      SignalIsRight(states, events, k - 1);
      SignalIsRight(states, events, k);
      SignalCurrent(states, events, k - 1);
    }
  }

  /** Only the newest channel can be open, so a signal left behind stays closed. */
  lemma SignalCurrent(states: seq<System>, events: seq<Event>, k: nat)
    requires IsRun(states, events) && k < |states|
    ensures states[k].tracker.made == states[k].tracker.done + 1
  {
    RunIsSound(states, events, k);
  }

  /** The wait that ends on a count kept its promise, nobody connected from waking to counting,
      exactly when the waiter would have read the same closed signal at both ends of the grace
      period; reading the count alone at the end does not tell. */
  lemma GraceKept(states: seq<System>, events: seq<Event>, j: nat, k: nat)
    requires IsRun(states, events) && j < k < |events|
    requires events[j] == WaiterWakes && events[k] == WaiterCounts
    ensures (forall i | j < i <= k :: states[i].tracker.count == 0)
        <==> states[j + 1].tracker.done in states[j + 1].tracker.closed && states[k].tracker.done == states[j + 1].tracker.done
    ensures (forall i | j < i <= k :: states[i].tracker.count == 0) ==> states[k + 1].waiter == Gone(false)
  {
    RunIsSound(states, events, j + 1);
    assert states[j + 1].waiter == Grace;
    QuietExactly(states, events, j + 1, k);
  }

  /** So a client that comes and goes within the grace period does not prolong the wait. */
  lemma BriefClientMissed() returns (states: seq<System>, events: seq<Event>)
    ensures IsRun(states, events)
    ensures |states| == 9 && states[4].waiter == Grace && states[5].waiter == Grace && states[5].tracker.count == 1
    ensures states[8].waiter == Gone(false)
  {
    events := [ClientAdds, ClientRemoves, WaiterAsks, WaiterWakes, ClientAdds, ClientRemoves, WaiterTimesOut, WaiterCounts];
    var s1 := Next(START, ClientAdds);
    var s2 := Next(s1, ClientRemoves);
    var s3 := Next(s2, WaiterAsks);
    var s4 := Next(s3, WaiterWakes);
    var s5 := Next(s4, ClientAdds);
    var s6 := Next(s5, ClientRemoves);
    var s7 := Next(s6, WaiterTimesOut);
    states := [START, s1, s2, s3, s4, s5, s6, s7, Next(s7, WaiterCounts)];
  }
}
