/** The tick loop of NavigationNotificationService: the service owns the counter
    mNotificationCount and a Handler whose message queue holds the pending
    MSG_SEND_NOTIFICATION messages. onStartCommand shows the notification for the current
    count and queues one message; each delivered message shows the current count, increments
    it and queues the next one; onDestroy removes the pending messages.

    The queue is the sequence of the `what` codes of the pending messages, oldest first; the
    one-second delay is not modelled, so a message sent during a delivery goes to the back.
    What the service hands to the notification manager is recorded in `posted`, as the count
    each notification was built from (GetDirectionInfo gives its content). */
module NavigationService {
  import opened Directions

  /** The `what` code of the service's only message. */
  const MsgSendNotification := 1

  /** Service.START_NOT_STICKY, the value onStartCommand returns. */
  const StartNotSticky := 2

  const IntMin := -0x8000_0000
  const IntMax := 0x7fff_ffff
  const IntRange := 0x1_0000_0000

  /** The Java int that the mathematical integer i wraps to. */
  function Wrap32(i: int): (c: int)
    ensures IntMin <= c <= IntMax
    ensures (c - i) % IntRange == 0
  {
    var m := i % IntRange;
    if m <= IntMax then m else m - IntRange
  }

  /** Java's ++ on an int: the largest int steps to the smallest. */
  function Increment(c: int): (r: int)
    ensures IntMin <= c <= IntMax ==> IntMin <= r <= IntMax && (r - (c + 1)) % IntRange == 0
  {
    if c == IntMax then IntMin else c + 1
  }

  /** Incrementing the int that i wraps to gives the int that i + 1 wraps to. */
  lemma IncrementWraps(i: nat)
    ensures Increment(Wrap32(i)) == Wrap32(i + 1)
  {
    var m := i % IntRange;
    assert (i + 1) % IntRange == if m == IntRange - 1 then 0 else m + 1;
  }

  /** A notification handed to the platform: the first one through startForeground, the
      later ones through NotificationManagerCompat.notify; each built from a count. */
  datatype Post = StartForeground(count: int) | Notify(count: int)

  /** What a posted notification shows. */
  function Shown(p: Post): DirectionInfo {
    GetDirectionInfo(p.count)
  }

  /** The counts of the notify posts of log, in order. */
  function Notified(log: seq<Post>): (r: seq<int>)
    ensures |r| <= |log|
  {
    if log == [] then []
    else (if log[0].Notify? then [log[0].count] else []) + Notified(log[1..])
  }

  /** A count occurs in Notified(log) exactly when log holds a notify post of that count. */
  lemma {:induction false} NotifiedMembers(log: seq<Post>)
    ensures forall c :: c in Notified(log) <==> Notify(c) in log
  {
    if log != [] {
      NotifiedMembers(log[1..]);
      assert log == [log[0]] + log[1..];
    }
  }

  lemma {:induction false} NotifiedAppend(a: seq<Post>, b: seq<Post>)
    ensures Notified(a + b) == Notified(a) + Notified(b)
  {
    if a == [] {
      assert a + b == b;
    } else {
      var head := if a[0].Notify? then [a[0].count] else [];
      assert (a + b)[0] == a[0];
      assert (a + b)[1..] == a[1..] + b;
      NotifiedAppend(a[1..], b);
      calc {
        Notified(a + b);
        head + Notified(a[1..] + b);
        head + (Notified(a[1..]) + Notified(b));
        (head + Notified(a[1..])) + Notified(b);
      }
    }
  }

  /** How many messages with code what are pending in q. */
  function Occurrences(q: seq<int>, what: int): nat {
    if q == [] then 0 else (if q[0] == what then 1 else 0) + Occurrences(q[1..], what)
  }

  lemma {:induction false} OccurrencesAppend(a: seq<int>, b: seq<int>, what: int)
    ensures Occurrences(a + b, what) == Occurrences(a, what) + Occurrences(b, what)
  {
    if a == [] {
      assert a + b == b;
    } else {
      assert (a + b)[1..] == a[1..] + b;
      OccurrencesAppend(a[1..], b, what);
    }
  }

  /** Handler.removeMessages(what): drops every pending message with code what and keeps the
      others, in order. */
  function RemoveMessages(q: seq<int>, what: int): (r: seq<int>)
    ensures forall x :: x in r <==> x in q && x != what
    ensures |r| + Occurrences(q, what) == |q|
    ensures forall x :: x != what ==> Occurrences(r, x) == Occurrences(q, x)
  {
    if q == [] then []
    else
      var rest := RemoveMessages(q[1..], what);
      assert q == [q[0]] + q[1..];
      if q[0] == what then rest
      else
        assert forall x :: Occurrences([q[0]] + rest, x) == Occurrences([q[0]], x) + Occurrences(rest, x) by {
          forall x { OccurrencesAppend([q[0]], rest, x); }
        }
        [q[0]] + rest
  }

  /** removeMessages works message by message: on a queue split in two it removes from each
      part and keeps the parts in order; a message with another code is kept in place. */
  lemma {:induction false} RemoveMessagesAppend(a: seq<int>, b: seq<int>, what: int)
    ensures RemoveMessages(a + b, what) == RemoveMessages(a, what) + RemoveMessages(b, what)
    ensures forall x :: x != what ==> RemoveMessages([x], what) == [x]
  {
    if a != [] {
      assert (a + b)[1..] == a[1..] + b;
      RemoveMessagesAppend(a[1..], b, what);
    } else {
      assert a + b == b;
    }
    forall x | x != what ensures RemoveMessages([x], what) == [x] {
      assert [x][1..] == [];
    }
  }

  class NotificationService {
    /** mNotificationCount: the number of notify posts so far, as a Java int. */
    var count: int
    /** The codes of the messages pending in the Handler's queue, oldest first. */
    var queue: seq<int>
    /** Everything posted to the platform so far, oldest first. */
    var posted: seq<Post>

    /** The counter is the number of notify posts so far (wrapped to a Java int), and the
        i-th notify post was built from count i. */
    ghost predicate Valid()
      reads this
      ensures Valid() ==> IntMin <= count <= IntMax
      ensures Valid() && |Notified(posted)| <= IntMax ==> count == |Notified(posted)|
    {
      && count == Wrap32(|Notified(posted)|)
      && forall i :: 0 <= i < |Notified(posted)| ==> Notified(posted)[i] == Wrap32(i)
    }

    constructor ()
      ensures Valid()
      ensures count == 0 && queue == [] && posted == []
    {
      count := 0;
      queue := [];
      posted := [];
    }

    /** onStartCommand: shows the current count as the foreground notification without
        incrementing it and queues one MSG_SEND_NOTIFICATION. */
    method OnStartCommand() returns (mode: int)
      requires Valid()
      modifies this
      ensures Valid()
      ensures mode == StartNotSticky
      ensures count == old(count)
      ensures queue == old(queue) + [MsgSendNotification]
      ensures posted == old(posted) + [StartForeground(old(count))]
    {
      NotifiedAppend(posted, [StartForeground(count)]);
      posted := posted + [StartForeground(count)];
      queue := queue + [MsgSendNotification];
      mode := StartNotSticky;
    }

    /** HandlerCallback.handleMessage: for MSG_SEND_NOTIFICATION, notifies with the current
        count, increments it and queues the next message; any other message is not handled. */
    method HandleMessage(what: int) returns (handled: bool)
      requires Valid()
      modifies this
      ensures Valid()
      ensures handled <==> what == MsgSendNotification
      ensures handled ==>
                && count == Increment(old(count))
                && queue == old(queue) + [MsgSendNotification]
                && posted == old(posted) + [Notify(old(count))]
      ensures !handled ==> count == old(count) && queue == old(queue) && posted == old(posted)
    {
      if what == MsgSendNotification {
        NotifiedAppend(posted, [Notify(count)]);
        IncrementWraps(|Notified(posted)|);
        posted := posted + [Notify(count)];
        count := Increment(count);
        queue := queue + [MsgSendNotification];
        handled := true;
      } else {
        handled := false;
      }
    }

    /** onDestroy: removes every pending MSG_SEND_NOTIFICATION; the counter is left alone. */
    method OnDestroy()
      requires Valid()
      modifies this
      ensures Valid()
      ensures queue == RemoveMessages(old(queue), MsgSendNotification)
      ensures MsgSendNotification !in queue
      ensures count == old(count) && posted == old(posted)
    {
      queue := RemoveMessages(queue, MsgSendNotification);
    }

    /** The Handler's Looper: takes the oldest pending message off the queue and hands it to
        handleMessage. Delivery never changes how many ticks are pending, and with no tick
        pending it changes neither the counter nor what was posted. */
    method DeliverNext() returns (delivered: bool)
      requires Valid()
      modifies this
      ensures Valid()
      ensures delivered <==> old(queue) != []
      ensures !delivered ==> count == old(count) && queue == old(queue) && posted == old(posted)
      ensures delivered && old(queue)[0] == MsgSendNotification ==>
                && count == Increment(old(count))
                && queue == old(queue)[1..] + [MsgSendNotification]
                && posted == old(posted) + [Notify(old(count))]
      ensures delivered && old(queue)[0] != MsgSendNotification ==>
                count == old(count) && queue == old(queue)[1..] && posted == old(posted)
      ensures Occurrences(queue, MsgSendNotification) == Occurrences(old(queue), MsgSendNotification)
      ensures MsgSendNotification !in old(queue) ==> count == old(count) && posted == old(posted)
    {
      if queue == [] {
        return false;
      }
      var q := queue;
      var head := q[0];
      assert q == [head] + q[1..];
      OccurrencesAppend([head], q[1..], MsgSendNotification);
      OccurrencesAppend(q[1..], [MsgSendNotification], MsgSendNotification);
      queue := q[1..];
      var handled := HandleMessage(head);
      delivered := true;
    }
  }

  /** Starting the service, delivering two ticks and destroying it: the first tick shows
      count 0 a second time, the second shows count 1, nothing is left pending and a further
      delivery finds nothing to do. */
  method StartTwoTicksDestroy() returns (posted: seq<Post>, count: int, pending: seq<int>)
    ensures posted == [StartForeground(0), Notify(0), Notify(1)]
    ensures Shown(posted[0]) == Shown(posted[1])
    ensures count == 2 && pending == []
  {
    var service := new NotificationService();
    var mode := service.OnStartCommand();
    var delivered := service.DeliverNext();
    delivered := service.DeliverNext();
    service.OnDestroy();
    delivered := service.DeliverNext();
    assert !delivered;
    posted, count, pending := service.posted, service.count, service.queue;
  }
}
