/** Message delivery: the two queues of a connection, and the promises of the rounds of a game. */
module Connections {
  import opened Basics

  /** One message leaving the queue of a connection: fetched, or handed to an observer. */
  datatype Delivery<+M, +C> = Fetched(message: M) | Observed(observer: C, message: M)

  ghost function Messages<M, C>(log: seq<Delivery<M, C>>): seq<M> {
    if log == [] then [] else Messages(log[..|log| - 1]) + [log[|log| - 1].message]
  }

  ghost function Observers<M, C>(log: seq<Delivery<M, C>>): seq<C> {
    if log == [] then []
    else Observers(log[..|log| - 1]) + if log[|log| - 1].Observed? then [log[|log| - 1].observer] else []
  }

  lemma LogGrows<M, C>(log: seq<Delivery<M, C>>, d: Delivery<M, C>)
    ensures Messages(log + [d]) == Messages(log) + [d.message]
    ensures Observers(log + [d]) == Observers(log) + if d.Observed? then [d.observer] else []
  {
    assert (log + [d])[..|log|] == log;
  }

  class TcpConnection<M(==), C(==)> {
    var observers: seq<C>
    var messages: seq<M>
    /** Everything received, every observer registered, and every delivery, each in order. */
    ghost var received: seq<M>
    ghost var registered: seq<C>
    ghost var log: seq<Delivery<M, C>>

    /** Messages leave in the order of arrival and observers in the order of registration, nothing is lost or
        delivered twice, and messages and observers are never both left waiting. */
    ghost predicate Valid()
      reads this
    {
      && received == Messages(log) + messages
      && registered == Observers(log) + observers
      && (messages == [] || observers == [])
    }

    /** In every reachable state delivery `k` has handed over the `k`-th message received, and the messages
        not yet delivered are the rest, in order. */
    lemma DeliveredInOrder(k: nat)
      requires Valid()
      ensures |log| <= |received| && messages == received[|log|..]
      ensures k < |log| ==> log[k].message == received[k]
    {
      if log != [] { MessagesAt(log, if k < |log| then k else 0); }
    }

    constructor ()
      ensures Valid() && received == [] && registered == [] && log == []
    {
      observers, messages, received, registered, log := [], [], [], [], [];
    }

    /** The earliest message, if one is waiting. */
    method Read() returns (m: Option<M>)
      requires Valid()
      modifies this
      ensures Valid() && received == old(received) && registered == old(registered)
      ensures m.None? <==> old(messages) == []
      ensures log == if m.None? then old(log) else old(log) + [Fetched(m.value)]
    {
      if messages == [] { return None; }
      m := Some(messages[0]);
      LogGrows(log, Fetched(messages[0]));
      log := log + [Fetched(messages[0])];
      messages := messages[1..];
    }

    /** Registers an observer. The result is the message to call it with at once, if one is waiting. */
    method ReadMessageAsync(callback: C) returns (m: Option<M>)
      requires Valid()
      modifies this
      ensures Valid() && received == old(received) && registered == old(registered) + [callback]
      ensures m.None? <==> old(messages) == []
      ensures log == if m.None? then old(log) else old(log) + [Observed(callback, m.value)]
    {
      registered := registered + [callback];
      if messages == [] {
        observers := observers + [callback];
        return None;
      }
      m := Some(messages[0]);
      LogGrows(log, Observed(callback, messages[0]));
      log := log + [Observed(callback, messages[0])];
      messages := messages[1..];
    }

    /** Takes in a message. The result is the observer to call with it, if one is waiting. */
    method ProcessMessage(message: M) returns (callback: Option<C>)
      requires Valid()
      modifies this
      ensures Valid() && received == old(received) + [message] && registered == old(registered)
      ensures callback.None? <==> old(observers) == []
      ensures log == if callback.None? then old(log) else old(log) + [Observed(callback.value, message)]
    {
      received := received + [message];
      if observers == [] {
        messages := messages + [message];
        return None;
      }
      callback := Some(observers[0]);
      LogGrows(log, Observed(observers[0], message));
      log := log + [Observed(observers[0], message)];
      observers := observers[1..];
    }
  }

  lemma {:induction false} MessagesAt<M, C>(log: seq<Delivery<M, C>>, k: nat)
    requires k < |log|
    ensures |Messages(log)| == |log| && Messages(log)[k] == log[k].message
    decreases |log|
  {
    var n := |log| - 1;
    if n > 0 { MessagesAt(log[..n], if k < n then k else 0); }
    if k == n && n == 0 { assert Messages(log[..0]) == []; }
  }

  // ----- Rounds -----

  /** A message of a player, with its round if it has one. */
  datatype Message = Message(round: Option<int>, action: string)

  /** What a player object sees: requests for the message of a round, and messages. */
  datatype Event = Requested(round: int) | Arrived(message: Message)

  /** The message that completes a promise for `round` made just before `events`:
      the first one of that round to arrive before the round is requested again. */
  function Answer(events: seq<Event>, round: int): Option<Message> {
    if events == [] then None
    else match events[0]
      case Requested(r) => if r == round then None else Answer(events[1..], round)
      case Arrived(m) => if m.round == Some(round) then Some(m) else Answer(events[1..], round)
  }

  /** The answer is the first message of the round, unless the round is requested again before it comes. */
  lemma {:induction false} AnswerExactly(events: seq<Event>, round: int, m: Message)
    ensures Answer(events, round) == Some(m) <==>
              m.round == Some(round) && exists i :: IsAnswerAt(events, round, m, i)
    decreases |events|
  {
    if events != [] {
      var e := events[0];
      AnswerExactly(events[1..], round, m);
      forall i | i > 0 && e != Requested(round) && (e.Arrived? ==> e.message.round != Some(round))
        ensures IsAnswerAt(events, round, m, i) <==> IsAnswerAt(events[1..], round, m, i - 1)
      {
        AnswerOneLater(events, round, m, i);
      }
      if j :| IsAnswerAt(events[1..], round, m, j) {
        assert e != Requested(round) && (e.Arrived? ==> e.message.round != Some(round)) ==> IsAnswerAt(events, round, m, j + 1);
      }
      if m.round == Some(round) && e == Arrived(m) { assert IsAnswerAt(events, round, m, 0); }
    }
  }

  ghost predicate IsAnswerAt(events: seq<Event>, round: int, m: Message, i: int) {
    && 0 <= i < |events| && events[i] == Arrived(m)
    && forall j :: 0 <= j < i ==> events[j] != Requested(round) && (events[j].Arrived? ==> events[j].message.round != Some(round))
  }

  lemma AnswerOneLater(events: seq<Event>, round: int, m: Message, i: int)
    requires events != [] && i > 0
    requires events[0] != Requested(round) && (events[0].Arrived? ==> events[0].message.round != Some(round))
    ensures IsAnswerAt(events, round, m, i) <==> IsAnswerAt(events[1..], round, m, i - 1)
  {
    if IsAnswerAt(events[1..], round, m, i - 1) {
      assert events[i] == events[1..][i - 1];
      forall j | 0 <= j < i
        ensures events[j] != Requested(round) && (events[j].Arrived? ==> events[j].message.round != Some(round))
      {
        if j > 0 { assert events[j] == events[1..][j - 1]; }
      }
    }
    if IsAnswerAt(events, round, m, i) {
      assert forall j :: 0 <= j < i - 1 ==> events[1..][j] == events[j + 1];
    }
  }

  /** A promise stays open as long as neither its message nor another request for its round has come. */
  predicate StillOpen(events: seq<Event>, round: int) {
    forall e <- events :: e != Requested(round) && (e.Arrived? ==> e.message.round != Some(round))
  }

  lemma {:induction false} AnswerAfterOneMore(events: seq<Event>, e: Event, round: int)
    ensures StillOpen(events, round) ==>
              Answer(events + [e], round) == if e.Arrived? && e.message.round == Some(round) then Some(e.message) else None
    ensures !StillOpen(events, round) ==> Answer(events + [e], round) == Answer(events, round)
    ensures StillOpen(events, round) ==> Answer(events, round) == None
    ensures StillOpen(events + [e], round) <==>
              StillOpen(events, round) && e != Requested(round) && (e.Arrived? ==> e.message.round != Some(round))
    decreases |events|
  {
    if events == [] {
      assert [] + [e] == [e];
    } else {
      AnswerAfterOneMore(events[1..], e, round);
      assert events == [events[0]] + events[1..];
      assert (events + [e])[0] == events[0] && (events + [e])[1..] == events[1..] + [e];
    }
  }

  /** A promise: the round it is for, where in the history it was made, and its value once it has been set. */
  datatype Promise = Promise(round: int, madeAt: nat, value: Option<Message>)

  /** The rounds that somebody waits for. */
  ghost function OpenRounds(history: seq<Event>): set<int> {
    if history == [] then {}
    else
      var before, e := OpenRounds(history[..|history| - 1]), history[|history| - 1];
      match e
      case Requested(r) => before + {r}
      case Arrived(m) => if m.round.Some? then before - {m.round.value} else before
  }

  /** The messages of a round that nobody was waiting for when they came. */
  ghost function Unclaimed(history: seq<Event>): seq<Message> {
    if history == [] then []
    else
      var before, e := history[..|history| - 1], history[|history| - 1];
      Unclaimed(before)
      + if e.Arrived? && e.message.round.Some? && e.message.round.value !in OpenRounds(before) then [e.message] else []
  }

  /** A round is open exactly if it was requested and no message of it has come since. */
  lemma {:induction false} OpenExactly(history: seq<Event>, round: int)
    ensures round in OpenRounds(history) <==> exists i :: IsOpenSince(history, round, i)
    decreases |history|
  {
    if history != [] {
      var n := |history| - 1;
      var before, e := history[..n], history[n];
      OpenExactly(before, round);
      forall i | 0 <= i < n ensures IsOpenSince(history, round, i) <==>
          IsOpenSince(before, round, i) && !(e.Arrived? && e.message.round == Some(round))
      {
        assert before[i] == history[i];
        assert forall j :: i < j < n ==> before[j] == history[j];
      }
      if e == Requested(round) { assert IsOpenSince(history, round, n); }
    }
  }

  ghost predicate IsOpenSince(history: seq<Event>, round: int, i: int) {
    && 0 <= i < |history| && history[i] == Requested(round)
    && forall j :: i < j < |history| ==> !(history[j].Arrived? && history[j].message.round == Some(round))
  }

  /** The messages put aside are those of rounds that were not open when they came. */
  lemma {:induction false} UnclaimedExactly(history: seq<Event>, m: Message)
    ensures m in Unclaimed(history) <==>
              m.round.Some? && exists i :: IsUnclaimedAt(history, m, i)
    decreases |history|
  {
    hide OpenRounds;
    if history != [] {
      var n := |history| - 1;
      var before := history[..n];
      UnclaimedExactly(before, m);
      forall i | 0 <= i < n ensures IsUnclaimedAt(before, m, i) <==> IsUnclaimedAt(history, m, i) {
        assert before[..i] == history[..i];
      }
      hide IsUnclaimedAt;
      LastUnclaimed(history, m);
      UnclaimedIsInside(history, m);
      UnclaimedIsInside(before, m);
    }
  }

  ghost predicate IsUnclaimedAt(history: seq<Event>, m: Message, i: int) {
    0 <= i < |history| && history[i] == Arrived(m) && m.round.Some? && m.round.value !in OpenRounds(history[..i])
  }

  lemma UnclaimedIsInside(history: seq<Event>, m: Message)
    ensures forall i :: IsUnclaimedAt(history, m, i) ==> 0 <= i < |history| && m.round.Some?
  {
  }

  lemma LastUnclaimed(history: seq<Event>, m: Message)
    requires history != []
    ensures m in Unclaimed(history) <==> m in Unclaimed(history[..|history| - 1]) || IsUnclaimedAt(history, m, |history| - 1)
  {
  }

  /** The value that the history gives to a promise. */
  ghost predicate Kept(p: Promise, history: seq<Event>) {
    p.madeAt <= |history| && p.value == Answer(history[p.madeAt..], p.round)
  }

  ghost predicate Pending(p: Promise, history: seq<Event>) {
    p.madeAt <= |history| && StillOpen(history[p.madeAt..], p.round)
  }

  lemma PromiseAfterOneMore(p: Promise, history: seq<Event>, e: Event)
    requires Kept(p, history)
    ensures Pending(p, history + [e]) <==>
              Pending(p, history) && e != Requested(p.round) && (e.Arrived? ==> e.message.round != Some(p.round))
    ensures Pending(p, history) && e.Arrived? && e.message.round == Some(p.round) ==>
              Kept(p.(value := Some(e.message)), history + [e])
    ensures !(Pending(p, history) && e.Arrived? && e.message.round == Some(p.round)) ==> Kept(p, history + [e])
  {
    assert (history + [e])[p.madeAt..] == history[p.madeAt..] + [e];
    AnswerAfterOneMore(history[p.madeAt..], e, p.round);
  }

  lemma NewPromise(round: int, history: seq<Event>)
    ensures Kept(Promise(round, |history|, None), history) && Pending(Promise(round, |history|, None), history)
  {
    assert history[|history|..] == [];
  }

  lemma HistoryGrows(history: seq<Event>, e: Event)
    ensures OpenRounds(history + [e]) ==
              if e.Requested? then OpenRounds(history) + {e.round}
              else if e.message.round.Some? then OpenRounds(history) - {e.message.round.value} else OpenRounds(history)
    ensures Unclaimed(history + [e]) == Unclaimed(history)
              + if e.Arrived? && e.message.round.Some? && e.message.round.value !in OpenRounds(history) then [e.message] else []
  {
    assert (history + [e])[..|history|] == history;
  }

  /** Each promise has the value that the history gives it, and the waiting rounds are those of the pending promises. */
  ghost predicate InBook(waiting: map<int, nat>, values: seq<Option<Message>>, promises: seq<Promise>, history: seq<Event>) {
    && |values| == |promises|
    && (forall i :: 0 <= i < |promises| ==> values[i] == promises[i].value && Kept(promises[i], history))
    && (forall r <- waiting :: waiting[r] < |promises| && promises[waiting[r]].round == r && Pending(promises[waiting[r]], history))
    && (forall i :: 0 <= i < |promises| && Pending(promises[i], history) ==>
          promises[i].round in waiting && waiting[promises[i].round] == i)
  }

  lemma RequestKeepsBook(waiting: map<int, nat>, values: seq<Option<Message>>, promises: seq<Promise>, history: seq<Event>, round: int)
    requires InBook(waiting, values, promises, history)
    ensures InBook(waiting[round := |promises|], values + [None], promises + [Promise(round, |history| + 1, None)],
                   history + [Requested(round)])
  {
    var e := Requested(round);
    var history', promises' := history + [e], promises + [Promise(round, |history| + 1, None)];
    NewPromise(round, history');
    forall i | 0 <= i < |promises|
      ensures Kept(promises[i], history')
      ensures Pending(promises[i], history') <==> Pending(promises[i], history) && promises[i].round != round
    {
      PromiseAfterOneMore(promises[i], history, e);
    }
    hide Kept, Pending;
    assert forall i :: 0 <= i < |promises| ==> promises'[i] == promises[i];
  }

  /** What the arrival of a message does to promise `i`. */
  lemma ArrivalAt(p: Promise, history: seq<Event>, m: Message)
    requires Kept(p, history)
    ensures Pending(p, history + [Arrived(m)]) <==> Pending(p, history) && m.round != Some(p.round)
    ensures m.round != Some(p.round) || !Pending(p, history) ==> Kept(p, history + [Arrived(m)])
    ensures m.round == Some(p.round) && Pending(p, history) ==>
              && p.value == None
              && Kept(p.(value := Some(m)), history + [Arrived(m)])
              && !Pending(p.(value := Some(m)), history + [Arrived(m)])
  {
    PromiseAfterOneMore(p, history, Arrived(m));
    AnswerAfterOneMore(history[p.madeAt..], Arrived(m), p.round);
  }

  /** A message that somebody waits for completes that promise, and closes its round. */
  lemma ArrivalCompletes(waiting: map<int, nat>, values: seq<Option<Message>>, promises: seq<Promise>,
                         history: seq<Event>, m: Message, round: int)
    requires InBook(waiting, values, promises, history) && m.round == Some(round) && round in waiting
    ensures waiting[round] < |promises| == |values| && promises[waiting[round]].value == None
    ensures InBook(waiting - {round}, values[waiting[round] := Some(m)],
                   promises[waiting[round] := promises[waiting[round]].(value := Some(m))], history + [Arrived(m)])
  {
    var i := waiting[round];
    forall k | 0 <= k < |promises| {
      ArrivalAt(promises[k], history, m);
    }
    hide Kept, Pending;
    assert promises[i].round == round && Pending(promises[i], history);
  }

  /** A message that nobody waits for leaves the promises alone. */
  lemma ArrivalIgnored(waiting: map<int, nat>, values: seq<Option<Message>>, promises: seq<Promise>,
                       history: seq<Event>, m: Message)
    requires InBook(waiting, values, promises, history) && forall r <- waiting :: m.round != Some(r)
    ensures InBook(waiting, values, promises, history + [Arrived(m)])
  {
    forall k | 0 <= k < |promises| {
      ArrivalAt(promises[k], history, m);
    }
    hide Kept, Pending;
  }

  class RoundBasedPlayer {
    /** The number of the promise that waits for each round. */
    var waitingRounds: map<int, nat>
    var waitingMessages: seq<Message>
    /** The values of all promises ever made, as their futures see them. */
    var values: seq<Option<Message>>
    ghost var promises: seq<Promise>
    ghost var history: seq<Event>

    /** Each promise has exactly the value that the history since it was made gives it, it is waited for exactly as
        long as it can still get one, and a message that nobody waits for is put aside. */
    ghost predicate Valid()
      reads this
    {
      && InBook(waitingRounds, values, promises, history)
      && waitingRounds.Keys == OpenRounds(history)
      && waitingMessages == Unclaimed(history)
    }

    constructor ()
      ensures Valid() && promises == [] && history == []
    {
      waitingRounds, waitingMessages, values, promises, history := map[], [], [], [], [];
    }

    /** A promise for the message of a round. An earlier promise for the same round is given up. */
    method GetRoundMessageAsync(round: int) returns (i: nat)
      requires Valid()
      modifies this
      ensures Valid() && history == old(history) + [Requested(round)]
      ensures i == |old(promises)| && promises == old(promises) + [Promise(round, |history|, None)]
    {
      HistoryGrows(history, Requested(round));
      RequestKeepsBook(waitingRounds, values, promises, history, round);
      hide InBook;
      BookIsComplete(waitingRounds, values, promises, history);
      i := |values|;
      history := history + [Requested(round)];
      values := values + [None];
      promises := promises + [Promise(round, |history|, None)];
      waitingRounds := waitingRounds[round := i];
    }

    /** Completes the promise of the message's round, or puts the message aside; messages without a round are dropped. */
    method ProcessMessage(message: Message)
      requires Valid()
      modifies this
      ensures Valid() && history == old(history) + [Arrived(message)]
      ensures |promises| == |old(promises)|
      ensures forall i :: 0 <= i < |promises| ==>
                promises[i] == old(promises)[i] ||
                (old(promises)[i].value == None && promises[i] == old(promises)[i].(value := Some(message)))
    {
      HistoryGrows(history, Arrived(message));
      hide InBook, OpenRounds, Unclaimed;
      if message.round.Some? {
        var round: int := message.round.value;
        if round in waitingRounds {
          ArrivalCompletes(waitingRounds, values, promises, history, message, round);
          var i := waitingRounds[round];
          values := values[i := Some(message)];
          promises := promises[i := promises[i].(value := Some(message))];
          waitingRounds := waitingRounds - {round};
        } else {
          ArrivalIgnored(waitingRounds, values, promises, history, message);
          waitingMessages := waitingMessages + [message];
        }
      } else {
        ArrivalIgnored(waitingRounds, values, promises, history, message);
      }
      history := history + [Arrived(message)];
    }
  }

  lemma BookIsComplete(waiting: map<int, nat>, values: seq<Option<Message>>, promises: seq<Promise>, history: seq<Event>)
    requires InBook(waiting, values, promises, history)
    ensures |values| == |promises|
    ensures forall i :: 0 <= i < |promises| ==> values[i] == promises[i].value && Kept(promises[i], history)
  {
  }

  // ----- Waiting for a round -----

  /** The first message of the round, if there is one. */
  function FirstOfRound(messages: seq<Message>, round: int): (r: Option<Message>)
    ensures r.None? ==> forall i :: 0 <= i < |messages| ==> messages[i].round != Some(round)
    ensures r.Some? ==>
              && r.value.round == Some(round)
              && exists i :: 0 <= i < |messages| && messages[i] == r.value && forall j :: 0 <= j < i ==> messages[j].round != Some(round)
  {
    if messages == [] then None
    else if messages[0].round == Some(round) then Some(messages[0])
    else FirstOfRound(messages[1..], round)
  }

  ghost function Arrivals(messages: seq<Message>): seq<Event> {
    seq(|messages|, i requires 0 <= i < |messages| => Arrived(messages[i]))
  }

  lemma {:induction false} AnswerIsFirst(messages: seq<Message>, round: int)
    ensures Answer(Arrivals(messages), round) == FirstOfRound(messages, round)
    decreases |messages|
  {
    if messages != [] {
      assert Arrivals(messages)[1..] == Arrivals(messages[1..]);
      AnswerIsFirst(messages[1..], round);
    }
  }

  /** Promise `i` is for `round` and was made when the history had `madeAt` events. */
  ghost predicate Made(player: RoundBasedPlayer, i: nat, round: int, madeAt: nat)
    reads player
  {
    i < |player.promises| && player.promises[i].round == round && player.promises[i].madeAt == madeAt
  }

  /** The messages that reach a player while promise `i` is waited for. */
  method Deliver(player: RoundBasedPlayer, messages: seq<Message>, ghost i: nat, ghost round: int, ghost madeAt: nat)
    requires player.Valid() && Made(player, i, round, madeAt)
    modifies player
    ensures player.Valid() && Made(player, i, round, madeAt)
    ensures player.history == old(player.history) + Arrivals(messages)
  {
    hide player.Valid;
    for k := 0 to |messages|
      invariant player.Valid() && Made(player, i, round, madeAt)
      invariant player.history == old(player.history) + Arrivals(messages[..k])
    {
      player.ProcessMessage(messages[k]);
      assert Arrivals(messages[..k + 1]) == Arrivals(messages[..k]) + [Arrived(messages[k])];
    }
    assert messages[..|messages|] == messages;
  }

  /** The value of a promise made last, after `inTime` has reached the player. */
  method Collect(player: RoundBasedPlayer, i: nat, round: int, inTime: seq<Message>) returns (message: Option<Message>)
    requires player.Valid() && Made(player, i, round, |player.history|)
    modifies player
    ensures player.Valid() && message == FirstOfRound(inTime, round)
  {
    ghost var madeAt := |player.history|;
    Deliver(player, inTime, i, round, madeAt);
    hide InBook;
    BookIsComplete(player.waitingRounds, player.values, player.promises, player.history);
    assert player.history[madeAt..] == Arrivals(inTime);
    assert Kept(player.promises[i], player.history);
    AnswerIsFirst(inTime, round);
    message := player.values[i];
  }

  /** One slot per player, in the order of the players: the first message of the round that came in time, or none.
      `inTime` lists what reaches each player between its request and the moment its promise is looked at. */
  method WaitForMessages(players: seq<RoundBasedPlayer>, round: int, inTime: seq<seq<Message>>)
      returns (messages: seq<Option<Message>>)
    requires |inTime| == |players| && forall p <- players :: p.Valid()
    requires forall i, j :: 0 <= i < j < |players| ==> players[i] != players[j]
    modifies players
    ensures forall p <- players :: p.Valid()
    ensures |messages| == |players|
    ensures forall i :: 0 <= i < |players| ==> messages[i] == FirstOfRound(inTime[i], round)
  {
    hide InBook, OpenRounds, Unclaimed;
    var futures: seq<nat> := [];
    for i := 0 to |players|
      invariant |futures| == i && forall k :: 0 <= k < |players| ==> players[k].Valid()
      invariant forall k :: 0 <= k < i ==> Made(players[k], futures[k], round, |players[k].history|)
    {
      var future := players[i].GetRoundMessageAsync(round);
      futures := futures + [future];
    }
    messages := [];
    for i := 0 to |players|
      invariant |messages| == i && forall k :: 0 <= k < |players| ==> players[k].Valid()
      invariant forall k :: i <= k < |players| ==> Made(players[k], futures[k], round, |players[k].history|)
      invariant forall k :: 0 <= k < i ==> messages[k] == FirstOfRound(inTime[k], round)
    {
      var message := Collect(players[i], futures[i], round, inTime[i]);
      messages := messages + [message];
    }
  }
}
