/** The lobby: connections wait for a join message, matches fill up one by one and are started when full. */
module Lobby {
  import opened Basics

  /** A connection is known by the number that the lobby gave it. */
  type PlayerId = nat

  /** A match that was created for a number of players, with those that have joined. */
  datatype Match = Match(numPlayers: int, players: seq<PlayerId>) {
    predicate IsFull() {
      |players| == numPlayers
    }

    /** The same options as asked for, if those are legal at all. */
    predicate CheckOptionsCompatibility(asked: int) {
      IsLegal(asked) && numPlayers == asked
    }
  }

  /** A message that arrives on a waiting connection: a request to join, with the number of players asked for, or not. */
  datatype Request = JoinGame(numPlayers: int) | Other

  predicate IsLegal(numPlayers: int) {
    1 <= numPlayers <= 4
  }

  /** Where a connection is. */
  datatype Place = Waiting | Playing(matchId: nat) | Finished(matchId: nat)

  type Matches = map<nat, Match>
  type Places = map<PlayerId, Place>

  /** The place of every connection agrees with the tables of the lobby. */
  ghost predicate PlacesAgree(place: Places, waiting: set<PlayerId>, matches: Matches, started: set<nat>) {
    && (forall p :: p in waiting <==> p in place && place[p] == Waiting)
    && (forall m, p :: m in matches ==> (p in matches[m].players <==> p in place && place[p] == Playing(m)))
    && (forall p <- place :: place[p].Playing? ==> place[p].matchId in matches)
    && (forall p <- place :: place[p].Finished? ==> place[p].matchId !in matches && place[p].matchId in started)
  }

  ghost predicate WellFormed(m: Match) {
    && IsLegal(m.numPlayers) && 0 < |m.players| <= m.numPlayers
    && forall i, j :: 0 <= i < j < |m.players| ==> m.players[i] != m.players[j]
  }

  /** Matches hold no more players than they are for, and exactly the full ones have been started. */
  ghost predicate MatchesInOrder(matches: Matches, started: set<nat>) {
    forall m <- matches :: WellFormed(matches[m]) && (m in started <==> matches[m].IsFull())
  }

  ghost predicate IsOpen(matches: Matches, m: nat) {
    m in matches && !matches[m].IsFull()
  }

  /** No two open matches are for the same number of players. */
  ghost predicate OpenMatchesDiffer(matches: Matches) {
    forall m, n :: IsOpen(matches, m) && IsOpen(matches, n) && m != n ==> matches[m].numPlayers != matches[n].numPlayers
  }

  /** The matches with one more player in `m`. */
  function Joined(matches: Matches, m: nat, player: PlayerId): Matches
    requires m in matches
  {
    matches[m := matches[m].(players := matches[m].players + [player])]
  }

  /** The started matches after `m` got another player. */
  function StartedAfter(matches: Matches, started: set<nat>, m: nat): set<nat>
    requires m in matches
  {
    if matches[m].IsFull() then started + {m} else started
  }

  lemma JoiningAgrees(place: Places, waiting: set<PlayerId>, matches: Matches, started: set<nat>, player: PlayerId, m: nat)
    requires PlacesAgree(place, waiting, matches, started) && player in waiting && m in matches
    ensures PlacesAgree(place[player := Playing(m)], waiting - {player}, Joined(matches, m, player),
                        StartedAfter(Joined(matches, m, player), started, m))
  {
    var matches' := Joined(matches, m, player);
    assert forall p :: p in matches'[m].players <==> p in matches[m].players || p == player;
  }

  lemma NewMatchAgrees(place: Places, waiting: set<PlayerId>, matches: Matches, started: set<nat>, m: nat, n: int)
    requires PlacesAgree(place, waiting, matches, started) && m !in matches && m !in started
    ensures PlacesAgree(place, waiting, matches[m := Match(n, [])], started)
  {
  }

  lemma JoinedStarts(matches: Matches, started: set<nat>, player: PlayerId, m: nat)
    requires m in matches && m !in started
    ensures m in StartedAfter(Joined(matches, m, player), started, m) <==> |matches[m].players| + 1 == matches[m].numPlayers
    ensures Joined(matches, m, player)[m] == Match(matches[m].numPlayers, matches[m].players + [player])
    ensures forall k :: k != m ==>
              (k in Joined(matches, m, player) <==> k in matches)
              && (k in matches ==> Joined(matches, m, player)[k] == matches[k])
  {
  }

  /** A new connection waits. */
  lemma WaitingAgrees(place: Places, waiting: set<PlayerId>, matches: Matches, started: set<nat>, id: PlayerId)
    requires PlacesAgree(place, waiting, matches, started) && id !in place
    ensures PlacesAgree(place[id := Waiting], waiting + {id}, matches, started)
  {
  }

  /** Joining keeps the matches in order, be it an open one or a new one that nobody has joined yet. */
  lemma JoiningKeepsOrder(matches: Matches, started: set<nat>, player: PlayerId, m: nat)
    requires m in matches && m !in started && IsLegal(matches[m].numPlayers) && |matches[m].players| < matches[m].numPlayers
    requires MatchesInOrder(matches - {m}, started) && OpenMatchesDiffer(matches)
    requires matches[m].players == [] || WellFormed(matches[m])
    requires player !in matches[m].players
    ensures var matches' := Joined(matches, m, player);
            MatchesInOrder(matches', StartedAfter(matches', started, m)) && OpenMatchesDiffer(matches')
  {
    var matches' := Joined(matches, m, player);
    forall k | k in matches'
      ensures WellFormed(matches'[k]) && (k in StartedAfter(matches', started, m) <==> matches'[k].IsFull())
    {
      if k != m { assert k in matches - {m} && matches'[k] == (matches - {m})[k]; }
    }
    assert forall k :: IsOpen(matches', k) ==> IsOpen(matches, k) && matches'[k].numPlayers == matches[k].numPlayers;
  }

  lemma NewMatchDiffers(matches: Matches, started: set<nat>, m: nat, n: int)
    requires MatchesInOrder(matches, started) && OpenMatchesDiffer(matches) && m !in matches
    requires IsLegal(n)
    requires forall k <- matches :: matches[k].IsFull() || !matches[k].CheckOptionsCompatibility(n)
    ensures var matches' := matches[m := Match(n, [])];
            MatchesInOrder(matches' - {m}, started) && OpenMatchesDiffer(matches')
  {
    assert matches[m := Match(n, [])] - {m} == matches;
  }

  lemma OpenMatchIsReady(matches: Matches, started: set<nat>, m: nat)
    requires MatchesInOrder(matches, started) && IsOpen(matches, m)
    ensures MatchesInOrder(matches - {m}, started) && m !in started && WellFormed(matches[m])
  {
  }

  lemma NotYetPlaying(place: Places, waiting: set<PlayerId>, matches: Matches, started: set<nat>, player: PlayerId, m: nat)
    requires PlacesAgree(place, waiting, matches, started) && player in waiting && m in matches
    ensures player !in matches[m].players
  {
  }

  lemma WaitingIsPlaced(place: Places, waiting: set<PlayerId>, matches: Matches, started: set<nat>, player: PlayerId)
    requires PlacesAgree(place, waiting, matches, started) && player in waiting
    ensures player in place
  {
  }

  lemma JoiningKeepsNumbers(matches: Matches, started: set<nat>, player: PlayerId, m: nat, counter: nat)
    requires m in matches && forall k :: k in matches || k in started ==> 1 <= k <= counter
    ensures m in Joined(matches, m, player)
    ensures forall k :: k in Joined(matches, m, player) || k in StartedAfter(Joined(matches, m, player), started, m) ==> 1 <= k <= counter
  {
  }

  /** The places after match `m` is over. */
  ghost function After(place: Places, m: nat): Places {
    map p | p in place :: if place[p] == Playing(m) then Finished(m) else place[p]
  }

  lemma FinishingKeepsOrder(place: Places, waiting: set<PlayerId>, matches: Matches, started: set<nat>, m: nat)
    requires PlacesAgree(place, waiting, matches, started) && MatchesInOrder(matches, started) && OpenMatchesDiffer(matches)
    requires m in matches && m in started
    ensures PlacesAgree(After(place, m), waiting, matches - {m}, started)
    ensures MatchesInOrder(matches - {m}, started) && OpenMatchesDiffer(matches - {m})
  {
    assert forall k :: IsOpen(matches - {m}, k) ==> IsOpen(matches, k) && (matches - {m})[k] == matches[k];
  }

  class SequentialLobby {
    var waitingPlayers: set<PlayerId>
    var matches: Matches
    var started: set<nat>
    var playerIdCounter: nat
    var matchIdCounter: nat
    /** The one place of each connection ever made. */
    ghost var place: Places

    /** Numbers were given out in order. */
    ghost predicate NumbersGiven()
      reads this
    {
      && (forall p :: p in place ==> p <= playerIdCounter)
      && (forall m :: m in matches || m in started ==> 1 <= m <= matchIdCounter)
    }

    ghost predicate Valid()
      reads this
    {
      && NumbersGiven()
      && PlacesAgree(place, waitingPlayers, matches, started)
      && MatchesInOrder(matches, started) && OpenMatchesDiffer(matches)
    }

    constructor ()
      ensures Valid() && place == map[] && matches == map[] && started == {}
    {
      waitingPlayers, matches, started, playerIdCounter, matchIdCounter := {}, map[], {}, 0, 0;
      place := map[];
    }

    /** A new connection waits for its first message. */
    method AddPlayer() returns (id: PlayerId)
      requires Valid()
      modifies this
      ensures Valid() && id !in old(place) && place == old(place)[id := Waiting]
      ensures matches == old(matches) && started == old(started)
    {
      hide PlacesAgree, MatchesInOrder, OpenMatchesDiffer;
      playerIdCounter := playerIdCounter + 1;
      id := playerIdCounter;
      WaitingAgrees(place, waitingPlayers, matches, started, id);
      waitingPlayers := waitingPlayers + {id};
      place := place[id := Waiting];
    }

    /** The first match, by number, that is open and for the number of players asked for. */
    method FindCandidate(asked: int) returns (found: Option<nat>)
      requires Valid()
      ensures found.Some? ==>
                && found.value in matches && !matches[found.value].IsFull()
                && matches[found.value].CheckOptionsCompatibility(asked)
      ensures found.None? ==>
                forall m <- matches :: matches[m].IsFull() || !matches[m].CheckOptionsCompatibility(asked)
    {
      for m := 1 to matchIdCounter + 1
        invariant forall k <- matches :: k < m ==> matches[k].IsFull() || !matches[k].CheckOptionsCompatibility(asked)
      {
        if m in matches && !matches[m].IsFull() && matches[m].CheckOptionsCompatibility(asked) {
          return Some(m);
        }
      }
      return None;
    }

    /** Moves a waiting player to a match, which is started if that makes it full. */
    method AssignPlayer(player: PlayerId, m: nat)
      requires m in matches
      modifies this`waitingPlayers, this`matches, this`started, this`place
      ensures waitingPlayers == old(waitingPlayers) - {player} && place == old(place)[player := Playing(m)]
      ensures matches == Joined(old(matches), m, player)
      ensures started == StartedAfter(matches, old(started), m)
    {
      matches := matches[m := matches[m].(players := matches[m].players + [player])];
      waitingPlayers := waitingPlayers - {player};
      place := place[player := Playing(m)];
      if matches[m].IsFull() {
        started := started + {m};
      }
    }

    /** A message from a waiting player. Only a legal request to join gets it into a match, and into exactly one;
        that match is started exactly if it has become full. */
    method JoinRequest(player: PlayerId, request: Request) returns (joined: Option<nat>)
      requires Valid() && player in waitingPlayers
      modifies this
      ensures Valid()
      ensures joined.Some? <==> request.JoinGame? && 1 <= request.numPlayers <= 4
      ensures joined.None? ==> place == old(place) && matches == old(matches) && started == old(started)
      ensures joined.Some? ==>
                var m := joined.value;
                && place == old(place)[player := Playing(m)] && m !in old(started)
                && (m in old(matches) ==> old(matches)[m].numPlayers == request.numPlayers)
                && matches == Joined(if m in old(matches) then old(matches) else old(matches)[m := Match(request.numPlayers, [])],
                                     m, player)
                && started == StartedAfter(matches, old(started), m)
                && (m in started <==> |matches[m].players| == request.numPlayers)
                && matches[m] == Match(request.numPlayers, (if m in old(matches) then old(matches)[m].players else []) + [player])
                && (forall k :: k != m ==> (k in matches <==> k in old(matches)) && (k in matches ==> matches[k] == old(matches)[k]))
    {
      hide PlacesAgree, MatchesInOrder, OpenMatchesDiffer, Joined, StartedAfter;
      if request.Other? { return None; }
      joined := FindCandidate(request.numPlayers);
      if joined.None? {
        if !IsLegal(request.numPlayers) { return None; }
        matchIdCounter := matchIdCounter + 1;
        joined := Some(matchIdCounter);
        NewMatchAgrees(place, waitingPlayers, matches, started, matchIdCounter, request.numPlayers);
        NewMatchDiffers(matches, started, matchIdCounter, request.numPlayers);
        matches := matches[matchIdCounter := Match(request.numPlayers, [])];
      } else {
        OpenMatchIsReady(matches, started, joined.value);
      }
      var m := joined.value;
      NotYetPlaying(place, waitingPlayers, matches, started, player, m);
      JoiningAgrees(place, waitingPlayers, matches, started, player, m);
      JoiningKeepsOrder(matches, started, player, m);
      JoinedStarts(matches, started, player, m);
      JoiningKeepsNumbers(matches, started, player, m, matchIdCounter);
      WaitingIsPlaced(place, waitingPlayers, matches, started, player);
      AssignPlayer(player, m);
    }

    /** A started match ends, and its connections with it. */
    method MatchFinished(m: nat)
      requires Valid() && m in matches && m in started
      modifies this
      ensures Valid() && matches == old(matches) - {m} && started == old(started)
      ensures place == After(old(place), m)
    {
      FinishingKeepsOrder(place, waitingPlayers, matches, started, m);
      matches := matches - {m};
      place := After(place, m);
    }

    /** At most three matches are open at any time: one each for two, three and four players. */
    lemma AtMostThreeOpen(open: set<nat>)
      requires Valid() && forall m <- open :: IsOpen(matches, m)
      ensures |open| <= 3
    {
      var sizes := set m | m in open :: matches[m].numPlayers;
      assert sizes <= {2, 3, 4};
      SubsetSize(sizes, {2, 3, 4});
      ImageSize(matches, open);
    }
  }

  lemma {:induction false} ImageSize(matches: map<nat, Match>, s: set<nat>)
    requires forall m <- s :: m in matches
    requires forall m, n :: m in s && n in s && m != n ==> matches[m].numPlayers != matches[n].numPlayers
    ensures |set m | m in s :: matches[m].numPlayers| == |s|
    decreases s
  {
    var image := set m | m in s :: matches[m].numPlayers;
    if s == {} {
      assert image == {};
    } else {
      var x: nat :| x in s;
      ImageSize(matches, s - {x});
      assert image == (set m | m in s - {x} :: matches[m].numPlayers) + {matches[x].numPlayers};
    }
  }
}
