/** The rules of the Mafia game as its players know them, for the states and events of MafiaGame: who acts at
    night and dies of it, whose vote counts, and who is executed. Groups of players are sets here. */
module MafiaRules {
  import opened Common
  import opened MafiaGame

  // ---- The counts are sizes of sets ----

  ghost function LivingSet(ps: seq<Player>, g: Group): set<nat> {
    set i: nat | i < |ps| && ps[i].alive && (g == MafiaOnly ==> ps[i].job == Mafia) && (g == CitizensOnly ==> ps[i].job != Mafia)
  }

  ghost function VotersFor(ps: seq<Player>, ballots: seq<Ballot>, hash: string): set<nat> {
    set i: nat | i < |ps| && Latest(ballots, ps[i].hash) == Some(hash)
  }

  lemma CountIsSize(ps: seq<Player>, g: Group)
    ensures Count(ps, g) == |LivingSet(ps, g)|
  {
    hide Count;
    SizeOfMembers(ps, g);
    assert LivingSet(ps, g) == Members(ps, g);
  }

  ghost function Members(ps: seq<Player>, g: Group): set<nat> { set i: nat | i < |ps| && LivingIn(ps[i], g) }

  lemma {:induction false} SizeOfMembers(ps: seq<Player>, g: Group)
    ensures Count(ps, g) == |Members(ps, g)|
  {
    hide LivingIn;
    if ps == [] {
      assert Members(ps, g) == {};
    } else {
      var n := |ps| - 1;
      SizeOfMembers(Front(ps), g);
      assert Members(ps, g) == Members(Front(ps), g) + if LivingIn(Last(ps), g) then {n} else {};
    }
  }

  lemma {:induction false} TallyIsSize(ps: seq<Player>, ballots: seq<Ballot>, hash: string)
    ensures Tally(ps, ballots, hash) == |VotersFor(ps, ballots, hash)|
  {
    hide Latest;
    if ps == [] {
      assert VotersFor(ps, ballots, hash) == {};
    } else {
      var n := |ps| - 1;
      TallyIsSize(Front(ps), ballots, hash);
      assert VotersFor(ps, ballots, hash)
          == VotersFor(Front(ps), ballots, hash) + if Latest(ballots, Last(ps).hash) == Some(hash) then {n} else {};
    }
  }

  // ---- The night ----

  /** Exactly player k dies. */
  predicate OnlyDies(before: seq<Player>, after: seq<Player>, k: nat)
    requires k < |before|
  {
    |after| == |before| && !after[k].alive && forall i :: 0 <= i < |after| && i != k ==> after[i].alive == before[i].alive
  }

  /** At night exactly the living Mafia, Police and Detective act: their target is recorded and nothing else
      changes. A Citizen, somebody without a job, a dead player or a stranger changes nothing. */
  lemma WhoActs(a: Snapshot, b: Snapshot, p: nat, target: string)
    requires Sound(a) && p < |a.players| && Responds(a, NightAction(a.players[p].hash, target), b)
    requires FairEvent(a.players, NightAction(a.players[p].hash, target))
    ensures var special := a.players[p].job == Mafia || a.players[p].job == Police || a.players[p].job == Detective;
            b == if a.phase == Night && a.players[p].alive && special
                 then a.(players := a.players[p := a.players[p].(target := target)],
                         nightActions := a.nightActions[a.players[p].hash := target])
                 else a
  {
    hide Find, FairTarget;
    FindAt(a.players, p);
  }

  /** The only Mafia names somebody living of the other team, and the night ends: that player dies, nobody
      else does, and every target is forgotten. */
  lemma MafiaKills(a: Snapshot, b: Snapshot, c: Snapshot, m: nat, t: nat)
    requires Sound(a) && a.phase == Night && m < |a.players| && t < |a.players|
    requires a.players[m].alive && forall i :: 0 <= i < |a.players| ==> (a.players[i].job == Mafia <==> i == m)
    requires a.players[t].alive && a.players[t].job != Mafia && a.players[t].hash != ""
    requires Responds(a, NightAction(a.players[m].hash, a.players[t].hash), b) && Responds(b, Timeout, c)
    ensures OnlyDies(a.players, c.players, t)
    ensures c.counters == a.counters.(citizens := a.counters.citizens - 1, alive := a.counters.alive - 1)
    ensures c.nightActions == map[] && forall i :: 0 <= i < |c.players| ==> c.players[i].target == ""
  {
    hide Find;
    FindAt(a.players, t);
    WhoActs(a, b, m, a.players[t].hash);
    OnlyChoice(b.players, m);
    SameFind(a.players, b.players, a.players[t].hash);
  }

  /** The Detective hears exactly whom the watched player named, if everybody named exists. */
  lemma DetectiveHears(s: Snapshot, d: nat, k: nat, v: nat)
    requires Sound(s) && d < |s.players| && k < |s.players| && v < |s.players|
    requires s.players[d].alive && forall i :: 0 <= i < |s.players| ==> (s.players[i].job == Detective <==> i == d)
    requires s.players[d].target == s.players[k].hash != ""
    ensures s.players[k].hash !in s.nightActions ==>
              DetectiveReport(s.players, s.nightActions) == StayedHome(s.players[k].hash)
    ensures s.players[k].hash in s.nightActions && s.nightActions[s.players[k].hash] == s.players[v].hash ==>
              DetectiveReport(s.players, s.nightActions) == Visited(k, v)
  {
    hide Find;
    OnlyChoice(s.players, d);
    FindAt(s.players, k);
    FindAt(s.players, v);
  }

  // ---- The vote ----

  /** Exactly the living vote, and for the living: then the voter's choice is the one named, whatever it was,
      and that player has one vote more unless it was the choice already. */
  lemma WhoVotes(a: Snapshot, b: Snapshot, v: nat, t: nat)
    requires Sound(a) && Sound(b) && v < |a.players| && t < |a.players|
    requires Responds(a, CastVote(a.players[v].hash, a.players[t].hash), b)
    ensures !(a.phase == Voting && a.players[v].alive && a.players[t].alive) ==> b == a
    ensures a.phase == Voting && a.players[v].alive && a.players[t].alive ==>
              var voter, name := a.players[v].hash, a.players[t].hash;
              && Latest(b.ballots, voter) == Some(name)
              && b.players[t].votes == a.players[t].votes + (if Latest(a.ballots, voter) == Some(name) then 0 else 1)
  {
    hide Find, Latest, Tally, Count;
    FindAt(a.players, v);
    FindAt(a.players, t);
    if a.phase == Voting && a.players[v].alive && a.players[t].alive {
      var ballot := Ballot(a.players[v].hash, a.players[t].hash);
      LatestNext(a.ballots, ballot, ballot.voter);
      TallyNext(a.players, a.ballots, ballot, v, ballot.target);
      TallySame(a.players, b.players, b.ballots, ballot.target);
    }
  }

  /** More than half of the living currently name player t. */
  ghost predicate Chosen(s: Snapshot, t: nat) {
    && t < |s.players| && s.players[t].alive
    && 2 * |VotersFor(s.players, s.ballots, s.players[t].hash)| > |LivingSet(s.players, Everyone)|
  }

  lemma ChosenIsMajority(s: Snapshot, t: nat)
    ensures Chosen(s, t) <==> HasMajority(s.players, s.ballots, t)
  {
    if t < |s.players| {
      TallyIsSize(s.players, s.ballots, s.players[t].hash);
      CountIsSize(s.players, Everyone);
    }
  }

  lemma ChosenOnce(s: Snapshot, t: nat, u: nat)
    requires Sound(s) && s.phase == Voting && Chosen(s, t) && Chosen(s, u)
    ensures t == u
  {
    hide Count, Tally, Latest;
    ChosenIsMajority(s, t);
    ChosenIsMajority(s, u);
    if t != u {
      assert s.players[t].hash != s.players[u].hash;
      TwoTallies(s.players, s.ballots, s.players[t].hash, s.players[u].hash);
    }
  }

  /** When the vote ends, the player more than half of the living name speaks last words and is dead after
      them, and nobody else dies. */
  lemma ChosenIsExecuted(a: Snapshot, b: Snapshot, c: Snapshot, t: nat)
    requires Sound(a) && Sound(b) && a.phase == Voting && Chosen(a, t)
    requires Responds(a, Timeout, b) && Responds(b, Timeout, c)
    ensures b.phase == LastWords && b.executed == a.players[t].hash
    ensures OnlyDies(a.players, c.players, t)
  {
    hide Find, Chosen, HasMajority;
    ChosenIsMajority(a, t);
    assert exists k :: HasMajority(a.players, a.ballots, k);
    var k := Find(a.players, b.executed);
    MajorityIndex(a.players, a.ballots, k);
    ChosenIsMajority(a, k);
    ChosenOnce(a, t, k);
  }

  lemma MajorityIndex(ps: seq<Player>, ballots: seq<Ballot>, k: int)
    requires HasMajority(ps, ballots, k)
    ensures 0 <= k < |ps| && ps[k].alive
  {}

  /** When the vote ends and nobody is named by more than half of the living, night falls and nobody dies. */
  lemma NobodyChosen(a: Snapshot, b: Snapshot)
    requires Sound(a) && a.phase == Voting && Responds(a, Timeout, b)
    requires forall t: nat :: t < |a.players| ==> !Chosen(a, t)
    ensures b.phase == Night && b.players == a.players
  {
    hide Find, Chosen, HasMajority;
    if b.phase == LastWords {
      var k :| HasMajority(a.players, a.ballots, k);
      MajorityIndex(a.players, a.ballots, k);
      ChosenIsMajority(a, k);
    }
  }

  // ---- The course of the game ----

  /** Which phase follows which: after the night the morning, unless two are left; then the vote; then last
      words or the night; and after last words the night, unless the Mafia is dead or two are left. */
  lemma WhatFollows(a: Snapshot, b: Snapshot)
    requires Sound(a) && Sound(b) && Responds(a, Timeout, b)
    ensures a.phase == Night ==> b.phase == if b.counters.alive == 2 then GameOver else Morning
    ensures a.phase == Morning ==> b.phase == Voting && b.counters == a.counters
    ensures a.phase == Voting ==> b.phase == LastWords || b.phase == Night
    ensures a.phase == LastWords ==> b.phase == if b.counters.mafia == 0 || b.counters.alive == 2 then GameOver else Night
    ensures b.phase == GameOver && a.phase != GameOver ==>
              b.winner == if b.counters.mafia == 0 then CitizenTeam else MafiaTeam
    ensures a.phase == GameOver ==> b == a
  {
    hide Count, Find, Tally;
  }

  /** Each job with a night ability is dealt once, and everybody else is a Citizen. */
  lemma DealtOnce(ps: seq<Player>) returns (m: nat, p: nat, d: nat)
    requires Dealt(ps)
    ensures (set i: nat | i < |ps| && ps[i].job == Mafia) == {m}
    ensures (set i: nat | i < |ps| && ps[i].job == Police) == {p}
    ensures (set i: nat | i < |ps| && ps[i].job == Detective) == {d}
    ensures m < |ps| && p < |ps| && d < |ps|
    ensures forall i :: 0 <= i < |ps| && i !in {m, p, d} ==> ps[i].job == Citizen
  {
    var m', p', d' :| DealtTo(ps, m', p', d');
    m, p, d := m', p', d';
  }
}
