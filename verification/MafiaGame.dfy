/** The Mafia game server (DedicatedGameMode.cpp): jobs, phases, votes, night kills and executions,
    with the counters the game state caches. */
module MafiaGame {
  import opened Common

  datatype Job = NoJob | Mafia | Police | Detective | Citizen
  datatype Phase = Waiting | Night | Morning | Voting | LastWords | GameOver
  datatype Winner = Nobody | CitizenTeam | MafiaTeam

  /** The server's record of a connected player. */
  datatype Player = Player(hash: string, job: Job, alive: bool, votes: int, target: string)

  /** The cached MafiaCount, CitizenTeamCount and AlivePlayerCount. */
  datatype Counters = Counters(mafia: int, citizens: int, alive: int)

  /** A vote the server accepted. */
  datatype Ballot = Ballot(voter: string, target: string)

  // ---- Players ----

  /** The first player with a hash, or -1. */
  function Find(ps: seq<Player>, hash: string): (r: int)
    ensures -1 <= r < |ps|
    ensures r >= 0 ==> ps[r].hash == hash && forall j :: 0 <= j < r ==> ps[j].hash != hash
    ensures r == -1 ==> forall j :: 0 <= j < |ps| ==> ps[j].hash != hash
  {
    if ps == [] then -1
    else
      var r := Find(Front(ps), hash);
      if r >= 0 then r else if Last(ps).hash == hash then |ps| - 1 else -1
  }

  predicate DistinctHashes(ps: seq<Player>) {
    forall i, j :: 0 <= i < j < |ps| ==> ps[i].hash != ps[j].hash
  }

  lemma FindAt(ps: seq<Player>, i: nat)
    requires DistinctHashes(ps) && i < |ps|
    ensures Find(ps, ps[i].hash) == i
  {}

  predicate NamesLiving(ps: seq<Player>, hash: string) {
    var r := Find(ps, hash);
    r >= 0 && ps[r].alive
  }

  /** Whom a living Mafia may target: nobody that exists, or a living player of the other team. */
  predicate FairTarget(ps: seq<Player>, hash: string) {
    var k := Find(ps, hash);
    hash == "" || k == -1 || (ps[k].alive && ps[k].job != Mafia)
  }

  /** Same players with the same jobs, and nobody back from the dead. */
  predicate SamePeople(before: seq<Player>, after: seq<Player>) {
    |after| == |before|
    && forall i :: 0 <= i < |after| ==>
         after[i].hash == before[i].hash && after[i].job == before[i].job && (after[i].alive ==> before[i].alive)
  }

  lemma SameFind(before: seq<Player>, after: seq<Player>, hash: string)
    requires SamePeople(before, after)
    ensures Find(after, hash) == Find(before, hash)
  {}

  // ---- The true counts ----

  datatype Group = Everyone | MafiaOnly | CitizensOnly

  predicate LivingIn(p: Player, g: Group) {
    p.alive && match g case Everyone => true case MafiaOnly => p.job == Mafia case CitizensOnly => p.job != Mafia
  }

  function Count(ps: seq<Player>, g: Group): (n: nat)
    ensures n <= |ps|
  {
    if ps == [] then 0 else Count(Front(ps), g) + if LivingIn(Last(ps), g) then 1 else 0
  }

  function TrueCounters(ps: seq<Player>): Counters {
    Counters(Count(ps, MafiaOnly), Count(ps, CitizensOnly), Count(ps, Everyone))
  }

  lemma {:induction false} TeamsAddUp(ps: seq<Player>)
    ensures Count(ps, Everyone) == Count(ps, MafiaOnly) + Count(ps, CitizensOnly)
  {
    if ps != [] {
      TeamsAddUp(Front(ps));
    }
  }

  lemma NoneCounted()
    ensures forall g :: Count([], g) == 0
  {}

  lemma CountNext(ps: seq<Player>, p: Player, g: Group)
    ensures Count(ps + [p], g) == Count(ps, g) + One(LivingIn(p, g))
  {
    assert Front(ps + [p]) == ps;
  }

  lemma {:induction false} CountUpdate(ps: seq<Player>, i: nat, p: Player, g: Group)
    requires i < |ps|
    ensures Count(ps[i := p], g) + One(LivingIn(ps[i], g)) == Count(ps, g) + One(LivingIn(p, g))
  {
    if i == |ps| - 1 {
      assert Front(ps[i := p]) == Front(ps);
    } else {
      assert Front(ps[i := p]) == Front(ps)[i := p];
      CountUpdate(Front(ps), i, p, g);
    }
  }

  lemma {:induction false} CountSame(ps: seq<Player>, ps': seq<Player>, g: Group)
    requires |ps| == |ps'| && forall i :: 0 <= i < |ps| ==> ps[i].alive == ps'[i].alive && ps[i].job == ps'[i].job
    ensures Count(ps, g) == Count(ps', g)
  {
    if ps != [] {
      CountSame(Front(ps), Front(ps'), g);
    }
  }

  // ---- Dealing jobs ----

  const JOBS: seq<Job> := [Mafia, Police, Detective, Citizen, Citizen, Citizen]

  predicate Distinct(s: seq<nat>) { forall i, j :: 0 <= i < j < |s| ==> s[i] != s[j] }

  /** n different numbers below n are all the numbers below n. */
  lemma {:induction false} Onto(s: seq<nat>, v: nat)
    requires Distinct(s) && AllBelow(s, |s|) && v < |s|
    ensures v in s
  {
    var n := |s| - 1;
    if n !in s {
      DistinctTooLong(s, n);
    } else if v != n {
      var k :| 0 <= k < |s| && s[k] == n;
      var rest := s[..k] + s[k + 1..];
      assert forall i :: 0 <= i < |rest| ==> rest[i] == s[if i < k then i else i + 1];
      Onto(rest, v);
    }
  }

  /** More different numbers than there are numbers below n: not possible. */
  lemma {:induction false} DistinctTooLong(s: seq<nat>, n: nat)
    requires Distinct(s) && AllBelow(s, n) && |s| > n
    ensures false
  {
    var first := s[0];
    assert first < n;
    if n > 0 {
      if n - 1 in s {
        var k :| 0 <= k < |s| && s[k] == n - 1;
        var rest := s[..k] + s[k + 1..];
        assert forall i :: 0 <= i < |rest| ==> rest[i] == s[if i < k then i else i + 1];
        DistinctTooLong(rest, n - 1);
      } else {
        DistinctTooLong(s, n - 1);
      }
    }
  }

  /** Exactly one Mafia, one Police and one Detective, and Citizens for the rest. */
  ghost predicate Dealt(ps: seq<Player>) {
    exists m, p, d :: DealtTo(ps, m, p, d)
  }

  predicate DealtTo(ps: seq<Player>, m: int, p: int, d: int) {
    && 0 <= m < |ps| && 0 <= p < |ps| && 0 <= d < |ps|
    && ps[m].job == Mafia && ps[p].job == Police && ps[d].job == Detective
    && forall i :: 0 <= i < |ps| && i != m && i != p && i != d ==> ps[i].job == Citizen
  }

  /** Six connected players with different hashes, all of them registered. */
  predicate Registered(ps: seq<Player>, hashes: seq<string>) {
    |ps| == 6 && DistinctHashes(ps) && forall i :: 0 <= i < |ps| ==> ps[i].hash in hashes
  }

  function IndexOf(hashes: seq<string>, h: string): (r: int)
    ensures -1 <= r < |hashes| && (r >= 0 ==> hashes[r] == h) && (r == -1 ==> h !in hashes)
  {
    if hashes == [] then -1
    else
      var r := IndexOf(Front(hashes), h);
      if r >= 0 then r else if Last(hashes) == h then |hashes| - 1 else -1
  }

  /** The job a player gets from a shuffled order. */
  function JobFor(hashes: seq<string>, indices: seq<nat>, p: Player): Job
    requires |indices| == |hashes| == |JOBS| && AllBelow(indices, |JOBS|)
  {
    var k := IndexOf(hashes, p.hash);
    if k == -1 then p.job else JOBS[indices[k]]
  }

  function SlotOf(hashes: seq<string>, indices: seq<nat>, p: Player): nat
    requires |indices| == |hashes| && p.hash in hashes
  {
    indices[IndexOf(hashes, p.hash)]
  }

  lemma SlotsDiffer(hashes: seq<string>, indices: seq<nat>, p: Player, q: Player)
    requires |indices| == |hashes| && Distinct(indices) && p.hash in hashes && q.hash in hashes && p.hash != q.hash
    ensures SlotOf(hashes, indices, p) != SlotOf(hashes, indices, q)
  {
    var a, b := IndexOf(hashes, p.hash), IndexOf(hashes, q.hash);
    assert a < b || b < a;
  }

  /** A shuffle deals every job to exactly one registered player. */
  lemma ShuffleDeals(before: seq<Player>, ps: seq<Player>, hashes: seq<string>, indices: seq<nat>)
    requires |indices| == |hashes| == |JOBS| && Distinct(indices) && AllBelow(indices, |JOBS|)
    requires Registered(before, hashes) && |ps| == |before|
    requires forall i :: 0 <= i < |ps| ==> ps[i] == before[i].(job := JobFor(hashes, indices, before[i]))
    ensures Dealt(ps)
  {
    hide Distinct;
    var slots: seq<nat> := seq(|ps|, i requires 0 <= i < |ps| => SlotOf(hashes, indices, before[i]));
    assert Distinct(slots) by {
      forall i, j | 0 <= i < j < |slots| ensures slots[i] != slots[j] {
        SlotsDiffer(hashes, indices, before[i], before[j]);
      }
      AllDiffer(slots);
    }
    SlotsDeal(ps, slots);
  }

  lemma AllDiffer(s: seq<nat>)
    requires forall i, j :: 0 <= i < j < |s| ==> s[i] != s[j]
    ensures Distinct(s)
  {}

  lemma SlotsDeal(ps: seq<Player>, slots: seq<nat>)
    requires |slots| == |ps| == 6 && Distinct(slots) && AllBelow(slots, 6)
    requires forall i :: 0 <= i < |ps| ==> ps[i].job == JOBS[slots[i]]
    ensures Dealt(ps)
  {
    hide Distinct, AllBelow;
    var m := SlotHolder(slots, 0);
    var p := SlotHolder(slots, 1);
    var d := SlotHolder(slots, 2);
    forall i | 0 <= i < |ps| && i != m && i != p && i != d ensures ps[i].job == Citizen {
      Differ(slots, i, m);
      Differ(slots, i, p);
      Differ(slots, i, d);
    }
    assert DealtTo(ps, m, p, d);
  }

  lemma SlotHolder(slots: seq<nat>, v: nat) returns (k: nat)
    requires Distinct(slots) && AllBelow(slots, |slots|) && v < |slots|
    ensures k < |slots| && slots[k] == v
  {
    Onto(slots, v);
    k :| 0 <= k < |slots| && slots[k] == v;
  }

  lemma Differ(slots: seq<nat>, i: nat, j: nat)
    requires Distinct(slots) && AllBelow(slots, |slots|) && i < |slots| && j < |slots| && i != j
    ensures slots[i] != slots[j] && slots[i] < |slots|
  {
    assert i < j || j < i;
  }

  lemma {:induction false} OneMafia(ps: seq<Player>, m: nat)
    requires forall i :: 0 <= i < |ps| ==> ps[i].alive && (ps[i].job == Mafia <==> i == m)
    ensures Count(ps, MafiaOnly) == One(m < |ps|) && Count(ps, Everyone) == |ps|
  {
    if ps != [] {
      OneMafia(Front(ps), m);
    }
  }

  // ---- Votes ----

  /** A voter's latest accepted vote. */
  function Latest(ballots: seq<Ballot>, voter: string): Option<string> {
    if ballots == [] then None
    else if Last(ballots).voter == voter then Some(Last(ballots).target)
    else Latest(Front(ballots), voter)
  }

  /** How many players' latest accepted votes name somebody. */
  function Tally(ps: seq<Player>, ballots: seq<Ballot>, hash: string): (n: nat) {
    if ps == [] then 0
    else Tally(Front(ps), ballots, hash) + One(Latest(ballots, Last(ps).hash) == Some(hash))
  }

  lemma LatestNext(ballots: seq<Ballot>, b: Ballot, voter: string)
    ensures Latest(ballots + [b], voter) == if voter == b.voter then Some(b.target) else Latest(ballots, voter)
  {
    assert Front(ballots + [b]) == ballots;
  }

  lemma {:induction false} TallyAbsent(ps: seq<Player>, ballots: seq<Ballot>, b: Ballot, hash: string)
    requires forall i :: 0 <= i < |ps| ==> ps[i].hash != b.voter
    ensures Tally(ps, ballots + [b], hash) == Tally(ps, ballots, hash)
  {
    if ps != [] {
      LatestNext(ballots, b, Last(ps).hash);
      TallyAbsent(Front(ps), ballots, b, hash);
    }
  }

  /** A new vote adds one to its target and takes one back from the voter's previous choice. */
  lemma {:induction false} TallyNext(ps: seq<Player>, ballots: seq<Ballot>, b: Ballot, i: nat, hash: string)
    requires DistinctHashes(ps) && i < |ps| && ps[i].hash == b.voter
    ensures Tally(ps, ballots + [b], hash) + One(Latest(ballots, b.voter) == Some(hash))
            == Tally(ps, ballots, hash) + One(b.target == hash)
  {
    LatestNext(ballots, b, Last(ps).hash);
    if i == |ps| - 1 {
      TallyAbsent(Front(ps), ballots, b, hash);
    } else {
      TallyNext(Front(ps), ballots, b, i, hash);
    }
  }

  lemma {:induction false} TallyPositive(ps: seq<Player>, ballots: seq<Ballot>, i: nat, hash: string)
    requires i < |ps| && Latest(ballots, ps[i].hash) == Some(hash)
    ensures Tally(ps, ballots, hash) >= 1
  {
    if i < |ps| - 1 {
      TallyPositive(Front(ps), ballots, i, hash);
    }
  }

  lemma {:induction false} TallySame(ps: seq<Player>, ps': seq<Player>, ballots: seq<Ballot>, hash: string)
    requires |ps| == |ps'| && forall i :: 0 <= i < |ps| ==> ps[i].hash == ps'[i].hash
    ensures Tally(ps, ballots, hash) == Tally(ps', ballots, hash)
  {
    if ps != [] {
      TallySame(Front(ps), Front(ps'), ballots, hash);
    }
  }

  lemma {:induction false} NoBallots(ps: seq<Player>, hash: string)
    ensures Tally(ps, [], hash) == 0
  {
    if ps != [] {
      NoBallots(Front(ps), hash);
    }
  }

  /** With no votes and no ballots everything about the vote agrees. */
  lemma NoVotes(ps: seq<Player>)
    requires forall i :: 0 <= i < |ps| ==> ps[i].votes == 0
    ensures Tallied(ps, []) && LivingVoters(ps, []) && MapKept(ps, map[], [])
  {
    forall i | 0 <= i < |ps| ensures Tally(ps, [], ps[i].hash) == 0 {
      NoBallots(ps, ps[i].hash);
    }
  }

  predicate LivingVoters(ps: seq<Player>, ballots: seq<Ballot>) {
    forall i :: 0 <= i < |ps| && Latest(ballots, ps[i].hash).Some? ==> ps[i].alive
  }

  /** Two candidates never share a voter, so together they have at most the living. */
  lemma {:induction false} TwoTallies(ps: seq<Player>, ballots: seq<Ballot>, a: string, b: string)
    requires a != b && LivingVoters(ps, ballots)
    ensures Tally(ps, ballots, a) + Tally(ps, ballots, b) <= Count(ps, Everyone)
  {
    if ps != [] {
      TwoTallies(Front(ps), ballots, a, b);
    }
  }

  /** More than half of the living currently vote for player k. */
  predicate HasMajority(ps: seq<Player>, ballots: seq<Ballot>, k: int) {
    0 <= k < |ps| && ps[k].alive && 2 * Tally(ps, ballots, ps[k].hash) > Count(ps, Everyone)
  }

  /** The vote counts the players carry are the tallies of the accepted votes. */
  ghost predicate Tallied(ps: seq<Player>, ballots: seq<Ballot>) {
    forall i :: 0 <= i < |ps| ==> ps[i].votes == Tally(ps, ballots, ps[i].hash)
  }

  /** How many of the living hold exactly v votes. */
  function Tied(ps: seq<Player>, v: int): nat {
    if ps == [] then 0 else Tied(Front(ps), v) + One(Last(ps).alive && Last(ps).votes == v)
  }

  lemma {:induction false} NoneTied(ps: seq<Player>, v: int)
    requires forall i :: 0 <= i < |ps| && ps[i].alive ==> ps[i].votes != v
    ensures Tied(ps, v) == 0
  {
    if ps != [] {
      NoneTied(Front(ps), v);
    }
  }

  lemma {:induction false} OneTied(ps: seq<Player>, k: nat)
    requires k < |ps| && ps[k].alive
    requires forall i :: 0 <= i < |ps| && i != k && ps[i].alive ==> ps[i].votes != ps[k].votes
    ensures Tied(ps, ps[k].votes) == 1
  {
    if k == |ps| - 1 {
      NoneTied(Front(ps), ps[k].votes);
    } else {
      OneTied(Front(ps), k);
    }
  }

  /** Reaching the majority leaves no tie: nobody else living can hold as many votes. */
  lemma MajorityIsAlone(ps: seq<Player>, ballots: seq<Ballot>, k: nat)
    requires DistinctHashes(ps) && LivingVoters(ps, ballots) && Tallied(ps, ballots) && HasMajority(ps, ballots, k)
    ensures Tied(ps, ps[k].votes) == 1
    ensures forall i :: 0 <= i < |ps| && i != k && ps[i].alive ==> ps[i].votes < ps[k].votes
  {
    forall i | 0 <= i < |ps| && i != k && ps[i].alive ensures ps[i].votes < ps[k].votes {
      assert ps[i].hash != ps[k].hash;
      TwoTallies(ps, ballots, ps[i].hash, ps[k].hash);
    }
    OneTied(ps, k);
  }

  // ---- The night's results ----

  /** The target of the last living player with a job that chose one. */
  function Choice(ps: seq<Player>, job: Job): string {
    if ps == [] then ""
    else if Last(ps).alive && Last(ps).target != "" && Last(ps).job == job then Last(ps).target
    else Choice(Front(ps), job)
  }

  function KillChoice(ps: seq<Player>): string { Choice(ps, Mafia) }

  /** What the night tells the Detective. The server looks both players up by hash without checking that
      they exist; where one does not, it dereferences a null pointer and the night never ends. */
  datatype Report = NoReport | Visited(watched: nat, visited: nat) | StayedHome(hash: string) | NullPlayer

  function DetectiveReport(ps: seq<Player>, nightActions: map<string, string>): Report {
    ReportOn(ps, nightActions, Choice(ps, Detective))
  }

  function ReportOn(ps: seq<Player>, nightActions: map<string, string>, watched: string): Report {
    if watched == "" then NoReport
    else if watched !in nightActions then StayedHome(watched)
    else
      var k, v := Find(ps, watched), Find(ps, nightActions[watched]);
      if k == -1 || v == -1 then NullPlayer else Visited(k, v)
  }

  lemma SameReport(before: seq<Player>, after: seq<Player>, nightActions: map<string, string>, watched: string)
    requires SamePeople(before, after)
    ensures ReportOn(after, nightActions, watched) == ReportOn(before, nightActions, watched)
  {
    hide Find;
    SameFind(before, after, watched);
    if watched in nightActions {
      SameFind(before, after, nightActions[watched]);
    }
  }

  /** Only players act at night. */
  ghost predicate ActorsKnown(ps: seq<Player>, nightActions: map<string, string>) {
    forall h :: h in nightActions ==> Find(ps, h) >= 0
  }

  ghost predicate TargetsKnown(ps: seq<Player>, nightActions: map<string, string>) {
    forall h :: h in nightActions ==> Find(ps, nightActions[h]) >= 0
  }

  /** The night cannot end if and only if the player the Detective watches named a target nobody has. */
  lemma ReportGuard(ps: seq<Player>, nightActions: map<string, string>)
    requires ActorsKnown(ps, nightActions)
    ensures var watched := Choice(ps, Detective);
            DetectiveReport(ps, nightActions) == NullPlayer
            <==> watched != "" && watched in nightActions && Find(ps, nightActions[watched]) == -1
  {
    hide Find;
  }

  lemma {:induction false} OnlyChoice(ps: seq<Player>, d: nat)
    requires d < |ps| && ps[d].alive && ps[d].target != ""
    requires forall i :: 0 <= i < |ps| && ps[i].job == ps[d].job ==> i == d
    ensures Choice(ps, ps[d].job) == ps[d].target
  {
    if d < |ps| - 1 {
      OnlyChoice(Front(ps), d);
    }
  }

  function Killed(ps: seq<Player>, id: string): seq<Player> {
    var k := Find(ps, id);
    if id == "" || k == -1 then ps else ps[k := ps[k].(alive := false)]
  }

  /** What the server does to the counters, whoever the target is. */
  function AfterKill(c: Counters, ps: seq<Player>, id: string): Counters {
    var k := Find(ps, id);
    if id == "" || k == -1 then c
    else Counters(c.mafia, if ps[k].job != Mafia then c.citizens - 1 else c.citizens, c.alive - 1)
  }

  /** The server does not check its night target. Correct counters stay correct if and only if no
      player is named or the one named is living and not Mafia. */
  lemma KillKeepsCounts(ps: seq<Player>, id: string)
    ensures AfterKill(TrueCounters(ps), ps, id) == TrueCounters(Killed(ps, id))
            <==> FairTarget(ps, id)
  {
    var k := Find(ps, id);
    if id != "" && k != -1 {
      var dead := ps[k].(alive := false);
      CountUpdate(ps, k, dead, Everyone);
      CountUpdate(ps, k, dead, MafiaOnly);
      CountUpdate(ps, k, dead, CitizensOnly);
    }
  }

  lemma {:induction false} KillChoiceFair(ps: seq<Player>, all: seq<Player>)
    requires forall i :: 0 <= i < |ps| && ps[i].alive && ps[i].job == Mafia ==> FairTarget(all, ps[i].target)
    ensures FairTarget(all, KillChoice(ps))
  {
    hide Find;
    if ps != [] {
      KillChoiceFair(Front(ps), all);
    }
  }

  function Untargeted(ps: seq<Player>): (r: seq<Player>)
    ensures |r| == |ps|
  {
    seq(|ps|, i requires 0 <= i < |ps| => ps[i].(target := ""))
  }

  lemma KilledSame(ps: seq<Player>, id: string)
    ensures SamePeople(ps, Killed(ps, id))
  {}

  lemma KilledStaysFair(ps: seq<Player>, id: string)
    requires DistinctHashes(ps)
    ensures SamePeople(ps, Untargeted(Killed(ps, id))) && DistinctHashes(Untargeted(Killed(ps, id)))
    ensures TrueCounters(Untargeted(Killed(ps, id))) == TrueCounters(Killed(ps, id))
  {
    CountSame(Killed(ps, id), Untargeted(Killed(ps, id)), Everyone);
    CountSame(Killed(ps, id), Untargeted(Killed(ps, id)), MafiaOnly);
    CountSame(Killed(ps, id), Untargeted(Killed(ps, id)), CitizensOnly);
  }

  /** The vote map is the latest accepted votes, and names players. */
  ghost predicate MapKept(ps: seq<Player>, voteMap: map<string, string>, ballots: seq<Ballot>) {
    forall v :: (v in voteMap <==> Latest(ballots, v).Some?)
                && (v in voteMap ==> Latest(ballots, v) == Some(voteMap[v]) && Find(ps, voteMap[v]) >= 0)
  }

  lemma MapNext(ps: seq<Player>, voteMap: map<string, string>, ballots: seq<Ballot>, b: Ballot)
    requires MapKept(ps, voteMap, ballots) && Find(ps, b.target) >= 0
    ensures MapKept(ps, voteMap[b.voter := b.target], ballots + [b])
  {
    forall v ensures Latest(ballots + [b], v) == if v == b.voter then Some(b.target) else Latest(ballots, v) {
      LatestNext(ballots, b, v);
    }
  }

  lemma PreviousKept(ps: seq<Player>, voteMap: map<string, string>, ballots: seq<Ballot>, v: string, q: int)
    requires MapKept(ps, voteMap, ballots)
    requires q == if v in voteMap then Find(ps, voteMap[v]) else -1
    ensures q < |ps|
    ensures if q < 0 then Latest(ballots, v) == None else Latest(ballots, v) == Some(ps[q].hash)
  {}

  lemma VotersNext(ps: seq<Player>, ballots: seq<Ballot>, b: Ballot, v: nat)
    requires LivingVoters(ps, ballots) && v < |ps| && ps[v].hash == b.voter && ps[v].alive && DistinctHashes(ps)
    ensures LivingVoters(ps, ballots + [b])
  {
    forall i | 0 <= i < |ps| && Latest(ballots + [b], ps[i].hash).Some? ensures ps[i].alive {
      LatestNext(ballots, b, ps[i].hash);
    }
  }

  /** The players after a vote for player t that replaces one for player q, if q is not -1. */
  function Voted(ps: seq<Player>, q: int, t: int): (r: seq<Player>)
    requires q < |ps| && 0 <= t < |ps|
    ensures OnlyVotesDiffer(ps, r)
  {
    var mid := if q < 0 then ps else ps[q := ps[q].(votes := if ps[q].votes - 1 < 0 then 0 else ps[q].votes - 1)];
    mid[t := mid[t].(votes := mid[t].votes + 1)]
  }

  /** One accepted vote: the old choice loses a vote, without ever reaching the clamp at zero, and the
      new one gains it. */
  lemma VoteCounted(ps: seq<Player>, ballots: seq<Ballot>, b: Ballot, v: nat, q: int, t: nat)
    requires DistinctHashes(ps) && Tallied(ps, ballots)
    requires v < |ps| && ps[v].hash == b.voter && t < |ps| && ps[t].hash == b.target
    requires if q < 0 then Latest(ballots, b.voter) == None else q < |ps| && Latest(ballots, b.voter) == Some(ps[q].hash)
    ensures q >= 0 ==> ps[q].votes >= 1
    ensures Tallied(Voted(ps, q, t), ballots + [b])
  {
    hide Tally, Latest;
    if q >= 0 {
      TallyPositive(ps, ballots, v, ps[q].hash);
    }
    var after := Voted(ps, q, t);
    forall i | 0 <= i < |after| ensures after[i].votes == Tally(after, ballots + [b], after[i].hash) {
      TallyNext(ps, ballots, b, v, ps[i].hash);
      TallySame(ps, after, ballots + [b], ps[i].hash);
    }
  }

  lemma ExecutionCounted(ps: seq<Player>, k: nat)
    requires k < |ps| && ps[k].alive
    ensures TrueCounters(ps[k := ps[k].(alive := false)])
            == if ps[k].job == Mafia
               then Counters(Count(ps, MafiaOnly) - 1, Count(ps, CitizensOnly), Count(ps, Everyone) - 1)
               else Counters(Count(ps, MafiaOnly), Count(ps, CitizensOnly) - 1, Count(ps, Everyone) - 1)
  {
    CountUpdate(ps, k, ps[k].(alive := false), MafiaOnly);
    CountUpdate(ps, k, ps[k].(alive := false), CitizensOnly);
    CountUpdate(ps, k, ps[k].(alive := false), Everyone);
  }

  lemma DeathKeeps(ps: seq<Player>, k: nat)
    requires k < |ps| && DistinctHashes(ps) && TargetsFair(ps, false)
    ensures var after := ps[k := ps[k].(alive := false)];
            SamePeople(ps, after) && DistinctHashes(after) && TargetsFair(after, false)
  {}

  lemma SwapKeepsDistinct(s: seq<nat>, i: nat, j: nat)
    requires Distinct(s) && i < |s| && j < |s|
    ensures Distinct(s[i := s[j]][j := s[i]])
  {}

  predicate Fresh(ps: seq<Player>) {
    forall i :: 0 <= i < |ps| ==> ps[i].alive && ps[i].target == ""
  }

  predicate SamePeopleButJobs(before: seq<Player>, after: seq<Player>) {
    |after| == |before| && forall i :: 0 <= i < |after| ==> after[i] == before[i].(job := after[i].job)
  }

  predicate OnlyVotesDiffer(before: seq<Player>, after: seq<Player>) {
    |after| == |before| && forall i :: 0 <= i < |after| ==> after[i] == before[i].(votes := after[i].votes)
  }

  lemma OnlyVotes(before: seq<Player>, after: seq<Player>)
    requires OnlyVotesDiffer(before, after)
    ensures SamePeople(before, after) && TrueCounters(after) == TrueCounters(before)
    ensures forall h :: Find(after, h) == Find(before, h)
  {
    CountSame(before, after, Everyone);
    CountSame(before, after, MafiaOnly);
    CountSame(before, after, CitizensOnly);
    forall h ensures Find(after, h) == Find(before, h) {
      SameFind(before, after, h);
    }
  }

  lemma StillKept(before: seq<Player>, after: seq<Player>, voteMap: map<string, string>, ballots: seq<Ballot>)
    requires OnlyVotesDiffer(before, after) && MapKept(before, voteMap, ballots) && LivingVoters(before, ballots)
    ensures MapKept(after, voteMap, ballots) && LivingVoters(after, ballots)
  {
    OnlyVotes(before, after);
  }

  /** Every living Mafia has a fair target or none, and has none outside the night. */
  ghost predicate TargetsFair(ps: seq<Player>, night: bool) {
    forall i :: 0 <= i < |ps| && ps[i].alive && ps[i].job == Mafia ==>
                  FairTarget(ps, ps[i].target) && (!night ==> ps[i].target == "")
  }

  lemma FairKept(before: seq<Player>, after: seq<Player>)
    requires OnlyVotesDiffer(before, after)
    ensures forall night :: TargetsFair(before, night) ==> TargetsFair(after, night)
  {
    OnlyVotes(before, after);
  }

  lemma DealtCounts(ps: seq<Player>)
    requires Dealt(ps) && Fresh(ps)
    ensures Count(ps, MafiaOnly) == 1 && Count(ps, Everyone) == |ps|
  {
    var m, p, d :| DealtTo(ps, m, p, d);
    OneMafia(ps, m);
  }

  lemma FirstIndex(hashes: seq<string>, h: string, i: nat)
    requires i < |hashes| && hashes[i] == h && IndexOf(hashes[..i], h) == -1
    ensures IndexOf(hashes, h) == i
    decreases |hashes|
  {
    if i < |hashes| - 1 {
      assert Front(hashes)[..i] == hashes[..i];
      FirstIndex(Front(hashes), h, i);
    }
  }

  lemma KillOfOthers(ps: seq<Player>, id: string)
    requires FairTarget(ps, id)
    ensures var c := AfterKill(TrueCounters(ps), ps, id);
            c.mafia == Count(ps, MafiaOnly) && c.alive >= Count(ps, Everyone) - 1
  {
    hide Count;
  }

  lemma Untarget(ps: seq<Player>)
    ensures TargetsFair(Untargeted(ps), false)
  {}

  /** After a fair night at most one citizen is gone, and everything else is as before. */
  lemma NightKeepsSettled(ps: seq<Player>)
    requires DistinctHashes(ps) && Count(ps, MafiaOnly) == 1 && Count(ps, Everyone) >= 3
    requires TargetsFair(ps, true)
    ensures var after := Untargeted(Killed(ps, KillChoice(ps)));
            && TrueCounters(after) == AfterKill(TrueCounters(ps), ps, KillChoice(ps))
            && Count(after, MafiaOnly) == 1 && Count(after, Everyone) >= 2
            && SamePeople(ps, after) && DistinctHashes(after) && TargetsFair(after, false)
  {
    hide Count, KillChoice, Find, Killed, AfterKill;
    Untarget(Killed(ps, KillChoice(ps)));
    KillChoiceFair(ps, ps);
    KillOfOthers(ps, KillChoice(ps));
    KillKeepsCounts(ps, KillChoice(ps));
    KilledStaysFair(ps, KillChoice(ps));
  }

  /** The player with the most votes has the majority exactly when somebody has, and then no tie. */
  lemma MajorityFound(ps: seq<Player>, ballots: seq<Ballot>, max: int, w: int, ties: int)
    requires DistinctHashes(ps) && LivingVoters(ps, ballots) && Tallied(ps, ballots)
    requires max >= 0 && forall j :: 0 <= j < |ps| && ps[j].alive ==> ps[j].votes <= max
    requires max > 0 ==> 0 <= w < |ps| && ps[w].alive && ps[w].votes == max && ties == Tied(ps, max)
    ensures (exists k :: HasMajority(ps, ballots, k)) <==> max > 0 && HasMajority(ps, ballots, w)
    ensures max > 0 && HasMajority(ps, ballots, w) <==> max >= Count(ps, Everyone) / 2 + 1
    ensures max > 0 && HasMajority(ps, ballots, w) ==> ties == 1
  {
    if max > 0 && HasMajority(ps, ballots, w) {
      MajorityIsAlone(ps, ballots, w);
    }
  }

  /** What happens between two timer events, and the timer itself. */
  datatype Event = Timeout | NightAction(player: string, target: string) | CastVote(voter: string, target: string)

  /** The game state after an event, with the votes accepted since voting began, the player named for
      execution and the actions of the night. */
  datatype Snapshot = Snapshot(phase: Phase, winner: Winner, counters: Counters, players: seq<Player>,
                               ballots: seq<Ballot>, executed: string, nightActions: map<string, string>)

  /** The event on which the server dereferences a null pointer: the end of a night whose report cannot be
      made. */
  predicate Crashing(s: Snapshot, e: Event) {
    e.Timeout? && s.phase == Night && DetectiveReport(s.players, s.nightActions) == NullPlayer
  }

  predicate CanNightAction(p: Player) { p.job == Mafia || p.job == Police || p.job == Detective }

  lemma OnlyTarget(ps: seq<Player>, k: nat, target: string)
    requires k < |ps| && (ps[k].alive && ps[k].job == Mafia ==> FairTarget(ps, target)) && TargetsFair(ps, true)
    ensures var after := ps[k := ps[k].(target := target)];
            TargetsFair(after, true) && SamePeople(ps, after) && TrueCounters(after) == TrueCounters(ps)
            && forall h :: Find(after, h) == Find(ps, h)
  {
    var after := ps[k := ps[k].(target := target)];
    CountSame(ps, after, Everyone);
    CountSame(ps, after, MafiaOnly);
    CountSame(ps, after, CitizensOnly);
    forall h ensures Find(after, h) == Find(ps, h) {
      SameFind(ps, after, h);
    }
  }

  /** Where a timeout leads. */
  predicate TimedOut(a: Phase, b: Phase) {
    match a
    case Night => b == Morning || b == GameOver
    case Morning => b == Voting
    case Voting => b == LastWords || b == Night
    case LastWords => b == Night || b == GameOver
    case _ => b == a
  }

  /** The counters are the true counts and add up; a game that is going on has one living Mafia and at
      least three living players; a finished one was won as the rules say; while voting, every count is
      the number of players whose latest accepted vote names its holder, and only the living have voted;
      who speaks last words is the living player more than half of the living vote for; and there are
      night actions only at night, by players only. */
  ghost predicate Sound(s: Snapshot) {
    && s.counters == TrueCounters(s.players) && s.counters.alive == s.counters.mafia + s.counters.citizens
    && s.phase != Waiting
    && (s.phase != GameOver ==> s.counters.mafia == 1 && s.counters.alive >= 3)
    && (s.phase == GameOver ==>
          || (s.winner == CitizenTeam && s.counters.mafia == 0)
          || (s.winner == MafiaTeam && s.counters.mafia == 1 && s.counters.alive == 2))
    && (s.phase == Voting ==> Tallied(s.players, s.ballots) && LivingVoters(s.players, s.ballots))
    && DistinctHashes(s.players)
    && (s.phase == LastWords ==> HasMajority(s.players, s.ballots, Find(s.players, s.executed)))
    && ActorsKnown(s.players, s.nightActions) && (s.phase != Night ==> s.nightActions == map[])
  }

  /** What each event does, where the server survives it. A night kills exactly the target chosen, an
      execution exactly the player named, and nothing else kills; nobody's team or hash ever changes, nobody returns from the dead,
      and after the end nothing happens. Voting starts without votes, takes exactly those of living
      players for living players, and ends in last words exactly when somebody has the majority. */
  ghost predicate Responds(a: Snapshot, e: Event, b: Snapshot) {
    && SamePeople(a.players, b.players) && (a.phase == GameOver ==> b == a)
    && match e
       case Timeout => !Crashing(a, e) && TimedOut(a.phase, b.phase) && Dies(a, b) && b.nightActions == map[]
       case NightAction(player, target) =>
         b == if NightAllowed(a, player) && FairEvent(a.players, e) then Acted(a, player, target) else a
       case CastVote(voter, target) =>
         if a.phase == Voting && NamesLiving(a.players, voter) && NamesLiving(a.players, target)
         then OnlyVotesDiffer(a.players, b.players)
              && b == a.(players := b.players, ballots := a.ballots + [Ballot(voter, target)])
         else b == a
  }

  /** The players after a timeout, and whom the vote names. */
  ghost predicate Dies(a: Snapshot, b: Snapshot) {
    match a.phase
    case Night =>
      && b.players == Untargeted(Killed(a.players, KillChoice(a.players)))
      && b.counters == AfterKill(a.counters, a.players, KillChoice(a.players))
      && b.ballots == a.ballots && b.executed == a.executed
    case Morning => OnlyVotesDiffer(a.players, b.players) && b.counters == a.counters && b.ballots == []
    case Voting =>
      && b.players == a.players && b.counters == a.counters && b.ballots == a.ballots
      && (b.phase == LastWords <==> exists k :: HasMajority(a.players, a.ballots, k))
      && (b.phase == LastWords ==> HasMajority(a.players, a.ballots, Find(a.players, b.executed)))
    case LastWords =>
      var k := Find(a.players, a.executed);
      k >= 0 && a.players[k].alive && b.players == a.players[k := a.players[k].(alive := false)]
    case _ => b == a
  }

  predicate NightAllowed(s: Snapshot, player: string) {
    var k := Find(s.players, player);
    s.phase == Night && k >= 0 && s.players[k].alive && CanNightAction(s.players[k])
  }

  function Targeted(ps: seq<Player>, player: string, target: string): (r: seq<Player>)
    ensures |r| == |ps|
  {
    var k := Find(ps, player);
    if k == -1 then ps else ps[k := ps[k].(target := target)]
  }

  /** The state after an accepted night action. */
  function Acted(s: Snapshot, player: string, target: string): Snapshot {
    s.(players := Targeted(s.players, player, target), nightActions := s.nightActions[player := target])
  }

  ghost predicate Chained(trace: seq<Snapshot>, events: seq<Event>) {
    |trace| == |events| + 1
    && forall k, j :: 0 <= k < |events| && j == k + 1 ==> Responds(trace[k], events[k], trace[j])
  }

  lemma ChainedNext(trace: seq<Snapshot>, events: seq<Event>, e: Event, s: Snapshot)
    requires Chained(trace, events) && Responds(Last(trace), e, s)
    ensures Chained(trace + [s], events + [e])
  {
    hide Responds;
  }

  predicate KnownEvent(ps: seq<Player>, e: Event) { e.NightAction? ==> Find(ps, e.target) >= 0 }

  /** Every night action of a run names a player. */
  ghost predicate AllKnown(ps: seq<Player>, events: seq<Event>) {
    forall k :: 0 <= k < |events| ==> KnownEvent(ps, events[k])
  }

  lemma NoActors(ps: seq<Player>)
    ensures ActorsKnown(ps, map[])
  {}

  lemma KnownNext(a: Snapshot, e: Event, b: Snapshot)
    requires Sound(a) && Responds(a, e, b) && TargetsKnown(a.players, a.nightActions) && KnownEvent(a.players, e)
    ensures TargetsKnown(b.players, b.nightActions)
  {
    hide Find, Dies, TimedOut, Crashing, FairEvent, NightAllowed, Targeted, NamesLiving;
    forall h | h in b.nightActions ensures Find(b.players, b.nightActions[h]) >= 0 {
      SameFind(a.players, b.players, b.nightActions[h]);
    }
  }

  /** Recorded targets name players through the whole run as long as every night action does. */
  lemma {:induction false} KnownKept(trace: seq<Snapshot>, events: seq<Event>, n: nat)
    requires n < |trace| && |trace| <= |events| + 1 && Chained(trace, events[..|trace| - 1])
    requires AllKnown(trace[0].players, events) && TargetsKnown(trace[0].players, trace[0].nightActions)
    requires forall k :: 0 <= k < |trace| ==> Sound(trace[k])
    ensures SamePeople(trace[0].players, trace[n].players) && TargetsKnown(trace[n].players, trace[n].nightActions)
  {
    hide Find, Sound, TargetsKnown;
    if n > 0 {
      KnownKept(trace, events, n - 1);
      assert Responds(trace[n - 1], events[n - 1], trace[n]);
      if events[n - 1].NightAction? {
        SameFind(trace[0].players, trace[n - 1].players, events[n - 1].target);
      }
      KnownNext(trace[n - 1], events[n - 1], trace[n]);
    }
  }

  lemma KnownNeverCrashes(s: Snapshot, e: Event)
    requires Sound(s) && TargetsKnown(s.players, s.nightActions)
    ensures !Crashing(s, e)
  {
    hide Find;
    ReportGuard(s.players, s.nightActions);
  }

  /** Any night in which a player names a target nobody has and the only Detective watches that player: the
      server accepts both, and the night cannot end. */
  lemma StrangerStopsNight(a: Snapshot, b: Snapshot, c: Snapshot, actor: string, detective: string, stranger: string)
    requires Sound(a) && NightAllowed(a, actor) && NightAllowed(a, detective) && actor != "" && actor != detective
    requires a.players[Find(a.players, detective)].job == Detective
    requires forall i :: 0 <= i < |a.players| && a.players[i].job == Detective ==> i == Find(a.players, detective)
    requires Find(a.players, stranger) == -1
    requires Responds(a, NightAction(actor, stranger), b) && Responds(b, NightAction(detective, actor), c)
    ensures FairEvent(a.players, NightAction(actor, stranger)) && FairEvent(b.players, NightAction(detective, actor))
    ensures Crashing(c, Timeout)
  {
    SameFind(a.players, b.players, detective);
    SameFind(a.players, b.players, actor);
    SameFind(a.players, c.players, actor);
    SameFind(a.players, c.players, stranger);
    OnlyChoice(c.players, Find(a.players, detective));
  }

  const SIX_PLAYERS: seq<Player> := [
    Player("m", Mafia, true, 0, ""), Player("p", Police, true, 0, ""), Player("d", Detective, true, 0, ""),
    Player("x", Citizen, true, 0, ""), Player("y", Citizen, true, 0, ""), Player("z", Citizen, true, 0, "")]

  /** Six living players, the first night: the Police names a stranger, the Detective watches the Police. */
  lemma StrangerExample()
    ensures var a := Snapshot(Night, Nobody, Counters(1, 5, 6), SIX_PLAYERS, [], "", map[]);
            var b := Acted(a, "p", "nobody");
            var c := Acted(b, "d", "p");
            && Sound(a) && Responds(a, NightAction("p", "nobody"), b) && Responds(b, NightAction("d", "p"), c)
            && Crashing(c, Timeout)
  {
    SixPlayersSound();
    hide Find, Sound, Responds, Crashing;
    var a := Snapshot(Night, Nobody, Counters(1, 5, 6), SIX_PLAYERS, [], "", map[]);
    var b := Acted(a, "p", "nobody");
    var c := Acted(b, "d", "p");
    ActedResponds(a, "p", "nobody");
    SameFind(a.players, b.players, "d");
    ActedResponds(b, "d", "p");
    StrangerStopsNight(a, b, c, "p", "d", "nobody");
  }

  lemma ActedResponds(a: Snapshot, player: string, target: string)
    requires NightAllowed(a, player) && FairEvent(a.players, NightAction(player, target))
    ensures Responds(a, NightAction(player, target), Acted(a, player, target))
    ensures SamePeople(a.players, Acted(a, player, target).players)
  {
    hide Find, FairTarget;
  }

  lemma SixPlayersSound()
    ensures Find(SIX_PLAYERS, "p") == 1 && Find(SIX_PLAYERS, "d") == 2 && Find(SIX_PLAYERS, "nobody") == -1
    ensures Sound(Snapshot(Night, Nobody, Counters(1, 5, 6), SIX_PLAYERS, [], "", map[]))
  {
    hide Find, Count;
    SixPlayersDiffer();
    FindAt(SIX_PLAYERS, 1);
    FindAt(SIX_PLAYERS, 2);
    OneMafia(SIX_PLAYERS, 0);
    TeamsAddUp(SIX_PLAYERS);
  }

  lemma SixPlayersDiffer()
    ensures DistinctHashes(SIX_PLAYERS)
  {
    assert forall i, j :: 0 <= i < j < 6 ==> SIX_PLAYERS[i].hash[0] != SIX_PLAYERS[j].hash[0];
  }

  /** A night action by a living Mafia aims at a living player of the other team, or at nobody that
      exists. */
  predicate FairEvent(ps: seq<Player>, e: Event) {
    match e
    case NightAction(player, target) =>
      var k := Find(ps, player);
      k >= 0 && ps[k].alive && ps[k].job == Mafia ==> FairTarget(ps, target)
    case _ => true
  }

  class GameMode {
    var players: seq<Player>
    var playerHashes: seq<string>
    var phase: Phase
    var winner: Winner
    var dayCount: int
    var mafiaCount: int
    var citizenTeamCount: int
    var alivePlayerCount: int
    var executedPlayerId: string
    var voteMap: map<string, string>
    var nightActions: map<string, string>
    /** The votes accepted since voting began. */
    ghost var ballots: seq<Ballot>

    ghost function Cached(): Counters
      reads this
    {
      Counters(mafiaCount, citizenTeamCount, alivePlayerCount)
    }

    ghost function Seen(): Snapshot
      reads this
    {
      Snapshot(phase, winner, Cached(), players, ballots, executedPlayerId, nightActions)
    }

    /** The vote map holds the latest accepted votes, of living voters, and the counts tally them. */
    ghost predicate VotesKept()
      reads this
    {
      && Tallied(players, ballots) && LivingVoters(players, ballots)
      && MapKept(players, voteMap, ballots)
    }

    ghost predicate Valid()
      reads this
    {
      && DistinctHashes(players) && Sound(Seen()) && dayCount >= 1 && (phase == Night ==> dayCount >= 2)
      && (phase != GameOver ==> TargetsFair(players, phase == Night))
      && (phase == Voting ==> VotesKept())
    }

    /** Six players have logged in and nothing has happened yet. */
    constructor (players: seq<Player>, playerHashes: seq<string>)
      ensures this.players == players && this.playerHashes == playerHashes && phase == Waiting && nightActions == map[]
    {
      this.players, this.playerHashes := players, playerHashes;
      phase, winner, dayCount := Waiting, Nobody, 0;
      mafiaCount, citizenTeamCount, alivePlayerCount := 0, 0, 0;
      executedPlayerId, voteMap, nightActions, ballots := "", map[], map[], [];
    }

    method FindPlayerStateByHash(hash: string) returns (r: int)
      ensures r == Find(players, hash)
    {
      for i := 0 to |players|
        invariant Find(players[..i], hash) == -1
      {
        assert Front(players[..i + 1]) == players[..i];
        if players[i].hash == hash {
          assert forall j :: 0 <= j < i ==> players[..i][j].hash != hash;
          return i;
        }
      }
      assert players[..|players|] == players;
      r := -1;
    }

    /** An arbitrary shuffle: whatever the rolls, a permutation of the six positions. */
    method Shuffle() returns (indices: seq<nat>)
      ensures |indices| == 6 && Distinct(indices) && AllBelow(indices, 6)
    {
      indices := [0, 1, 2, 3, 4, 5];
      for i := 6 downto 1
        invariant |indices| == 6 && Distinct(indices) && AllBelow(indices, 6)
      {
        var j: nat :| j <= i;
        SwapKeepsDistinct(indices, i, j);
        indices := indices[i := indices[j]][j := indices[i]];
      }
    }

    /** Deals the jobs and counts the teams. */
    method AssignJobs()
      modifies this`players, this`mafiaCount, this`citizenTeamCount, this`alivePlayerCount
      ensures |playerHashes| != 6 ==> unchanged(this)
      ensures SamePeopleButJobs(old(players), players)
      ensures |playerHashes| == 6 && Registered(old(players), playerHashes) && Fresh(old(players)) ==>
                Dealt(players) && Cached() == TrueCounters(players) == Counters(1, 5, 6)
    {
      hide Count, Distinct, AllBelow, JobFor, Dealt, DistinctHashes;
      if |playerHashes| != 6 {
        return;
      }
      var indices := Shuffle();
      ghost var before := players;
      var mafia, citizens := DealJobs(indices);
      mafiaCount, citizenTeamCount, alivePlayerCount := mafia, citizens, 6;
      if Registered(before, playerHashes) && Fresh(before) {
        ShuffleDeals(before, players, playerHashes, indices);
        DealtCounts(players);
        TeamsAddUp(players);
      }
    }

    method DealJobs(indices: seq<nat>) returns (mafia: int, citizens: int)
      requires |playerHashes| == |indices| == 6 && AllBelow(indices, 6)
      modifies this`players
      ensures |players| == |old(players)|
      ensures forall k :: 0 <= k < |players| ==> players[k] == old(players)[k].(job := JobFor(playerHashes, indices, old(players)[k]))
      ensures Registered(old(players), playerHashes) && Fresh(old(players)) ==>
                mafia == Count(players, MafiaOnly) && citizens == Count(players, CitizensOnly)
    {
      hide Count, DistinctHashes;
      ghost var before := players;
      mafia, citizens := 0, 0;
      NoneCounted();
      for i := 0 to |players|
        invariant |players| == |before|
        invariant forall k :: 0 <= k < |before| ==>
                    players[k] == if k < i then before[k].(job := JobFor(playerHashes, indices, before[k])) else before[k]
        invariant Registered(before, playerHashes) && Fresh(before) ==>
                    mafia == Count(players[..i], MafiaOnly) && citizens == Count(players[..i], CitizensOnly)
      {
        ghost var done := players[..i];
        var hashIndex := FindHash(players[i].hash);
        if hashIndex != -1 {
          var dealt := JOBS[indices[hashIndex]];
          players := players[i := players[i].(job := dealt)];
          if dealt == Mafia {
            mafia := mafia + 1;
          } else {
            citizens := citizens + 1;
          }
        }
        assert players[..i + 1] == done + [players[i]];
        CountNext(done, players[i], MafiaOnly);
        CountNext(done, players[i], CitizensOnly);
      }
      assert players[..|players|] == players;
    }

    method FindHash(hash: string) returns (r: int)
      ensures r == IndexOf(playerHashes, hash)
    {
      for i := 0 to |playerHashes|
        invariant IndexOf(playerHashes[..i], hash) == -1
      {
        assert Front(playerHashes[..i + 1]) == playerHashes[..i];
        if playerHashes[i] == hash {
          FirstIndex(playerHashes, hash, i);
          return i;
        }
      }
      assert playerHashes[..|playerHashes|] == playerHashes;
      r := -1;
    }

    method StartGame()
      requires DistinctHashes(players) && Dealt(players) && Fresh(players)
      requires |players| == 6 && Cached() == TrueCounters(players) && Cached() == Counters(1, 5, 6)
      requires nightActions == map[]
      modifies this
      ensures Valid() && phase == Morning && dayCount == 1 && players == old(players) && Cached() == old(Cached())
    {
      dayCount := 1;
      var ok := StartMorningPhase();
    }

    /** The last of the six players has logged in: jobs are dealt and the first morning begins. */
    method AutoStart()
      requires phase == Waiting && |playerHashes| == 6 && Registered(players, playerHashes) && Fresh(players)
      requires nightActions == map[]
      modifies this
      ensures Valid() && phase == Morning && dayCount == 1 && Dealt(players) && Cached() == Counters(1, 5, 6)
      ensures SamePeopleButJobs(old(players), players)
    {
      AssignJobs();
      StartGame();
    }

    /** Who wins, if anybody does. */
    method CheckWinCondition() returns (over: bool)
      modifies this`phase, this`winner
      ensures over <==> mafiaCount == 0 || (alivePlayerCount == 2 && mafiaCount == 1)
      ensures over ==> phase == GameOver && winner == if mafiaCount == 0 then CitizenTeam else MafiaTeam
      ensures !over ==> unchanged(this)
    {
      if mafiaCount == 0 {
        phase, winner := GameOver, CitizenTeam;
        return true;
      }
      if alivePlayerCount == 2 && mafiaCount == 1 {
        phase, winner := GameOver, MafiaTeam;
        return true;
      }
      return false;
    }

    /** Ready to leave the night: sound counters and fair targets, as they are during the game. */
    ghost predicate Settled()
      reads this
    {
      && DistinctHashes(players) && Cached() == TrueCounters(players)
      && mafiaCount == 1 && alivePlayerCount >= 3 && dayCount >= 1 && TargetsFair(players, dayCount != 1)
      && (dayCount == 1 ==> nightActions == map[])
    }

    /** The night's results, if there was a night, and the next morning or the end of the game; where the
        results cannot be reported the server stops in the night. */
    method StartMorningPhase() returns (ok: bool)
      requires Settled()
      modifies this`players, this`citizenTeamCount, this`alivePlayerCount, this`nightActions, this`phase, this`winner
      ensures ok <==> dayCount == 1 || DetectiveReport(old(players), old(nightActions)) != NullPlayer
      ensures SamePeople(old(players), players)
      ensures dayCount == 1 ==> players == old(players) && phase == Morning && Cached() == old(Cached())
      ensures dayCount != 1 ==> Cached() == AfterKill(old(Cached()), old(players), KillChoice(old(players)))
      ensures ok ==> Valid() && (phase == Morning || phase == GameOver) && (phase == GameOver <==> alivePlayerCount == 2)
      ensures ok && dayCount != 1 ==> players == Untargeted(Killed(old(players), KillChoice(old(players))))
      ensures !ok ==> players == Killed(old(players), KillChoice(old(players))) && phase == old(phase)
    {
      hide Count, KillChoice, DetectiveReport, Find, Killed, AfterKill, Untargeted, DistinctHashes, FairTarget;
      if dayCount != 1 {
        NightKeepsSettled(players);
        KilledSame(players, KillChoice(players));
        var report := ProcessNightResults();
        if report == NullPlayer {
          return false;
        }
      }
      ok := true;
      TeamsAddUp(players);
      var over := CheckWinCondition();
      if over {
        return;
      }
      phase := Morning;
    }

    /** The night's kill, and the report to the Detective, on which the server stops if a player it looks
        up does not exist. */
    method ProcessNightResults() returns (report: Report)
      modifies this`players, this`citizenTeamCount, this`alivePlayerCount, this`nightActions
      ensures report == DetectiveReport(old(players), old(nightActions))
      ensures Cached() == AfterKill(old(Cached()), old(players), KillChoice(old(players)))
      ensures var after := Killed(old(players), KillChoice(old(players)));
              players == if report == NullPlayer then after else Untargeted(after)
      ensures nightActions == if report == NullPlayer then old(nightActions) else map[]
    {
      hide Find, Untargeted, SamePeople, ReportOn;
      var killedPlayerId, detectiveTargetId := "", "";
      for i := 0 to |players|
        invariant killedPlayerId == KillChoice(players[..i]) && detectiveTargetId == Choice(players[..i], Detective)
      {
        assert Front(players[..i + 1]) == players[..i];
        var p := players[i];
        if !p.alive || p.target == "" {
          continue;
        }
        match p.job {
          case Mafia => killedPlayerId := p.target;
          case Detective => detectiveTargetId := p.target;
          case _ =>
        }
      }
      assert players[..|players|] == players;
      KilledSame(players, killedPlayerId);
      if killedPlayerId != "" {
        var k := FindPlayerStateByHash(killedPlayerId);
        if k != -1 {
          players := players[k := players[k].(alive := false)];
          if players[k].job != Mafia {
            citizenTeamCount := citizenTeamCount - 1;
          }
          alivePlayerCount := alivePlayerCount - 1;
        }
      }
      SameReport(old(players), players, nightActions, detectiveTargetId);
      report := VisitInfo(detectiveTargetId);
      if report == NullPlayer {
        return;
      }
      ResetTargets();
      nightActions := map[];
    }

    method VisitInfo(detectiveTargetId: string) returns (report: Report)
      ensures report == ReportOn(players, nightActions, detectiveTargetId)
    {
      if detectiveTargetId == "" {
        return NoReport;
      }
      if detectiveTargetId !in nightActions {
        return StayedHome(detectiveTargetId);
      }
      var watched := FindPlayerStateByHash(detectiveTargetId);
      var visited := FindPlayerStateByHash(nightActions[detectiveTargetId]);
      if watched == -1 || visited == -1 {
        return NullPlayer;
      }
      report := Visited(watched, visited);
    }

    method ResetTargets()
      modifies this`players
      ensures players == Untargeted(old(players))
    {
      ghost var before := players;
      for i := 0 to |players|
        invariant |players| == |before|
        invariant forall k :: 0 <= k < |before| ==> players[k] == if k < i then before[k].(target := "") else before[k]
      {
        players := players[i := players[i].(target := "")];
      }
    }

    /** A new vote starts from zero. */
    method StartVotingPhase()
      requires Valid() && phase == Morning
      modifies this`players, this`phase, this`voteMap, this`ballots
      ensures Valid() && phase == Voting && voteMap == map[] && ballots == []
      ensures Cached() == old(Cached()) && OnlyVotesDiffer(old(players), players)
      ensures forall i :: 0 <= i < |players| ==> players[i].votes == 0
    {
      hide ActorsKnown, Tally, Tallied, LivingVoters, MapKept, Latest, Count, Find, FairTarget, HasMajority;
      phase := Voting;
      voteMap := map[];
      ballots := [];
      ghost var before := players;
      for i := 0 to |players|
        invariant |players| == |before|
        invariant forall k :: 0 <= k < |before| ==> players[k] == if k < i then before[k].(votes := 0) else before[k]
        invariant phase == Voting && voteMap == map[] && ballots == []
      {
        players := players[i := players[i].(votes := 0)];
      }
      OnlyVotes(before, players);
      NoActors(players);
      FairKept(before, players);
      NoVotes(players);
    }

    method StartNightPhase()
      modifies this`phase
      ensures phase == Night
    {
      phase := Night;
    }

    method StartLastWordsPhase(playerId: string)
      modifies this`phase, this`executedPlayerId
      ensures phase == LastWords && executedPlayerId == playerId
    {
      phase := LastWords;
      executedPlayerId := playerId;
    }

    /** A vote counts exactly when voting is open and voter and target are living players. */
    method ServerCastVote(voterId: string, targetId: string)
      requires Valid()
      modifies this`players, this`voteMap, this`ballots
      ensures Valid()
      ensures var accepted := phase == Voting && NamesLiving(old(players), voterId) && NamesLiving(old(players), targetId);
              && (!accepted ==> unchanged(this))
              && (accepted ==> ballots == old(ballots) + [Ballot(voterId, targetId)]
                               && voteMap == old(voteMap)[voterId := targetId])
      ensures OnlyVotesDiffer(old(players), players)
    {
      hide Latest, Tally, Tallied, MapKept, LivingVoters, Find, Count, Voted, FairTarget, ActorsKnown;
      if phase != Voting {
        return;
      }
      var v := FindPlayerStateByHash(voterId);
      var t := FindPlayerStateByHash(targetId);
      if v == -1 || t == -1 || !players[v].alive || !players[t].alive {
        return;
      }
      ghost var before, b := players, Ballot(voterId, targetId);
      ghost var q := if voterId in voteMap then Find(players, voteMap[voterId]) else -1;
      PreviousKept(players, voteMap, ballots, voterId, q);
      VoteCounted(before, ballots, b, v, q, t);
      MapNext(before, voteMap, ballots, b);
      VotersNext(before, ballots, b, v);
      ReplaceVote(voterId, targetId, t);
      OnlyVotes(before, players);
      NoActors(players);
      StillKept(before, players, voteMap, ballots + [b]);
      FairKept(before, players);
      ballots := ballots + [b];
    }

    /** Takes back the voter's previous vote and records the new one, for player t. */
    method ReplaceVote(voterId: string, targetId: string, t: nat)
      requires t < |players|
      modifies this`players, this`voteMap
      ensures voteMap == old(voteMap)[voterId := targetId]
      ensures players == Voted(old(players), if voterId in old(voteMap) then Find(old(players), old(voteMap)[voterId]) else -1, t)
    {
      hide Find;
      if voterId in voteMap {
        var prev := FindPlayerStateByHash(voteMap[voterId]);
        if prev != -1 {
          var newCount := if players[prev].votes - 1 < 0 then 0 else players[prev].votes - 1;
          players := players[prev := players[prev].(votes := newCount)];
        }
        voteMap := voteMap - {voterId};
      }
      voteMap := voteMap[voterId := targetId];
      players := players[t := players[t].(votes := players[t].votes + 1)];
    }

    /** The most votes anybody living has, somebody who has them, and how many do. */
    method Standing() returns (maxVotes: int, mostVotedPlayerId: string, tieCount: int, ghost w: int)
      ensures maxVotes >= 0 && forall j :: 0 <= j < |players| && players[j].alive ==> players[j].votes <= maxVotes
      ensures maxVotes == 0 ==> tieCount == 0
      ensures maxVotes > 0 ==>
                && 0 <= w < |players| && players[w].alive && players[w].votes == maxVotes && players[w].hash == mostVotedPlayerId
                && tieCount == Tied(players, maxVotes)
    {
      maxVotes, mostVotedPlayerId, tieCount, w := 0, "", 0, -1;
      for i := 0 to |players|
        invariant maxVotes >= 0 && forall j :: 0 <= j < i && players[j].alive ==> players[j].votes <= maxVotes
        invariant maxVotes == 0 ==> tieCount == 0
        invariant maxVotes > 0 ==>
                    && 0 <= w < i && players[w].alive && players[w].votes == maxVotes && players[w].hash == mostVotedPlayerId
                    && tieCount == Tied(players[..i], maxVotes)
      {
        assert Front(players[..i + 1]) == players[..i];
        if !players[i].alive {
          continue;
        }
        if players[i].votes > maxVotes {
          NoneTied(players[..i], players[i].votes);
          maxVotes, mostVotedPlayerId, tieCount, w := players[i].votes, players[i].hash, 1, i;
        } else if players[i].votes == maxVotes && maxVotes > 0 {
          tieCount := tieCount + 1;
        }
      }
      assert players[..|players|] == players;
    }

    /** Last words for the player more than half of the living vote for, if there is one; otherwise the
        next night. */
    method ProcessVotingResults()
      requires Valid() && phase == Voting
      modifies this`phase, this`winner, this`executedPlayerId, this`dayCount
      ensures Valid() && players == old(players)
      ensures phase == LastWords <==> exists k :: HasMajority(players, ballots, k)
      ensures phase == LastWords ==> HasMajority(players, ballots, Find(players, executedPlayerId)) && dayCount == old(dayCount)
      ensures phase != LastWords ==> phase == Night && dayCount == old(dayCount) + 1
    {
      hide Count, Tally, Latest, FairTarget, Tallied, LivingVoters, MapKept;
      var majorityVotes := alivePlayerCount / 2 + 1;
      var maxVotes, mostVotedPlayerId, tieCount, w := Standing();
      MajorityFound(players, ballots, maxVotes, w, tieCount);
      if maxVotes >= majorityVotes && tieCount == 1 {
        FindAt(players, w);
        StartLastWordsPhase(mostVotedPlayerId);
        assert HasMajority(players, ballots, w);
      } else {
        var over := CheckWinCondition();
        if over {
          return;
        }
        dayCount := dayCount + 1;
        StartNightPhase();
      }
    }

    /** The executed player dies and the counters follow; the game ends or night falls. */
    method ProcessExecution()
      requires Valid() && phase == LastWords
      modifies this`players, this`phase, this`winner, this`dayCount, this`mafiaCount, this`citizenTeamCount, this`alivePlayerCount
      ensures Valid() && (phase == Night || phase == GameOver)
      ensures var k := Find(old(players), executedPlayerId);
              && k >= 0 && old(players)[k].alive && players == old(players)[k := old(players)[k].(alive := false)]
              && (winner == CitizenTeam && phase == GameOver <==> players[k].job == Mafia)
      ensures SamePeople(old(players), players) && (phase == Night ==> dayCount == old(dayCount) + 1)
    {
      hide Count, FairTarget, Find, DistinctHashes, Tally, Tallied, LivingVoters, MapKept, Latest, ActorsKnown;
      var e := FindPlayerStateByHash(executedPlayerId);
      if e == -1 {
        return;
      }
      TeamsAddUp(players);
      ExecutionCounted(players, e);
      DeathKeeps(players, e);
      NoActors(players[e := players[e].(alive := false)]);
      players := players[e := players[e].(alive := false)];
      if players[e].job == Mafia {
        mafiaCount := mafiaCount - 1;
      } else {
        citizenTeamCount := citizenTeamCount - 1;
      }
      alivePlayerCount := alivePlayerCount - 1;
      var over := CheckWinCondition();
      if over {
        return;
      }
      dayCount := dayCount + 1;
      StartNightPhase();
    }

    /** A living player with a night ability names a target, which the server does not check. */
    method ServerProcessNightAction(playerId: string, targetId: string)
      requires Valid()
      modifies this`players, this`nightActions
      ensures var accepted := NightAllowed(old(Seen()), playerId);
              && (!accepted ==> unchanged(this))
              && (accepted ==> players == Targeted(old(players), playerId, targetId)
                               && nightActions == old(nightActions)[playerId := targetId])
      ensures FairEvent(old(players), NightAction(playerId, targetId)) ==> Valid() && SamePeople(old(players), players)
    {
      hide Count, Find, FairTarget;
      if phase != Night {
        return;
      }
      var k := FindPlayerStateByHash(playerId);
      if k == -1 || !players[k].alive || !CanNightAction(players[k]) {
        return;
      }
      if players[k].job == Mafia ==> FairTarget(players, targetId) {
        OnlyTarget(players, k, targetId);
      }
      nightActions := nightActions[playerId := targetId];
      players := players[k := players[k].(target := targetId)];
    }

    /** The phase timer. */
    method OnPhaseTimeEnd() returns (ok: bool)
      requires Valid()
      modifies this
      ensures ok <==> !Crashing(old(Seen()), Timeout)
      ensures ok ==> Valid() && Responds(old(Seen()), Timeout, Seen())
    {
      hide Count, Find, FairTarget, HasMajority, KillChoice, DetectiveReport, Killed, AfterKill, Untargeted, Tally, Tallied,
           DistinctHashes;
      ok := true;
      match phase {
        case Night =>
          ok := StartMorningPhase();
        case Morning =>
          StartVotingPhase();
          OnlyVotes(old(players), players);
        case Voting => ProcessVotingResults();
        case LastWords => ProcessExecution();
        case _ =>
      }
    }

    /** Any run of timer events, night actions and votes, in which the Mafia targets fairly: every state
        is sound and every event does exactly what the rules say, up to the first night whose report
        cannot be made. There is none if every player named as a target exists. */
    method Play(events: seq<Event>) returns (ghost trace: seq<Snapshot>, completed: bool)
      requires Valid()
      modifies this
      ensures 0 < |trace| <= |events| + 1 && trace[0] == old(Seen()) && Chained(trace, events[..|trace| - 1])
      ensures forall k :: 0 <= k < |trace| ==> Sound(trace[k])
      ensures completed ==> |trace| == |events| + 1 && Valid() && Last(trace) == Seen()
      ensures !completed ==> |trace| <= |events| && Crashing(Last(trace), events[|trace| - 1])
      ensures TargetsKnown(old(players), old(nightActions)) && AllKnown(old(players), events) ==> completed
    {
      hide Sound, Responds, Crashing, Count, Find, TargetsKnown, AllKnown;
      trace := [Seen()];
      for i := 0 to |events|
        invariant Valid() && |trace| == i + 1 && trace[0] == old(Seen()) && Last(trace) == Seen()
        invariant forall k :: 0 <= k < |trace| ==> Sound(trace[k])
        invariant Chained(trace, events[..i])
      {
        var ok := Handle(events[i]);
        if !ok {
          if TargetsKnown(old(players), old(nightActions)) && AllKnown(old(players), events) {
            KnownKept(trace, events, i);
            KnownNeverCrashes(trace[i], events[i]);
          }
          return trace, false;
        }
        ChainedNext(trace, events[..i], events[i], Seen());
        assert events[..i + 1] == events[..i] + [events[i]];
        trace := trace + [Seen()];
      }
      assert events[..|events|] == events;
      completed := true;
    }

    /** One event; an unfair night target is taken out of the run and changes nothing. */
    method Handle(e: Event) returns (ok: bool)
      requires Valid()
      modifies this
      ensures ok <==> !Crashing(old(Seen()), e)
      ensures ok ==> Valid() && Responds(old(Seen()), e, Seen())
      ensures !FairEvent(old(players), e) ==> unchanged(this)
    {
      hide Count, Find, FairTarget, NamesLiving, Targeted, Tallied, HasMajority, TrueCounters, DetectiveReport;
      ok := true;
      if !FairEvent(players, e) {
        return;
      }
      match e {
        case Timeout => ok := OnPhaseTimeEnd();
        case NightAction(player, target) => ServerProcessNightAction(player, target);
        case CastVote(voter, target) =>
          ServerCastVote(voter, target);
          OnlyVotes(old(players), players);
      }
    }
  }
}
