/** The match registry (`MatchService`): recorded matches in creation order
    and the id counter, with creation, per-player filtering and the two
    statistics.  Players are looked up in the player registry passed in. */
module MatchService {
  import opened Results
  import opened JavaInt
  import opened Dates
  import opened Seqs
  import Players
  import opened Matches
  import MatchStore
  import Store
  import PlayerService

  datatype Registry = Registry(matches: seq<Match>, nextId: int)

  /** The registry invariant: the counter is one above the largest match id
      (1 when empty) and match ids are distinct. */
  predicate Valid(r: Registry) {
    r.nextId == NextId(Ids(r.matches)) && DistinctIds(r.matches)
  }

  /** Every match names two players of `players`. */
  predicate Resolves(ms: seq<Match>, players: seq<Players.Player>) {
    forall i :: 0 <= i < |ms| ==> Players.HasId(players, ms[i].player1) && Players.HasId(players, ms[i].player2)
  }

  /** The rules `createMatch` enforces: two different players and
      non-negative scores. */
  predicate Legal(m: Match) {
    m.player1 != m.player2 && m.score1 >= 0 && m.score2 >= 0
  }

  /** The constructor: the loaded matches and the counter seeded one above
      their largest id, or 1 when nothing was loaded. */
  function Init(loaded: seq<Match>): (r: Registry)
    ensures r.matches == loaded
    ensures forall i :: 0 <= i < |loaded| ==> loaded[i].id < r.nextId
    ensures |loaded| == 0 ==> r.nextId == 1
    ensures |loaded| > 0 ==> exists i :: 0 <= i < |loaded| && loaded[i].id == r.nextId - 1
    ensures DistinctIds(loaded) <==> Valid(r)
  {
    Registry(loaded, NextId(Ids(loaded)))
  }

  /** The constructor as it runs at start-up: the match store is read
      against the players already registered, so every loaded match
      resolves. */
  function Open(store: Option<seq<string>>, players: PlayerService.Registry): (r: Registry)
    ensures store.None? ==> r == Registry([], 1)
    ensures Resolves(r.matches, players.players)
  {
    var r := Init(MatchStore.Load(store, players.players));
    forall i | 0 <= i < |r.matches|
      ensures Players.HasId(players.players, r.matches[i].player1) && Players.HasId(players.players, r.matches[i].player2)
    {
      MatchStore.LoadedMatchesResolve(store, players.players, i);
    }
    r
  }

  /** `createMatch`: the checks run in this order — same player on both
      sides, a negative score, the first player unknown, the second player
      unknown — and the first that fails is reported with nothing changed.
      On success the match takes the counter as its id and `today` as its
      date, is appended, the counter moves up by one and the whole list is
      written to the store. */
  function CreateMatch(r: Registry, players: PlayerService.Registry, p1: int, p2: int, s1: int, s2: int, today: Date): (s: Step<Registry, Match>)
    ensures p1 == p2 ==> s.result == Failure(InvalidMatch(SelfMatch))
    ensures p1 != p2 && (s1 < 0 || s2 < 0) ==> s.result == Failure(InvalidMatch(NegativeScore))
    ensures p1 != p2 && s1 >= 0 && s2 >= 0 && !Players.HasId(players.players, p1) ==> s.result == Failure(PlayerNotFound(p1))
    ensures p1 != p2 && s1 >= 0 && s2 >= 0 && Players.HasId(players.players, p1) && !Players.HasId(players.players, p2)
            ==> s.result == Failure(PlayerNotFound(p2))
    ensures s.result.Success? <==> p1 != p2 && s1 >= 0 && s2 >= 0 && Players.HasId(players.players, p1) && Players.HasId(players.players, p2)
    ensures s.result.Failure? ==> s.state == r && s.written.None?
    ensures s.result.Success? ==> s.result.value == Match(r.nextId, p1, p2, s1, s2, today)
    ensures s.result.Success? ==> s.state == Registry(r.matches + [s.result.value], r.nextId + 1)
    ensures s.result.Success? ==> s.written == Some(MatchStore.Save(s.state.matches))
    ensures s.result.Success? ==> Legal(s.result.value)
    ensures Valid(r) ==> Valid(s.state)
    ensures Resolves(r.matches, players.players) ==> Resolves(s.state.matches, players.players)
  {
    if p1 == p2 then
      Step(r, Failure(InvalidMatch(SelfMatch)), None)
    else if s1 < 0 || s2 < 0 then
      Step(r, Failure(InvalidMatch(NegativeScore)), None)
    else
      match PlayerService.FindById(players, p1)
      case Failure(e) => Step(r, Failure(e), None)
      case Success(_) =>
        match PlayerService.FindById(players, p2)
        case Failure(e) => Step(r, Failure(e), None)
        case Success(_) =>
          var m := Match(r.nextId, p1, p2, s1, s2, today);
          var matches := r.matches + [m];
          CreateKeepsValid(r, m);
          Step(Registry(matches, r.nextId + 1), Success(m), Some(MatchStore.Save(matches)))
  }

  lemma CreateKeepsValid(r: Registry, m: Match)
    requires m.id == r.nextId
    ensures Valid(r) ==> Valid(Registry(r.matches + [m], r.nextId + 1))
  {
    if Valid(r) {
      assert Ids(r.matches + [m]) == Ids(r.matches) + [m.id];
      NextIdSnoc(Ids(r.matches), m.id);
    }
  }

  /** Resolution survives the player registry growing, so adding players
      after matches were recorded never orphans a match. */
  lemma ResolvesAfterAddPlayer(ms: seq<Match>, players: PlayerService.Registry, nickname: string, level: int, score: int)
    requires Resolves(ms, players.players)
    ensures Resolves(ms, PlayerService.AddPlayer(players, nickname, level, score).state.players)
  {
    var after := PlayerService.AddPlayer(players, nickname, level, score).state.players;
    forall i | 0 <= i < |ms| ensures Players.HasId(after, ms[i].player1) && Players.HasId(after, ms[i].player2) {
      var a :| 0 <= a < |players.players| && players.players[a].id == ms[i].player1;
      var b :| 0 <= b < |players.players| && players.players[b].id == ms[i].player2;
      assert after[a] == players.players[a] && after[b] == players.players[b];
    }
  }

  /** `getMatchesByPlayer`: the matches the player takes part in, in
      creation order. */
  function MatchesByPlayer(ms: seq<Match>, playerId: int): (r: seq<Match>)
    ensures |r| <= |ms|
    ensures forall m :: m in r <==> m in ms && Involves(m, playerId)
    decreases |ms|
  {
    if |ms| == 0 then []
    else
      var rest := MatchesByPlayer(ms[1..], playerId);
      assert forall m :: m in ms <==> m == ms[0] || m in ms[1..];
      if Involves(ms[0], playerId) then [ms[0]] + rest else rest
  }

  lemma {:induction false} MatchesByPlayerAppend(ms: seq<Match>, m: Match, playerId: int)
    ensures MatchesByPlayer(ms + [m], playerId)
            == MatchesByPlayer(ms, playerId) + (if Involves(m, playerId) then [m] else [])
    decreases |ms|
  {
    if |ms| == 0 {
      assert ms + [m] == [m];
      assert [m][1..] == [];
    } else {
      assert (ms + [m])[1..] == ms[1..] + [m];
      MatchesByPlayerAppend(ms[1..], m, playerId);
    }
  }

  /** A new match shows up in the lists of exactly its two players; every
      other list is unchanged. */
  lemma MatchesByPlayerAfterCreate(r: Registry, players: PlayerService.Registry, p1: int, p2: int, s1: int, s2: int, today: Date, playerId: int)
    requires CreateMatch(r, players, p1, p2, s1, s2, today).result.Success?
    ensures var s := CreateMatch(r, players, p1, p2, s1, s2, today);
            MatchesByPlayer(s.state.matches, playerId)
            == MatchesByPlayer(r.matches, playerId) + (if playerId == p1 || playerId == p2 then [s.result.value] else [])
  {
    var s := CreateMatch(r, players, p1, p2, s1, s2, today);
    MatchesByPlayerAppend(r.matches, s.result.value, playerId);
  }

  /** The exact points of a match, and the Java int sum of its two scores. */
  function ExactPoints(ms: seq<Match>): (xs: seq<int>)
    ensures |xs| == |ms|
    ensures forall i :: 0 <= i < |ms| ==> xs[i] == ms[i].score1 + ms[i].score2
  {
    seq(|ms|, i requires 0 <= i < |ms| => ms[i].score1 + ms[i].score2)
  }

  function Points(ms: seq<Match>): (xs: seq<int>)
    ensures |xs| == |ms|
    ensures forall i :: 0 <= i < |ms| ==> xs[i] == Wrap32(ms[i].score1 + ms[i].score2)
  {
    seq(|ms|, i requires 0 <= i < |ms| => Wrap32(ms[i].score1 + ms[i].score2))
  }

  lemma {:induction false} PointsSameBits(ms: seq<Match>)
    ensures SameBits(Sum(Points(ms)), Sum(ExactPoints(ms)))
    decreases |ms|
  {
    if |ms| > 0 {
      assert Points(ms)[1..] == Points(ms[1..]);
      assert ExactPoints(ms)[1..] == ExactPoints(ms[1..]);
      PointsSameBits(ms[1..]);
      SameBitsAdd(Points(ms)[0], ExactPoints(ms)[0], Sum(Points(ms[1..])), Sum(ExactPoints(ms[1..])));
    }
  }

  /** `getTotalPointsPlayed`: the int sum over all matches of both scores;
      it agrees with the exact total up to 32-bit wrap-around, and equals it
      whenever that fits in an int. */
  function TotalPointsPlayed(r: Registry): (total: int)
    ensures |r.matches| == 0 ==> total == 0
    ensures total == Wrap32(Sum(ExactPoints(r.matches)))
    ensures IsInt32(Sum(ExactPoints(r.matches))) ==> total == Sum(ExactPoints(r.matches))
  {
    var total := IntSum(Points(r.matches));
    PointsSameBits(r.matches);
    SameBitsWrap(Sum(Points(r.matches)), Sum(ExactPoints(r.matches)));
    if IsInt32(Sum(ExactPoints(r.matches))) then
      WrapOfInt32(Sum(ExactPoints(r.matches)));
      total
    else total
  }

  /** The total over (10, 5) and (3, 3) is 21. */
  lemma TotalPointsSample(a: int, b: int, d: Date)
    ensures TotalPointsPlayed(Registry([Match(1, a, b, 10, 5, d), Match(2, a, b, 3, 3, d)], 3)) == 21
  {
    var ms := [Match(1, a, b, 10, 5, d), Match(2, a, b, 3, 3, d)];
    assert ExactPoints(ms) == [15, 6];
    assert Sum([15, 6]) == 21 by {
      assert [15, 6][1..] == [6];
      assert [6][1..] == [];
    }
    WrapOfInt32(21);
  }

  /** `countWins`: how many matches name the player as winner; ties count
      for nobody, and no player wins more matches than it plays. */
  function CountWins(ms: seq<Match>, playerId: int): (n: nat)
    ensures n <= |MatchesByPlayer(ms, playerId)|
    decreases |ms|
  {
    if |ms| == 0 then 0
    else (if Winner(ms[0]) == Some(playerId) then 1 else 0) + CountWins(ms[1..], playerId)
  }

  /** Matches without a winner. */
  function CountTies(ms: seq<Match>): (n: nat)
    ensures n <= |ms|
    decreases |ms|
  {
    if |ms| == 0 then 0
    else (if Winner(ms[0]).None? then 1 else 0) + CountTies(ms[1..])
  }

  lemma {:induction false} CountWinsAppend(ms: seq<Match>, m: Match, playerId: int)
    ensures CountWins(ms + [m], playerId) == CountWins(ms, playerId) + (if Winner(m) == Some(playerId) then 1 else 0)
    decreases |ms|
  {
    if |ms| == 0 {
      assert ms + [m] == [m];
      assert [m][1..] == [];
    } else {
      assert (ms + [m])[1..] == ms[1..] + [m];
      CountWinsAppend(ms[1..], m, playerId);
    }
  }

  /** A created match adds one win for the higher scorer and none on a
      tie. */
  lemma CountWinsAfterCreate(r: Registry, players: PlayerService.Registry, p1: int, p2: int, s1: int, s2: int, today: Date, playerId: int)
    requires CreateMatch(r, players, p1, p2, s1, s2, today).result.Success?
    ensures var after := CreateMatch(r, players, p1, p2, s1, s2, today).state.matches;
            CountWins(after, playerId)
            == CountWins(r.matches, playerId) + (if (s1 > s2 && playerId == p1) || (s2 > s1 && playerId == p2) then 1 else 0)
  {
    var s := CreateMatch(r, players, p1, p2, s1, s2, today);
    CountWinsAppend(r.matches, s.result.value, playerId);
  }

  /** Between two players, every match is a win for one of them or a tie. */
  lemma {:induction false} WinsPartition(ms: seq<Match>, a: int, b: int)
    requires a != b
    requires forall i :: 0 <= i < |ms| ==> (ms[i].player1 == a && ms[i].player2 == b) || (ms[i].player1 == b && ms[i].player2 == a)
    ensures CountWins(ms, a) + CountWins(ms, b) + CountTies(ms) == |ms|
    decreases |ms|
  {
    if |ms| > 0 {
      WinsPartition(ms[1..], a, b);
    }
  }

  /** The counter as the source computes it, with 32-bit int addition. */
  function InitAsWritten(loaded: seq<Match>): (r: Registry)
    ensures r.matches == loaded
    ensures IsInt32(MaxOrZero(Ids(loaded)) + 1) ==> r == Init(loaded)
  {
    Registry(loaded, NextIdAsWritten(Ids(loaded)))
  }

  /** With the 32-bit counter, a store holding the match ids `MAX_INT` and
      `MIN_INT` seeds the counter with `MIN_INT`, so the next match gets an
      id that is already taken. */
  lemma InitAsWrittenReusesId(players: PlayerService.Registry, p1: int, p2: int, d: Date, today: Date)
    requires p1 != p2 && Players.HasId(players.players, p1) && Players.HasId(players.players, p2)
    ensures var loaded := [Match(MAX_INT, p1, p2, 1, 0, d), Match(MIN_INT, p1, p2, 0, 1, d)];
            var s := CreateMatch(InitAsWritten(loaded), players, p1, p2, 2, 2, today);
            && s.result.Success?
            && s.result.value.id == loaded[1].id
            && !DistinctIds(s.state.matches)
  {
    var loaded := [Match(MAX_INT, p1, p2, 1, 0, d), Match(MIN_INT, p1, p2, 0, 1, d)];
    assert InitAsWritten(loaded) == Registry(loaded, MIN_INT) by {
      NextIdAsWrittenWraps();
      assert Ids(loaded) == [MAX_INT, MIN_INT];
    }
    var s := CreateMatch(Registry(loaded, MIN_INT), players, p1, p2, 2, 2, today);
    assert s.state.matches[1].id == s.state.matches[2].id;
  }

  /** Restarting from the file that was written reproduces the registry,
      provided every match is storable and resolves against the same
      players. */
  lemma ReopenAfterSave(r: Registry, players: PlayerService.Registry)
    requires Valid(r) && Resolves(r.matches, players.players)
    requires forall i :: 0 <= i < |r.matches| ==> MatchStore.Storable(r.matches[i])
    ensures Open(Some(Store.ReadLines(Store.WriteLines(MatchStore.Save(r.matches)))), players) == r
  {
    MatchStore.LoadSave(r.matches, players.players);
  }
}
