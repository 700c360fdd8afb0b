/** The player registry (`PlayerService`): the loaded players in insertion
    order and the id counter, with add, lookup, ranking and sum queries.
    Every mutating call returns the registry afterwards instead of
    changing one in place. */
module PlayerService {
  import opened Results
  import opened JavaInt
  import opened Text
  import opened Seqs
  import opened Players
  import PlayerStore
  import Store

  datatype Registry = Registry(players: seq<Player>, nextId: int)

  /** No two nicknames collide when case is ignored. */
  predicate DistinctNicknames(ps: seq<Player>) {
    forall i, j :: 0 <= i < |ps| && 0 <= j < |ps| && i != j ==> !EqualsIgnoreCase(ps[i].nickname, ps[j].nickname)
  }

  /** The registry invariant: the counter is one above the largest id (1
      when empty), ids are distinct, and nicknames are distinct ignoring case. */
  predicate Valid(r: Registry) {
    && r.nextId == NextId(Ids(r.players))
    && DistinctIds(r.players)
    && DistinctNicknames(r.players)
  }

  /** The constructor: the loaded players, and the counter seeded one above
      their largest id, or 1 when nothing was loaded. */
  function Init(loaded: seq<Player>): (r: Registry)
    ensures r.players == loaded
    ensures forall i :: 0 <= i < |loaded| ==> loaded[i].id < r.nextId
    ensures |loaded| == 0 ==> r.nextId == 1
    ensures |loaded| > 0 ==> exists i :: 0 <= i < |loaded| && loaded[i].id == r.nextId - 1
    ensures DistinctIds(loaded) && DistinctNicknames(loaded) ==> Valid(r)
  {
    Registry(loaded, NextId(Ids(loaded)))
  }

  /** The constructor as it runs at start-up, reading the player store. */
  function Open(store: Option<seq<string>>): (r: Registry)
    ensures store.None? ==> r == Registry([], 1)
  {
    Init(PlayerStore.Load(store))
  }

  /** Some registered nickname equals `nickname` ignoring case. */
  predicate NicknameTaken(ps: seq<Player>, nickname: string) {
    exists i :: 0 <= i < |ps| && EqualsIgnoreCase(ps[i].nickname, nickname)
  }

  /** `addPlayer`: the nickname is checked against every registered one,
      ignoring case, before anything changes; it is neither trimmed nor
      checked for emptiness.  On success the new player takes the counter as
      its id, is appended, the counter moves up by one and the whole list is
      written to the store. */
  function AddPlayer(r: Registry, nickname: string, level: int, score: int): (s: Step<Registry, Player>)
    ensures s.result.Failure? <==> NicknameTaken(r.players, nickname)
    ensures s.result.Failure? ==> s.result.error == DuplicatePlayer(nickname)
    ensures s.result.Failure? ==> s.state == r && s.written.None?
    ensures s.result.Success? ==> s.result.value == Player(r.nextId, nickname, level, score)
    ensures s.result.Success? ==> s.state == Registry(r.players + [s.result.value], r.nextId + 1)
    ensures s.result.Success? ==> s.written == Some(PlayerStore.Save(s.state.players))
    ensures Valid(r) ==> Valid(s.state)
  {
    if NicknameTaken(r.players, nickname) then
      Step(r, Failure(DuplicatePlayer(nickname)), None)
    else
      var p := Player(r.nextId, nickname, level, score);
      var players := r.players + [p];
      var next := Registry(players, r.nextId + 1);
      AddKeepsValid(r, p);
      Step(next, Success(p), Some(PlayerStore.Save(players)))
  }

  lemma AddKeepsValid(r: Registry, p: Player)
    requires !NicknameTaken(r.players, p.nickname) && p.id == r.nextId
    ensures Valid(r) ==> Valid(Registry(r.players + [p], r.nextId + 1))
  {
    if Valid(r) {
      var ps := r.players + [p];
      assert Ids(ps) == Ids(r.players) + [p.id];
      NextIdSnoc(Ids(r.players), p.id);
      AppendKeepsDistinctIds(r.players, p);
      AppendKeepsDistinctNicknames(r.players, p);
    }
  }

  lemma AppendKeepsDistinctIds(ps: seq<Player>, p: Player)
    requires DistinctIds(ps)
    requires forall i :: 0 <= i < |ps| ==> ps[i].id < p.id
    ensures DistinctIds(ps + [p])
  {
  }

  lemma AppendKeepsDistinctNicknames(ps: seq<Player>, p: Player)
    requires DistinctNicknames(ps) && !NicknameTaken(ps, p.nickname)
    ensures DistinctNicknames(ps + [p])
  {
    var qs := ps + [p];
    forall i, j | 0 <= i < |qs| && 0 <= j < |qs| && i != j
      ensures !EqualsIgnoreCase(qs[i].nickname, qs[j].nickname)
    {
      if i == |ps| {
        assert !EqualsIgnoreCase(ps[j].nickname, p.nickname);
        EqualsIgnoreCaseIsEquivalence(p.nickname, ps[j].nickname, p.nickname);
      } else if j == |ps| {
        assert !EqualsIgnoreCase(ps[i].nickname, p.nickname);
      } else {
        assert qs[i] == ps[i] && qs[j] == ps[j];
      }
    }
  }

  /** `findById`: the first player with that id, or PlayerNotFound. */
  function FindById(r: Registry, id: int): (res: Result<Player>)
    ensures res.Failure? <==> !HasId(r.players, id)
    ensures res.Failure? ==> res.error == PlayerNotFound(id)
    ensures res.Success? ==> res.value.id == id && res.value in r.players
  {
    match FirstWithId(r.players, id)
    case Some(p) => Success(p)
    case None => Failure(PlayerNotFound(id))
  }

  /** `getAllPlayers`: the players in insertion order. */
  function AllPlayers(r: Registry): seq<Player> {
    r.players
  }

  function ScoreKey(p: Player): int {
    p.score
  }

  function RankKey(p: Player): int {
    CalculateScore(p)
  }

  /** `getAllPlayersSortedByScore`: a permutation of the players, raw score
      non-increasing, players with equal scores in insertion order. */
  function SortedByScore(r: Registry): (sorted: seq<Player>)
    ensures multiset(sorted) == multiset(r.players)
    ensures forall i, j :: 0 <= i < j < |sorted| ==> sorted[i].score >= sorted[j].score
    ensures forall k :: WithKey(sorted, ScoreKey, k) == WithKey(r.players, ScoreKey, k)
  {
    var sorted := SortDesc(r.players, ScoreKey);
    forall k ensures WithKey(sorted, ScoreKey, k) == WithKey(r.players, ScoreKey, k) {
      SortDescStable(r.players, ScoreKey, k);
    }
    sorted
  }

  /** `getTop3Players`: at most three players, ranked by `calculateScore`
      descending, none left out ranking above one kept, ties kept in
      insertion order. */
  function Top3(r: Registry): (top: seq<Player>)
    ensures |top| == Min(3, |r.players|)
    ensures forall i, j :: 0 <= i < j < |top| ==> CalculateScore(top[i]) >= CalculateScore(top[j])
    ensures multiset(top) <= multiset(r.players)
    ensures forall x, i :: x in multiset(r.players) - multiset(top) && 0 <= i < |top|
                           ==> CalculateScore(x) <= CalculateScore(top[i])
    ensures forall k :: IsPrefix(WithKey(top, RankKey, k), WithKey(r.players, RankKey, k))
  {
    var top := TopDesc(r.players, RankKey, 3);
    forall x, i | x in multiset(r.players) - multiset(top) && 0 <= i < |top|
      ensures CalculateScore(x) <= CalculateScore(top[i])
    {
      TopDescMaximal(r.players, RankKey, 3, x, i);
    }
    forall k ensures IsPrefix(WithKey(top, RankKey, k), WithKey(r.players, RankKey, k)) {
      TopDescStable(r.players, RankKey, 3, k);
    }
    top
  }

  function Scores(ps: seq<Player>): (xs: seq<int>)
    ensures |xs| == |ps|
    ensures forall i :: 0 <= i < |ps| ==> xs[i] == ps[i].score
  {
    seq(|ps|, i requires 0 <= i < |ps| => ps[i].score)
  }

  /** `getTotalScore`: the int sum of the raw scores, 0 when empty; it is
      the exact sum whenever that fits in an int. */
  function TotalScore(r: Registry): (total: int)
    ensures |r.players| == 0 ==> total == 0
    ensures total == Wrap32(Sum(Scores(r.players)))
    ensures IsInt32(Sum(Scores(r.players))) ==> total == Sum(Scores(r.players))
  {
    var total := IntSum(Scores(r.players));
    if IsInt32(Sum(Scores(r.players))) then
      WrapOfInt32(Sum(Scores(r.players)));
      total
    else total
  }

  /** A successful add raises the total by the new player's score. */
  lemma TotalScoreAfterAdd(r: Registry, nickname: string, level: int, score: int)
    requires AddPlayer(r, nickname, level, score).result.Success?
    ensures TotalScore(AddPlayer(r, nickname, level, score).state) == Wrap32(TotalScore(r) + score)
  {
    var p := Player(r.nextId, nickname, level, score);
    AddFree(r, nickname, level, score);
    TotalScoreSnoc(r, p, r.nextId + 1);
  }

  /** Appending a player adds its score with int wrap-around. */
  lemma TotalScoreSnoc(r: Registry, p: Player, n: int)
    ensures TotalScore(Registry(r.players + [p], n)) == Wrap32(TotalScore(r) + p.score)
  {
    ScoresSnoc(r.players, p);
    IntSumSnoc(Scores(r.players), p.score);
  }

  /** The scores of an appended list. */
  lemma ScoresSnoc(ps: seq<Player>, p: Player)
    ensures Scores(ps + [p]) == Scores(ps) + [p.score]
  {
  }

  /** A successful add makes the new player findable by its id and leaves
      every other lookup as it was. */
  lemma FindAfterAdd(r: Registry, nickname: string, level: int, score: int, id: int)
    requires Valid(r)
    requires AddPlayer(r, nickname, level, score).result.Success?
    ensures var s := AddPlayer(r, nickname, level, score);
            FindById(s.state, s.result.value.id) == Success(s.result.value)
    ensures var s := AddPlayer(r, nickname, level, score);
            id != s.result.value.id ==> FindById(s.state, id) == FindById(r, id)
  {
    var s := AddPlayer(r, nickname, level, score);
    var p := s.result.value;
    assert !HasId(r.players, p.id);
    FirstWithIdSnoc(r.players, p, p.id);
    FirstWithIdSnoc(r.players, p, id);
  }

  /** Ids handed out by a registry whose ids are all positive (as one
      started from an empty store) are positive. */
  lemma AddedIdPositive(r: Registry, nickname: string, level: int, score: int)
    requires Valid(r)
    requires forall i :: 0 <= i < |r.players| ==> r.players[i].id > 0
    requires AddPlayer(r, nickname, level, score).result.Success?
    ensures AddPlayer(r, nickname, level, score).result.value.id > 0
    ensures var ps := AddPlayer(r, nickname, level, score).state.players;
            forall i :: 0 <= i < |ps| ==> ps[i].id > 0
  {
    AddFree(r, nickname, level, score);
    CounterPositive(r.players, r.nextId);
    SnocIdsPositive(r.players, Player(r.nextId, nickname, level, score));
  }

  /** With positive ids the seeded counter is positive. */
  lemma CounterPositive(ps: seq<Player>, n: int)
    requires n == NextId(Ids(ps))
    requires forall i :: 0 <= i < |ps| ==> ps[i].id > 0
    ensures n > 0
  {
    if |ps| > 0 {
      var i :| 0 <= i < |Ids(ps)| && Ids(ps)[i] == n - 1;
      assert ps[i].id > 0;
    }
  }

  /** Appending a positive id keeps all ids positive. */
  lemma SnocIdsPositive(ps: seq<Player>, p: Player)
    requires forall i :: 0 <= i < |ps| ==> ps[i].id > 0
    requires p.id > 0
    ensures forall i :: 0 <= i < |ps + [p]| ==> (ps + [p])[i].id > 0
  {
  }

  /** Adding a case variant of a registered nickname fails and changes
      nothing. */
  lemma CaseVariantRejected(r: Registry, nickname: string, variant: string, level: int, score: int, level2: int, score2: int)
    requires AddPlayer(r, nickname, level, score).result.Success?
    requires EqualsIgnoreCase(nickname, variant)
    ensures var s := AddPlayer(r, nickname, level, score).state;
            AddPlayer(s, variant, level2, score2) == Step(s, Failure(DuplicatePlayer(variant)), None)
  {
    var s := AddPlayer(r, nickname, level, score).state;
    assert s.players[|r.players|].nickname == nickname;
  }

  /** A nickname free in `ps` stays free after appending a player whose
      nickname differs from it ignoring case. */
  lemma NotTakenSnoc(ps: seq<Player>, p: Player, nickname: string)
    requires !NicknameTaken(ps, nickname) && !EqualsIgnoreCase(p.nickname, nickname)
    ensures !NicknameTaken(ps + [p], nickname)
  {
    forall i | 0 <= i < |ps + [p]| ensures !EqualsIgnoreCase((ps + [p])[i].nickname, nickname) {
      if i < |ps| {
        assert (ps + [p])[i] == ps[i];
      }
    }
  }

  /** An add with a free nickname succeeds with the counter as id. */
  lemma AddFree(r: Registry, nickname: string, level: int, score: int)
    requires !NicknameTaken(r.players, nickname)
    ensures AddPlayer(r, nickname, level, score).result == Success(Player(r.nextId, nickname, level, score))
    ensures AddPlayer(r, nickname, level, score).state
            == Registry(r.players + [Player(r.nextId, nickname, level, score)], r.nextId + 1)
  {
  }

  /** Three adds with distinct nicknames into an empty registry hand out the
      ids 1, 2 and 3, each add starting from the registry the previous one
      returned. */
  lemma ThreeAddsFromEmpty(a: string, b: string, c: string)
    requires !EqualsIgnoreCase(a, b) && !EqualsIgnoreCase(a, c) && !EqualsIgnoreCase(b, c)
    ensures AddPlayer(Init([]), a, 1, 0).result == Success(Player(1, a, 1, 0))
    ensures AddPlayer(Init([]), a, 1, 0).state == Registry([Player(1, a, 1, 0)], 2)
    ensures AddPlayer(Registry([Player(1, a, 1, 0)], 2), b, 1, 0).result == Success(Player(2, b, 1, 0))
    ensures AddPlayer(Registry([Player(1, a, 1, 0)], 2), b, 1, 0).state
            == Registry([Player(1, a, 1, 0), Player(2, b, 1, 0)], 3)
    ensures AddPlayer(Registry([Player(1, a, 1, 0), Player(2, b, 1, 0)], 3), c, 1, 0).result
            == Success(Player(3, c, 1, 0))
    ensures AddPlayer(Registry([Player(1, a, 1, 0), Player(2, b, 1, 0)], 3), c, 1, 0).state.players
            == [Player(1, a, 1, 0), Player(2, b, 1, 0), Player(3, c, 1, 0)]
  {
    var r0 := Registry([], 1);
    assert Init([]) == r0;
    AddFree(r0, a, 1, 0);
    var r1 := Registry([Player(1, a, 1, 0)], 2);
    assert r0.players + [Player(1, a, 1, 0)] == r1.players;
    NotTakenSnoc([], Player(1, a, 1, 0), b);
    AddFree(r1, b, 1, 0);
    var r2 := Registry([Player(1, a, 1, 0), Player(2, b, 1, 0)], 3);
    assert r1.players + [Player(2, b, 1, 0)] == r2.players;
    NotTakenSnoc([], Player(1, a, 1, 0), c);
    NotTakenSnoc(r1.players, Player(2, b, 1, 0), c);
    AddFree(r2, c, 1, 0);
    assert r2.players + [Player(3, c, 1, 0)] == [Player(1, a, 1, 0), Player(2, b, 1, 0), Player(3, c, 1, 0)];
  }

  /** Restarting from the file that was written reproduces the registry,
      provided every player is storable. */
  lemma ReopenAfterSave(r: Registry)
    requires Valid(r)
    requires forall i :: 0 <= i < |r.players| ==> PlayerStore.Storable(r.players[i])
    ensures Open(Some(Store.ReadLines(Store.WriteLines(PlayerStore.Save(r.players))))) == r
  {
    PlayerStore.LoadSave(r.players);
  }

  /** The counter as the source computes it, with 32-bit int addition. */
  function InitAsWritten(loaded: seq<Player>): (r: Registry)
    ensures r.players == loaded
    ensures IsInt32(MaxOrZero(Ids(loaded)) + 1) ==> r == Init(loaded)
  {
    Registry(loaded, NextIdAsWritten(Ids(loaded)))
  }

  /** With the 32-bit counter, a store holding the ids `MAX_INT` and
      `MIN_INT` seeds the counter with `MIN_INT`, so the next add hands out
      an id that is already taken. */
  lemma InitAsWrittenReusesId()
    ensures var loaded := [Player(MAX_INT, "a", 1, 0), Player(MIN_INT, "b", 1, 0)];
            var s := AddPlayer(InitAsWritten(loaded), "c", 1, 0);
            && s.result.Success?
            && s.result.value.id == loaded[1].id
            && !DistinctIds(s.state.players)
  {
    var loaded := [Player(MAX_INT, "a", 1, 0), Player(MIN_INT, "b", 1, 0)];
    NextIdAsWrittenWraps();
    assert Ids(loaded) == [MAX_INT, MIN_INT];
    var r := InitAsWritten(loaded);
    assert !NicknameTaken(loaded, "c") by {
      assert FoldCase("a"[0]) != FoldCase("c"[0]);
      assert FoldCase("b"[0]) != FoldCase("c"[0]);
    }
    var s := AddPlayer(r, "c", 1, 0);
    assert s.state.players[1].id == s.state.players[2].id;
  }
}
