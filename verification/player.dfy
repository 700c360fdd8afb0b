/** The player record (`Player`, and the `Scorable` capability it implements). */
module Players {
  import opened Results
  import opened JavaInt

  /** A player as an immutable value; the registry never edits one. */
  datatype Player = Player(id: int, nickname: string, level: int, score: int)

  /** `calculateScore`: raw score times level, in 32-bit int arithmetic.
      It equals the exact product whenever that product fits in an int. */
  function CalculateScore(p: Player): (r: int)
    ensures IsInt32(r)
    ensures SameBits(r, p.score * p.level)
    ensures IsInt32(p.score * p.level) ==> r == p.score * p.level
  {
    WrapOfInt32(p.score * p.level);
    Wrap32(p.score * p.level)
  }

  /** The score depends only on score and level, never on id or nickname. */
  lemma CalculateScoreIgnoresIdentity(p: Player, q: Player)
    requires p.score == q.score && p.level == q.level
    ensures CalculateScore(p) == CalculateScore(q)
  {
  }

  lemma CalculateScoreSample()
    ensures CalculateScore(Player(99, "TestScorablePlayer", 4, 50)) == 200
  {
  }

  /** `equals`: two players are the same player exactly when their ids agree. */
  predicate SamePlayer(a: Player, b: Player) {
    a.id == b.id
  }

  /** `hashCode` is `Integer.hashCode(id)`, the id itself. */
  function HashCode(p: Player): int {
    p.id
  }

  /** `equals` is an equivalence and agrees with `hashCode`; nickname, level
      and score play no part in it. */
  lemma SamePlayerContract(a: Player, b: Player, c: Player)
    ensures SamePlayer(a, a)
    ensures SamePlayer(a, b) ==> SamePlayer(b, a)
    ensures SamePlayer(a, b) && SamePlayer(b, c) ==> SamePlayer(a, c)
    ensures SamePlayer(a, b) ==> HashCode(a) == HashCode(b)
    ensures SamePlayer(a, b) <==> SamePlayer(a.(nickname := b.nickname, level := b.level, score := b.score), b)
  {
  }

  function Ids(ps: seq<Player>): (ids: seq<int>)
    ensures |ids| == |ps|
    ensures forall i :: 0 <= i < |ps| ==> ids[i] == ps[i].id
  {
    seq(|ps|, i requires 0 <= i < |ps| => ps[i].id)
  }

  predicate HasId(ps: seq<Player>, id: int) {
    exists i :: 0 <= i < |ps| && ps[i].id == id
  }

  predicate DistinctIds(ps: seq<Player>) {
    forall i, j :: 0 <= i < j < |ps| ==> ps[i].id != ps[j].id
  }

  /** `stream().filter(p -> p.getId() == id).findFirst()`: the earliest
      player with that id, if any. */
  function FirstWithId(ps: seq<Player>, id: int): (r: Option<Player>)
    ensures r.None? <==> !HasId(ps, id)
    ensures r.Some? ==> r.value.id == id && r.value in ps
    decreases |ps|
  {
    if |ps| == 0 then None
    else if ps[0].id == id then Some(ps[0])
    else
      assert HasId(ps, id) ==> HasId(ps[1..], id) by {
        if HasId(ps, id) {
          var i :| 0 <= i < |ps| && ps[i].id == id;
          assert ps[1..][i - 1].id == id;
        }
      }
      FirstWithId(ps[1..], id)
  }

  /** The player found comes before every other player with that id. */
  lemma {:induction false} FirstWithIdIsFirst(ps: seq<Player>, id: int)
    requires HasId(ps, id)
    ensures exists i :: 0 <= i < |ps| && ps[i] == FirstWithId(ps, id).value
                        && forall j :: 0 <= j < i ==> ps[j].id != id
    decreases |ps|
  {
    if ps[0].id == id {
      assert ps[0] == FirstWithId(ps, id).value;
    } else {
      var i :| 0 <= i < |ps| && ps[i].id == id;
      assert ps[1..][i - 1].id == id;
      FirstWithIdIsFirst(ps[1..], id);
      var k :| 0 <= k < |ps[1..]| && ps[1..][k] == FirstWithId(ps[1..], id).value
               && forall j :: 0 <= j < k ==> ps[1..][j].id != id;
      assert ps[k + 1] == FirstWithId(ps, id).value;
      assert forall j :: 0 <= j < k + 1 ==> ps[j].id != id by {
        forall j | 0 <= j < k + 1 ensures ps[j].id != id {
          if j > 0 { assert ps[j] == ps[1..][j - 1]; }
        }
      }
    }
  }

  /** With distinct ids, looking an id up finds the player carrying it. */
  lemma FirstWithIdOfDistinct(ps: seq<Player>, i: int)
    requires DistinctIds(ps) && 0 <= i < |ps|
    ensures FirstWithId(ps, ps[i].id) == Some(ps[i])
  {
  }

  /** Appending a player does not change what an earlier lookup finds, and
      a fresh id finds the appended player. */
  lemma {:induction false} FirstWithIdSnoc(ps: seq<Player>, p: Player, id: int)
    ensures HasId(ps, id) ==> FirstWithId(ps + [p], id) == FirstWithId(ps, id)
    ensures !HasId(ps, id) && p.id == id ==> FirstWithId(ps + [p], id) == Some(p)
    ensures !HasId(ps, id) && p.id != id ==> FirstWithId(ps + [p], id) == None
    decreases |ps|
  {
    var qs := ps + [p];
    if |ps| == 0 {
      assert qs == [p];
    } else {
      assert qs[1..] == ps[1..] + [p];
      FirstWithIdSnoc(ps[1..], p, id);
      if ps[0].id != id && HasId(ps, id) {
        var i :| 0 <= i < |ps| && ps[i].id == id;
        assert ps[1..][i - 1].id == id;
      }
    }
  }
}
