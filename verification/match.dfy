/** The match record (`Match`) and its winner rule. */
module Matches {
  import opened Results
  import opened Dates

  /** A match refers to its two players by id. */
  datatype Match = Match(id: int, player1: int, player2: int, score1: int, score2: int, date: Date)

  /** `getWinner`: the player on the strictly higher-scoring side; a tie
      has no winner. */
  function Winner(m: Match): (w: Option<int>)
    ensures m.score1 > m.score2 ==> w == Some(m.player1)
    ensures m.score2 > m.score1 ==> w == Some(m.player2)
    ensures m.score1 == m.score2 <==> w.None?
  {
    if m.score1 > m.score2 then Some(m.player1)
    else if m.score2 > m.score1 then Some(m.player2)
    else None
  }

  /** The winner, when there is one, is one of the two participants. */
  lemma WinnerIsParticipant(m: Match)
    ensures Winner(m).Some? ==> Winner(m).value == m.player1 || Winner(m).value == m.player2
  {
  }

  /** The same match with its two sides exchanged. */
  function Swap(m: Match): Match {
    Match(m.id, m.player2, m.player1, m.score2, m.score1, m.date)
  }

  /** Exchanging the sides changes neither the winner nor a tie. */
  lemma WinnerSymmetric(m: Match)
    ensures Winner(Swap(m)) == Winner(m)
  {
  }

  /** The winner ignores the match id and date. */
  lemma WinnerIgnoresIdAndDate(m: Match, id: int, date: Date)
    ensures Winner(m.(id := id, date := date)) == Winner(m)
  {
  }

  lemma WinnerSamples(a: int, b: int, d: Date)
    ensures Winner(Match(1, a, b, 15, 5, d)) == Some(a)
    ensures Winner(Match(1, a, b, 5, 15, d)) == Some(b)
    ensures Winner(Match(1, a, b, 7, 7, d)) == None
  {
  }

  /** The player takes part on either side. */
  predicate Involves(m: Match, playerId: int) {
    m.player1 == playerId || m.player2 == playerId
  }

  function Ids(ms: seq<Match>): (ids: seq<int>)
    ensures |ids| == |ms|
    ensures forall i :: 0 <= i < |ms| ==> ids[i] == ms[i].id
  {
    seq(|ms|, i requires 0 <= i < |ms| => ms[i].id)
  }

  predicate DistinctIds(ms: seq<Match>) {
    forall i, j :: 0 <= i < j < |ms| ==> ms[i].id != ms[j].id
  }
}
