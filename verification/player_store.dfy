/** The player store (`PlayerDAO`): lines `id,nickname,level,score` after
    the header. */
module PlayerStore {
  import opened Results
  import opened JavaInt
  import opened Text
  import opened Decimal
  import opened Players
  import Store

  const HEADER: string := "id,nickname,level,score"

  /** `playerToCsv`: the four fields joined by single commas. */
  function Encode(p: Player): (line: string)
    ensures Pieces(line, ',') == [IntToString(p.id)] + Pieces(p.nickname, ',')
                                 + [IntToString(p.level), IntToString(p.score)]
  {
    var a := IntToString(p.id);
    var l := IntToString(p.level);
    var s := IntToString(p.score);
    IntTextIsPlain(p.id);
    IntTextIsPlain(p.level);
    IntTextIsPlain(p.score);
    PiecesWithoutSep(a, ',');
    PiecesWithoutSep(l, ',');
    PiecesWithoutSep(s, ',');
    PiecesJoin(a + "," + p.nickname + "," + l, ',', s);
    PiecesJoin(a + "," + p.nickname, ',', l);
    PiecesJoin(a, ',', p.nickname);
    a + "," + p.nickname + "," + l + "," + s
  }

  /** A player the store can hold unchanged: Java-range numbers, and a
      nickname that has no comma, no line terminator and nothing `trim`
      would strip. */
  predicate Storable(p: Player) {
    && IsInt32(p.id) && IsInt32(p.level) && IsInt32(p.score)
    && ',' !in p.nickname
    && Store.IsLine(p.nickname)
    && IsTrimmed(p.nickname)
  }

  /** `csvToPlayer`: exactly four comma-separated fields, each trimmed,
      with the three numbers parsed as ints; anything else is rejected. */
  function Decode(line: string): (r: Option<Player>)
    ensures |Split(line, ',')| != 4 ==> r.None?
    ensures r.Some? ==> IsInt32(r.value.id) && IsInt32(r.value.level) && IsInt32(r.value.score)
    ensures r.Some? ==> ',' !in r.value.nickname && IsTrimmed(r.value.nickname)
    ensures r.Some? && Store.IsLine(line) ==> Storable(r.value)
  {
    var parts := Split(line, ',');
    if |parts| != 4 then None
    else
      var id := ParseInt(Trim(parts[0]));
      var nickname := Trim(parts[1]);
      var level := ParseInt(Trim(parts[2]));
      var score := ParseInt(Trim(parts[3]));
      TrimIdempotent(parts[1], ',');
      NicknameIsLine(line);
      if id.Some? && level.Some? && score.Some? then
        Some(Player(id.value, nickname, level.value, score.value))
      else None
  }

  /** A line read from the file has no terminator, and neither has the
      nickname field cut from it. */
  lemma NicknameIsLine(line: string)
    requires |Split(line, ',')| == 4
    ensures Store.IsLine(line) ==> Store.IsLine(Trim(Split(line, ',')[1]))
  {
    if Store.IsLine(line) {
      var f := Split(line, ',')[1];
      assert '\n' !in f by { SplitAvoids(line, ',', '\n'); }
      assert '\r' !in f by { SplitAvoids(line, ',', '\r'); }
      TrimIdempotent(f, '\n');
      TrimIdempotent(f, '\r');
    }
  }

  /** A line that splits into four fields decodes field by field. */
  lemma DecodeFields(line: string, f0: string, f1: string, f2: string, f3: string)
    requires Split(line, ',') == [f0, f1, f2, f3]
    ensures Decode(line) == if ParseInt(Trim(f0)).Some? && ParseInt(Trim(f2)).Some? && ParseInt(Trim(f3)).Some?
                            then Some(Player(ParseInt(Trim(f0)).value, Trim(f1), ParseInt(Trim(f2)).value, ParseInt(Trim(f3)).value))
                            else None
  {
  }

  /** A comma-free nickname makes the line split into exactly its four
      fields. */
  lemma SplitEncode(p: Player)
    requires ',' !in p.nickname
    ensures Split(Encode(p), ',') == [IntToString(p.id), p.nickname, IntToString(p.level), IntToString(p.score)]
  {
    var line := Encode(p);
    PiecesWithoutSep(p.nickname, ',');
    assert Pieces(line, ',') == [IntToString(p.id), p.nickname, IntToString(p.level), IntToString(p.score)];
    SplitKeepsPieces(line, ',');
  }

  /** Encoding then decoding gives the player back with its nickname
      trimmed, as long as the nickname has no comma. */
  lemma DecodeEncode(p: Player)
    requires IsInt32(p.id) && IsInt32(p.level) && IsInt32(p.score)
    requires ',' !in p.nickname
    ensures Decode(Encode(p)) == Some(p.(nickname := Trim(p.nickname)))
  {
    SplitEncode(p);
    DecodeFields(Encode(p), IntToString(p.id), p.nickname, IntToString(p.level), IntToString(p.score));
    IntTextIsPlain(p.id);
    IntTextIsPlain(p.level);
    IntTextIsPlain(p.score);
    IntRoundTrip(p.id);
    IntRoundTrip(p.level);
    IntRoundTrip(p.score);
  }

  /** The round trip of a storable player is exact. */
  lemma RoundTrip(p: Player)
    requires Storable(p)
    ensures Decode(Encode(p)) == Some(p)
  {
    DecodeEncode(p);
    TrimOfTrimmed(p.nickname);
  }

  /** A nickname with a comma makes more than four fields, so the line is
      rejected and the player is lost on reload. */
  lemma CommaInNicknameRejected(p: Player)
    requires ',' in p.nickname
    ensures |Split(Encode(p), ',')| > 4
    ensures Decode(Encode(p)) == None
  {
    PiecesWithSep(p.nickname, ',');
    SplitKeepsPieces(Encode(p), ',');
  }

  lemma EncodedNotBlank(p: Player)
    ensures !IsBlank(Encode(p))
  {
    IntTextIsPlain(p.id);
    assert Encode(p)[0] == IntToString(p.id)[0];
  }

  /** `saveAll`. */
  function Save(players: seq<Player>): (lines: seq<string>)
    ensures |lines| == |players| + 1 && lines[0] == HEADER
    ensures forall i :: 0 <= i < |players| ==> lines[i + 1] == Encode(players[i])
  {
    Store.Save(HEADER, players, Encode)
  }

  /** `loadAll`: every player loaded from lines `readLine` returned is
      storable. */
  function Load(store: Option<seq<string>>): (players: seq<Player>)
    ensures store.None? ==> players == []
    ensures store.Some? && AllLines(store.value) ==> forall i :: 0 <= i < |players| ==> Storable(players[i])
  {
    var r := Store.Load(store, Decode);
    forall i | 0 <= i < |r| && store.Some? && AllLines(store.value) ensures Storable(r[i]) {
      Store.DecodeLinesSurvivors(store.value[1..], Decode, i);
      var k :| 0 <= k < |store.value[1..]| && Store.DecodeLine(store.value[1..][k], Decode) == [r[i]];
      assert Store.IsLine(store.value[k + 1]);
    }
    r
  }

  predicate AllLines(lines: seq<string>) {
    forall i :: 0 <= i < |lines| ==> Store.IsLine(lines[i])
  }

  /** What a save followed by a load keeps: players whose nickname has a
      comma vanish, the others come back with trimmed nicknames. */
  function Reloaded(players: seq<Player>): (r: seq<Player>)
    ensures |r| <= |players|
    ensures forall i :: 0 <= i < |r| ==> ',' !in r[i].nickname && IsTrimmed(r[i].nickname)
    decreases |players|
  {
    if |players| == 0 then [] else Kept(players[0]) + Reloaded(players[1..])
  }

  /** One player's share of the reload: nothing when its nickname has a
      comma, otherwise the player with its nickname trimmed. */
  function Kept(p: Player): (r: seq<Player>)
    ensures |r| <= 1
    ensures forall i :: 0 <= i < |r| ==> ',' !in r[i].nickname && IsTrimmed(r[i].nickname)
  {
    if ',' in p.nickname then []
    else
      TrimKeepsCommaFree(p.nickname);
      [p.(nickname := Trim(p.nickname))]
  }

  lemma TrimKeepsCommaFree(s: string)
    requires ',' !in s
    ensures ',' !in Trim(s) && IsTrimmed(Trim(s))
  {
    TrimIdempotent(s, ',');
  }

  lemma ReloadedSingleton(p: Player)
    ensures Reloaded([p]) == if ',' in p.nickname then [] else [p.(nickname := Trim(p.nickname))]
  {
    assert [p][1..] == [];
  }

  /** A nickname without terminator keeps the whole record on one line. */
  lemma EncodeIsLine(p: Player)
    requires Store.IsLine(p.nickname)
    ensures Store.IsLine(Encode(p))
  {
    IntTextAvoids(p.id, '\n');
    IntTextAvoids(p.id, '\r');
    IntTextAvoids(p.level, '\n');
    IntTextAvoids(p.level, '\r');
    IntTextAvoids(p.score, '\n');
    IntTextAvoids(p.score, '\r');
  }

  /** One saved line read back. */
  lemma ReloadOne(p: Player)
    requires IsInt32(p.id) && IsInt32(p.level) && IsInt32(p.score)
    ensures Store.DecodeLine(Encode(p), Decode) == Reloaded([p])
  {
    var line := Encode(p);
    EncodedNotBlank(p);
    ReloadedSingleton(p);
    if ',' in p.nickname {
      CommaInNicknameRejected(p);
      assert Decode(line).None?;
    } else {
      DecodeEncode(p);
      assert Decode(line) == Some(p.(nickname := Trim(p.nickname)));
    }
  }

  lemma {:induction false} ReloadLines(players: seq<Player>)
    requires forall i :: 0 <= i < |players| ==> IsInt32(players[i].id) && IsInt32(players[i].level) && IsInt32(players[i].score)
    ensures Store.DecodeLines(Save(players)[1..], Decode) == Reloaded(players)
    decreases |players|
  {
    if |players| > 0 {
      var p := players[0];
      var rest := players[1..];
      assert Store.DecodeLines(Save(rest)[1..], Decode) == Reloaded(rest) by {
        ReloadLines(rest);
      }
      assert Save(players)[1..] == [Encode(p)] + Save(rest)[1..] by {
        Store.SaveTail(HEADER, players, Encode);
      }
      assert Store.DecodeLines([Encode(p)] + Save(rest)[1..], Decode) == Reloaded([p]) + Reloaded(rest) by {
        Store.DecodeLinesCons([Encode(p)] + Save(rest)[1..], Decode);
        assert ([Encode(p)] + Save(rest)[1..])[1..] == Save(rest)[1..];
        ReloadOne(p);
      }
      ReloadedCons(players);
    }
  }

  /** Writing the players to the file and loading it again, when no
      nickname holds a line terminator. */
  lemma LoadAfterSave(players: seq<Player>)
    requires forall i :: 0 <= i < |players| ==> IsInt32(players[i].id) && IsInt32(players[i].level) && IsInt32(players[i].score)
    requires forall i :: 0 <= i < |players| ==> Store.IsLine(players[i].nickname)
    ensures Load(Some(Store.ReadLines(Store.WriteLines(Save(players))))) == Reloaded(players)
  {
    SavedLines(players);
    ReloadLines(players);
  }

  /** The saved file reads back as the saved lines. */
  lemma SavedLines(players: seq<Player>)
    requires forall i :: 0 <= i < |players| ==> Store.IsLine(players[i].nickname)
    ensures Store.ReadLines(Store.WriteLines(Save(players))) == Save(players)
  {
    forall i | 0 <= i < |players| ensures Store.IsLine(Encode(players[i])) {
      EncodeIsLine(players[i]);
    }
    Store.ReadSaved(HEADER, players, Encode);
  }

  /** Saving then loading a list of storable players gives the same list. */
  lemma LoadSave(players: seq<Player>)
    requires forall i :: 0 <= i < |players| ==> Storable(players[i])
    ensures Load(Some(Store.ReadLines(Store.WriteLines(Save(players))))) == players
  {
    LoadAfterSave(players);
    ReloadedStorable(players);
  }

  /** A nickname with a line feed cuts the record in two: the file reads
      back as the header, the id with the nickname's first part, and the
      nickname's second part with the level and score. */
  lemma LineBreakSplitsRecord(p: Player, u: string, v: string)
    requires p.nickname == u + "\n" + v && Store.IsLine(u) && Store.IsLine(v)
    ensures Store.ReadLines(Store.WriteLines(Save([p])))
            == [HEADER, IntToString(p.id) + "," + u, v + "," + IntToString(p.level) + "," + IntToString(p.score)]
  {
    BrokenRecordParts(p, u, v);
    Store.ReadBrokenLine(HEADER, IntToString(p.id) + "," + u, v + "," + IntToString(p.level) + "," + IntToString(p.score));
  }

  /** Where the line feed falls in the record, and that neither side holds
      another terminator. */
  lemma BrokenRecordParts(p: Player, u: string, v: string)
    requires p.nickname == u + "\n" + v && Store.IsLine(u) && Store.IsLine(v)
    ensures Save([p]) == [HEADER, (IntToString(p.id) + "," + u) + "\n" + (v + "," + IntToString(p.level) + "," + IntToString(p.score))]
    ensures Store.IsLine(IntToString(p.id) + "," + u)
    ensures Store.IsLine(v + "," + IntToString(p.level) + "," + IntToString(p.score))
  {
    IntTextAvoids(p.id, '\n');
    IntTextAvoids(p.id, '\r');
    IntTextAvoids(p.level, '\n');
    IntTextAvoids(p.level, '\r');
    IntTextAvoids(p.score, '\n');
    IntTextAvoids(p.score, '\r');
    var i, l, sc := IntToString(p.id), IntToString(p.level), IntToString(p.score);
    assert Encode(p) == i + "," + (u + "\n" + v) + "," + l + "," + sc;
    assert i + "," + (u + "\n" + v) + "," + l + "," + sc == (i + "," + u) + "\n" + (v + "," + l + "," + sc);
    assert Save([p]) == [HEADER, Encode(p)];
  }

  /** A nickname made of a comma-free part, a line feed, then `k,w` is
      not read back: the player is lost and in its place the store yields
      player `k` with nickname `w`, which was never saved (for instance
      the nickname `x`, line feed, `9,evil`). */
  lemma LineBreakForgesPlayer(p: Player, u: string, k: int, w: string)
    requires IsInt32(p.id) && IsInt32(p.level) && IsInt32(p.score)
    requires p.nickname == u + "\n" + (IntToString(k) + "," + w)
    requires ',' !in u && Store.IsLine(u)
    requires Storable(Player(k, w, p.level, p.score))
    ensures Load(Some(Store.ReadLines(Store.WriteLines(Save([p]))))) == [Player(k, w, p.level, p.score)]
  {
    var q := Player(k, w, p.level, p.score);
    var v := IntToString(k) + "," + w;
    assert Store.IsLine(v) by {
      IntTextAvoids(k, '\n');
      IntTextAvoids(k, '\r');
    }
    LineBreakSplitsRecord(p, u, v);
    var a := IntToString(p.id) + "," + u;
    var b := v + "," + IntToString(p.level) + "," + IntToString(p.score);
    assert b == Encode(q);
    ShortLineRejected(p.id, u);
    RoundTrip(q);
    EncodedNotBlank(q);
    LoadTwoLines(HEADER, a, b, q);
  }

  /** The first half of the cut record has at most two fields and is
      rejected. */
  lemma ShortLineRejected(id: int, u: string)
    requires ',' !in u
    ensures Decode(IntToString(id) + "," + u) == None
  {
    var i := IntToString(id);
    IntTextIsPlain(id);
    PiecesWithoutSep(i, ',');
    PiecesWithoutSep(u, ',');
    PiecesJoin(i, ',', u);
    assert i + [','] + u == i + "," + u;
  }

  /** Behind the header, a rejected line and an accepted one load as the
      accepted record alone. */
  lemma LoadTwoLines(h: string, a: string, b: string, q: Player)
    requires Decode(a) == None && Decode(b) == Some(q) && !IsBlank(b)
    ensures Load(Some([h, a, b])) == [q]
  {
    assert Load(Some([h, a, b])) == Store.DecodeLines([a, b], Decode) by {
      assert [h, a, b][1..] == [a, b];
    }
    Store.DecodeLinesCons([a, b], Decode);
    assert Store.DecodeLine(a, Decode) == [];
    assert [a, b][1..] == [b];
    Store.DecodeOne(b, q, Decode);
  }

  lemma {:induction false} ReloadedStorable(players: seq<Player>)
    requires forall i :: 0 <= i < |players| ==> Storable(players[i])
    ensures Reloaded(players) == players
    decreases |players|
  {
    if |players| > 0 {
      var p := players[0];
      var rest := players[1..];
      ReloadedStorable(rest);
      ReloadedCons(players);
      KeptStorable(p);
    }
  }

  /** Reloading is element by element. */
  lemma ReloadedCons(players: seq<Player>)
    requires |players| > 0
    ensures Reloaded(players) == Reloaded([players[0]]) + Reloaded(players[1..])
  {
    assert [players[0]][1..] == [];
  }

  /** A storable player survives the reload unchanged. */
  lemma KeptStorable(p: Player)
    requires Storable(p)
    ensures Reloaded([p]) == [p]
  {
    ReloadedSingleton(p);
    TrimOfTrimmed(p.nickname);
  }
}
