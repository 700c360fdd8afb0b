/** The match store (`MatchDAO`): lines
    `id,player1Id,player2Id,scorePlayer1,scorePlayer2,date` after the header,
    read back against the players already loaded. */
module MatchStore {
  import opened Results
  import opened JavaInt
  import opened Text
  import opened Decimal
  import opened Dates
  import opened Players
  import opened Matches
  import Store

  /** `id,player1Id,player2Id,scorePlayer1,scorePlayer2,date`. */
  const HEADER: string := Join(["id", "player1Id", "player2Id", "scorePlayer1", "scorePlayer2", "date"], ',')

  /** The six fields of a match as they are written. */
  function Fields(m: Match): seq<string> {
    [IntToString(m.id), IntToString(m.player1), IntToString(m.player2),
     IntToString(m.score1), IntToString(m.score2), PrintDate(m.date)]
  }

  /** `matchToCsv`: the fields joined by single commas, on one line. */
  function Encode(m: Match): (line: string)
    ensures Pieces(line, ',') == Fields(m)
    ensures Store.IsLine(line)
  {
    EncodePieces(m);
    EncodeIsLine(m);
    Join(Fields(m), ',')
  }

  lemma EncodePieces(m: Match)
    ensures Pieces(Join(Fields(m), ','), ',') == Fields(m)
  {
    FieldsAvoid(m, ',');
    PiecesOfJoin(Fields(m), ',');
  }

  /** Whatever the date, the joined fields hold no line terminator. */
  lemma EncodeIsLine(m: Match)
    ensures Store.IsLine(Join(Fields(m), ','))
  {
    FieldsAvoid(m, '\n');
    FieldsAvoid(m, '\r');
    JoinAvoids(Fields(m), ',', '\n');
    JoinAvoids(Fields(m), ',', '\r');
  }

  /** Every field is printed digits and signs, so no other character
      occurs in any of them. */
  lemma FieldsAvoid(m: Match, c: char)
    requires !IsDigit(c) && c != '-' && c != '+'
    ensures forall i :: 0 <= i < |Fields(m)| ==> c !in Fields(m)[i]
  {
    IntTextAvoids(m.id, c);
    IntTextAvoids(m.player1, c);
    IntTextAvoids(m.player2, c);
    IntTextAvoids(m.score1, c);
    IntTextAvoids(m.score2, c);
    DateTextAvoids(m.date, c);
    NoSepInSix(IntToString(m.id), IntToString(m.player1), IntToString(m.player2),
               IntToString(m.score1), IntToString(m.score2), PrintDate(m.date), c);
  }

  /** Six strings without `sep` make a field list without it. */
  lemma NoSepInSix(a: string, b: string, c: string, d: string, e: string, f: string, sep: char)
    requires sep !in a && sep !in b && sep !in c && sep !in d && sep !in e && sep !in f
    ensures forall i :: 0 <= i < 6 ==> sep !in [a, b, c, d, e, f][i]
  {
  }

  /** A match the store can hold unchanged: Java-range numbers and a date
      with a four-digit year. */
  predicate Storable(m: Match) {
    && IsInt32(m.id) && IsInt32(m.player1) && IsInt32(m.player2)
    && IsInt32(m.score1) && IsInt32(m.score2)
    && IsValid(m.date) && HasFourDigitYear(m.date)
  }

  /** The match fields of a line, before player resolution: exactly six
      comma-separated fields, each trimmed, five ints and a date. */
  function ParseFields(line: string): (r: Option<Match>)
    ensures |Split(line, ',')| != 6 ==> r.None?
    ensures r.Some? ==> Storable(r.value)
  {
    var parts := Split(line, ',');
    if |parts| != 6 then None
    else
      var id := ParseInt(Trim(parts[0]));
      var p1 := ParseInt(Trim(parts[1]));
      var p2 := ParseInt(Trim(parts[2]));
      var s1 := ParseInt(Trim(parts[3]));
      var s2 := ParseInt(Trim(parts[4]));
      var date := ParseDate(Trim(parts[5]));
      if id.Some? && p1.Some? && p2.Some? && s1.Some? && s2.Some? && date.Some? then
        Some(Match(id.value, p1.value, p2.value, s1.value, s2.value, date.value))
      else None
  }

  /** `csvToMatch`: the fields, then each player id resolved to the first
      player carrying it; an id that resolves to nobody rejects the line.
      Neither the self-match nor the negative-score rule is checked here. */
  function Decode(line: string, players: seq<Player>): (r: Option<Match>)
    ensures r.Some? <==> ParseFields(line).Some?
                         && HasId(players, ParseFields(line).value.player1)
                         && HasId(players, ParseFields(line).value.player2)
    ensures r.Some? ==> r == ParseFields(line)
  {
    match ParseFields(line)
    case None => None
    case Some(m) =>
      match (FirstWithId(players, m.player1), FirstWithId(players, m.player2))
      case (Some(a), Some(b)) => Some(Match(m.id, a.id, b.id, m.score1, m.score2, m.date))
      case _ => None
  }

  /** A six-field line parses field by field. */
  lemma ParseFieldsOf(line: string, f: seq<string>)
    requires Split(line, ',') == f && |f| == 6
    ensures ParseFields(line)
            == if ParseInt(Trim(f[0])).Some? && ParseInt(Trim(f[1])).Some? && ParseInt(Trim(f[2])).Some?
                  && ParseInt(Trim(f[3])).Some? && ParseInt(Trim(f[4])).Some? && ParseDate(Trim(f[5])).Some?
               then Some(Match(ParseInt(Trim(f[0])).value, ParseInt(Trim(f[1])).value, ParseInt(Trim(f[2])).value,
                               ParseInt(Trim(f[3])).value, ParseInt(Trim(f[4])).value, ParseDate(Trim(f[5])).value))
               else None
  {
  }

  /** A written int field reads back as the same int. */
  lemma IntFieldBack(n: int)
    requires IsInt32(n)
    ensures ParseInt(Trim(IntToString(n))) == Some(n)
  {
    IntTextIsPlain(n);
    IntRoundTrip(n);
  }

  /** A written date field reads back as the same date. */
  lemma DateFieldBack(d: Date)
    requires IsValid(d) && HasFourDigitYear(d)
    ensures ParseDate(Trim(PrintDate(d))) == Some(d)
  {
    DateTextIsPlain(d);
    DateRoundTrip(d);
  }

  /** The line of a match splits into its six fields. */
  lemma SplitEncode(m: Match)
    ensures Split(Encode(m), ',') == Fields(m)
  {
    SplitKeepsPieces(Encode(m), ',');
  }

  /** The fields of a storable match come back exactly. */
  lemma ParseFieldsEncode(m: Match)
    requires Storable(m)
    ensures ParseFields(Encode(m)) == Some(m)
  {
    DateTextIsPlain(m.date);
    SplitEncode(m);
    ParseFieldsOf(Encode(m), Fields(m));
    IntFieldBack(m.id);
    IntFieldBack(m.player1);
    IntFieldBack(m.player2);
    IntFieldBack(m.score1);
    IntFieldBack(m.score2);
    DateFieldBack(m.date);
  }

  /** A storable match's line decodes to that match exactly when both of
      its player ids are among the players; otherwise it is rejected. */
  lemma RoundTrip(m: Match, players: seq<Player>)
    requires Storable(m)
    ensures Decode(Encode(m), players) == Some(m) <==> HasId(players, m.player1) && HasId(players, m.player2)
    ensures !HasId(players, m.player1) || !HasId(players, m.player2) ==> Decode(Encode(m), players) == None
  {
    ParseFieldsEncode(m);
  }

  lemma EncodedNotBlank(m: Match)
    ensures !IsBlank(Encode(m))
  {
    IntTextIsPlain(m.id);
    assert Encode(m)[0] == IntToString(m.id)[0];
  }

  /** `csvToMatch` with the player list fixed, as `loadAll` uses it. */
  function DecoderFor(players: seq<Player>): string -> Option<Match> {
    line => Decode(line, players)
  }

  /** `saveAll`. */
  function Save(matches: seq<Match>): (lines: seq<string>)
    ensures |lines| == |matches| + 1 && lines[0] == HEADER
    ensures forall i :: 0 <= i < |matches| ==> lines[i + 1] == Encode(matches[i])
  {
    Store.Save(HEADER, matches, Encode)
  }

  /** `loadAll(availablePlayers)`. */
  function Load(store: Option<seq<string>>, players: seq<Player>): (matches: seq<Match>)
    ensures store.None? ==> matches == []
  {
    Store.Load(store, DecoderFor(players))
  }

  /** Every match the load keeps is storable and refers to two players of
      the list it was loaded against. */
  lemma LoadedMatchesResolve(store: Option<seq<string>>, players: seq<Player>, i: int)
    requires 0 <= i < |Load(store, players)|
    ensures Storable(Load(store, players)[i])
    ensures HasId(players, Load(store, players)[i].player1)
    ensures HasId(players, Load(store, players)[i].player2)
  {
    Store.DecodeLinesSurvivors(store.value[1..], DecoderFor(players), i);
  }

  /** Saving then loading gives the matches back when each is storable and
      both of its players are present. */
  lemma LoadSave(matches: seq<Match>, players: seq<Player>)
    requires forall i :: 0 <= i < |matches| ==> Storable(matches[i])
    requires forall i :: 0 <= i < |matches| ==> HasId(players, matches[i].player1) && HasId(players, matches[i].player2)
    ensures Load(Some(Store.ReadLines(Store.WriteLines(Save(matches)))), players) == matches
  {
    var decode := DecoderFor(players);
    forall i | 0 <= i < |matches|
      ensures Store.IsLine(Encode(matches[i]))
      ensures !IsBlank(Encode(matches[i])) && decode(Encode(matches[i])) == Some(matches[i])
    {
      EncodedNotBlank(matches[i]);
      RoundTrip(matches[i], players);
    }
    HeaderIsLine();
    Store.LoadSave(HEADER, matches, Encode, decode);
  }

  lemma HeaderIsLine()
    ensures Store.IsLine(HEADER)
  {
    var names := ["id", "player1Id", "player2Id", "scorePlayer1", "scorePlayer2", "date"];
    assert forall i :: 0 <= i < |names| ==> Store.IsLine(names[i]);
    JoinAvoids(names, ',', '\n');
    JoinAvoids(names, ',', '\r');
  }

  lemma LoadAfterHeader(lines: seq<string>, players: seq<Player>)
    ensures Load(Some([HEADER] + lines), players) == Store.DecodeLines(lines, DecoderFor(players))
  {
    assert ([HEADER] + lines)[1..] == lines;
  }

  lemma LoadAround(before: seq<string>, bad: string, after: seq<string>, players: seq<Player>)
    ensures Load(Some([HEADER] + before + [bad] + after), players)
            == Store.DecodeLines(before + [bad] + after, DecoderFor(players))
  {
    var body := before + [bad] + after;
    assert [HEADER] + before + [bad] + after == [HEADER] + body;
    LoadAfterHeader(body, players);
  }

  lemma DecodeLinesSkip(before: seq<string>, bad: string, after: seq<string>, players: seq<Player>)
    requires Decode(bad, players).None?
    ensures Store.DecodeLines(before + [bad] + after, DecoderFor(players))
            == Store.DecodeLines(before, DecoderFor(players)) + Store.DecodeLines(after, DecoderFor(players))
  {
    var d := DecoderFor(players);
    assert d(bad).None?;
    Store.SkipsRejectedLine(before, bad, after, d);
  }

  /** A line that does not decode is dropped alone: the lines before and
      after it load as if it were not there. */
  lemma RejectedLineSkipped(before: seq<string>, bad: string, after: seq<string>, players: seq<Player>)
    requires Decode(bad, players).None?
    ensures Load(Some([HEADER] + before + [bad] + after), players)
            == Load(Some([HEADER] + before), players) + Load(Some([HEADER] + after), players)
  {
    LoadAround(before, bad, after, players);
    DecodeLinesSkip(before, bad, after, players);
    LoadAfterHeader(before, players);
    LoadAfterHeader(after, players);
  }

  /** In particular a saved match whose player is missing is dropped alone. */
  lemma OrphanSkipped(before: seq<string>, m: Match, after: seq<string>, players: seq<Player>)
    requires Storable(m)
    requires !HasId(players, m.player1) || !HasId(players, m.player2)
    ensures Load(Some([HEADER] + before + [Encode(m)] + after), players)
            == Load(Some([HEADER] + before), players) + Load(Some([HEADER] + after), players)
  {
    RoundTrip(m, players);
    RejectedLineSkipped(before, Encode(m), after, players);
  }
}
