# Tournament tracker records, in Dafny

A model of the record layer of a small e-sport tournament tracker written in
Java. Players carry an id, a nickname, a level and a raw score. Matches pair
two players, their scores and a date. Each kind has an in-memory registry
that hands out ids from a counter. After every change the registry writes its
whole list to a comma-separated store, and it reads that store back at start-up.

The model is pure and immutable:

- `Players` and `Matches` hold the two records. `Players.CalculateScore` is
  `score * level` with Java's 32-bit wrap-around. `Matches.Winner` is the
  higher scorer's id, or none on a tie.
- `PlayerStore` and `MatchStore` hold the line formats: header, encode,
  decode, save and load. `Store` holds the load/save skeleton they share:
  skip the header, skip blank lines, drop lines that fail to decode.
- `PlayerService` and `MatchService` hold the registries. A registry is a
  value `Registry(records, nextId)`. An operation that changes it returns a
  `Step(state, result, written)`:
  - `state` is the registry afterwards;
  - `result` is the value or the error the Java method would throw;
  - `written` holds the lines saved to the store, and is `None` when nothing
    was saved.
- The Java library behaviour the code relies on is spelled out:
  - `Text`: `String.trim`, `split(",")` (trailing empty pieces dropped),
    `equalsIgnoreCase`;
  - `Decimal`: `Integer.toString` and `Integer.parseInt`;
  - `Dates`: `LocalDate.toString` and `LocalDate.parse`;
  - `JavaInt`: 32-bit `int` arithmetic and `IntStream.sum`;
  - `Seqs`: the stable descending sort behind `sorted(...reversed())`, and
    `limit(n)`.

A store is `Option<seq<string>>`, where `None` is a missing file. Its
elements are the lines `readLine` returns. Between a save and the next start
the lines pass through the file's text: `Store.WriteLines` writes each line
followed by a line feed, and `Store.ReadLines` cuts text into lines the way
`readLine` does, at `\n`, `\r` or `\r\n`.

Some behaviour of the code comes out of the model:

- `addPlayer` (src/main/java/org/entreprise/service/PlayerService.java:59-73) neither trims the nickname nor
  rejects an empty one; it stores the nickname exactly as given. Only the
  console menu does both, before calling it
  (src/main/java/org/entreprise/Main.java:103-109). The loader
  trims every field, so surrounding blanks are lost on the next start
  (`PlayerStore.DecodeEncode`).
- A nickname containing a comma is accepted and saved. On the next start its
  line splits into more than four fields, and the player is dropped with only
  a log message (`PlayerStore.CommaInNicknameRejected`,
  `PlayerStore.ReloadedSingleton`).
- A nickname containing a line break is written as is, so the record spans
  two lines of the file and is read back as two records. The player is lost,
  and the second half can be accepted as a player that was never saved: the
  nickname `x`, line feed, `9,evil` comes back as player 9 named `evil`
  (`PlayerStore.LineBreakForgesPlayer`).
- A match line whose player id is not registered is skipped at load
  (`MatchStore.OrphanSkipped`).
- Match records hold player ids. In the Java code they hold player objects,
  but those objects only come from a lookup by id, so nothing is lost.
- `createMatch` declares `Playernotfoundexception`, which does not match the
  `PlayerNotFoundException` that `findById` throws. The model reports the
  error `PlayerNotFound(id)`.

## Model

Source paths are relative to the repository root.

| member | source | states |
|---|---|---|
| Players.CalculateScore | src/main/java/org/entreprise/model/Player.java:43-46 | the Java product `score * level`: an int, congruent to the exact product modulo 2^32, and equal to it whenever it fits |
| Players.CalculateScoreSample | src/test/java/TournamentServiceTest.java:128-138 | level 4 and score 50 give 200 |
| Players.CalculateScoreIgnoresIdentity | src/main/java/org/entreprise/model/Player.java:43-46 | the calculated score depends on level and score only |
| Players.SamePlayerContract | src/main/java/org/entreprise/model/Player.java:75-85 | equality by id is an equivalence, equal players hash alike, and nickname, level and score do not take part |
| Players.SamePlayer | src/main/java/org/entreprise/model/Player.java:75-80 | `equals`: two players are the same player exactly when their ids are equal |
| Players.HashCode | src/main/java/org/entreprise/model/Player.java:82-85 | `hashCode` is `Integer.hashCode(id)`, which is the id itself |
| Players.FirstWithId | src/main/java/org/entreprise/dao/MatchDAO.java:162-170 | `filter(id).findFirst()`: nothing exactly when no player has the id, otherwise a listed player with that id |
| Players.FirstWithIdIsFirst | src/main/java/org/entreprise/service/PlayerService.java:90-98 | the player found is the first one with the id: no earlier player carries it |
| Players.FirstWithIdOfDistinct | src/main/java/org/entreprise/service/PlayerService.java:90-98 | with distinct ids, looking up a listed player's id finds that player |
| Players.FirstWithIdSnoc | src/main/java/org/entreprise/service/PlayerService.java:72-73 | after appending a player, lookups of ids already present are unchanged, and the new id finds the new player |
| Matches.Winner | src/main/java/org/entreprise/model/Match.java:54-58 | the higher scorer wins; there is no winner exactly when the scores are equal |
| Matches.WinnerIsParticipant | src/main/java/org/entreprise/model/Match.java:54-58 | a winner is always one of the two players |
| Matches.WinnerSymmetric | src/main/java/org/entreprise/model/Match.java:54-58 | swapping sides, together with their scores, does not change the winner |
| Matches.WinnerIgnoresIdAndDate | src/main/java/org/entreprise/model/Match.java:54-58 | the winner depends on the players and scores only |
| Matches.WinnerSamples | src/test/java/TournamentServiceTest.java:166-173 | 15-5 is won by player 1, 5-15 by player 2, and 7-7 by nobody |
| JavaInt.Wrap32 | src/main/java/org/entreprise/model/Player.java:45 | a Java int result lies in the int range and agrees with the exact value modulo 2^32 |
| JavaInt.FoldSum | src/main/java/org/entreprise/service/PlayerService.java:127-129 | `IntStream.sum` wraps after every addition, yet ends at the wrapped exact sum |
| JavaInt.IntSum | src/main/java/org/entreprise/service/PlayerService.java:127-129 | the int sum is 0 for an empty stream and otherwise the wrapped exact sum |
| JavaInt.IntSumSnoc | src/main/java/org/entreprise/service/PlayerService.java:127-129 | adding one more value to the stream adds it with one more wrap |
| Text.Trim | src/main/java/org/entreprise/dao/PlayerDAO.java:108 | `trim` strips exactly the leading and trailing characters up to U+0020, and keeps what lies between them |
| Text.TrimIdempotent | src/main/java/org/entreprise/dao/PlayerDAO.java:149-152 | trimming twice is trimming once, and trimming adds no character |
| Text.BlankIffTrimEmpty | src/main/java/org/entreprise/dao/PlayerDAO.java:108 | `line.trim().isEmpty()` holds exactly when every character of the line is at most U+0020 |
| Text.Split | src/main/java/org/entreprise/dao/PlayerDAO.java:143 | `split(",")` gives the whole string when it has no comma; otherwise it gives the comma-free pieces with trailing empty pieces dropped |
| Text.SplitKeepsPieces | src/main/java/org/entreprise/dao/PlayerDAO.java:143 | when the last piece is non-empty, `split` drops nothing |
| Text.PiecesJoin | src/main/java/org/entreprise/dao/PlayerDAO.java:143 | cutting at a separator splits the pieces into those before it and those after it |
| Text.PiecesOfJoin | src/main/java/org/entreprise/dao/MatchDAO.java:134-141 | joining comma-free fields with commas and cutting at the commas gives the fields back |
| Text.EqualsIgnoreCaseIsEquivalence | src/main/java/org/entreprise/service/PlayerService.java:63-64 | the nickname comparison is reflexive, symmetric and transitive |
| Text.CaseVariantsCollide | src/main/java/org/entreprise/service/PlayerService.java:63-64 | "Aria" and "aRIA" collide, and "Aria" and "Arya" do not |
| Text.EqualsIgnoreCase | src/main/java/org/entreprise/service/PlayerService.java:64 | two nicknames match when they have the same length and agree character by character after folding ASCII capitals |
| Text.SplitAvoids | src/main/java/org/entreprise/dao/PlayerDAO.java:143 | a character absent from a line is absent from every field cut from it |
| Text.JoinAvoids | src/main/java/org/entreprise/dao/MatchDAO.java:134-141 | a character that is not the separator and is in no field is absent from the joined line |
| Decimal.IntToString | src/main/java/org/entreprise/dao/PlayerDAO.java:132-135 | printed ints are non-empty and made of digits, with an optional leading minus |
| Decimal.ParseInt | src/main/java/org/entreprise/dao/PlayerDAO.java:149-152 | `parseInt` accepts only an optional sign followed by digits, and only values in the int range; a value without a minus sign is non-negative |
| Decimal.IntRoundTrip | src/main/java/org/entreprise/dao/PlayerDAO.java:132-152 | every int prints to text that parses back to it |
| Decimal.IntTextIsPlain | src/main/java/org/entreprise/dao/PlayerDAO.java:132-152 | printed ints contain no comma and nothing `trim` would strip |
| Decimal.IntTextAvoids | src/main/java/org/entreprise/dao/PlayerDAO.java:132-135 | a printed int holds only digits and a minus sign, so no other character, such as a comma or a line break, occurs in it |
| Dates.ParseDate | src/main/java/org/entreprise/dao/MatchDAO.java:159 | a parsed date is a real calendar date with a four-digit year, read from `yyyy-mm-dd` text |
| Dates.ParsePadded | src/main/java/org/entreprise/dao/MatchDAO.java:159 | zero-padded `yyyy-mm-dd` text parses exactly when it names a real date |
| Dates.DateRoundTrip | src/main/java/org/entreprise/dao/MatchDAO.java:140 | every date with a four-digit year prints to text that parses back to it |
| Dates.DateTextIsPlain | src/main/java/org/entreprise/dao/MatchDAO.java:140 | a printed date is non-empty, holds no comma and is unchanged by `trim` |
| Dates.PrintDate | src/main/java/org/entreprise/dao/MatchDAO.java:140 | `LocalDate.toString`: the year zero-padded to four digits (with `-` below zero and `+` above 9999), then the month and day on two digits each, separated by `-` |
| Dates.DateTextAvoids | src/main/java/org/entreprise/dao/MatchDAO.java:140 | whatever its year, a printed date holds only digits and signs, so it has no comma and no line break |
| Dates.SampleDateRoundTrip | src/main/java/org/entreprise/dao/MatchDAO.java:140 | the sample date 2024-03-02 is printed and parsed back unchanged |
| Dates.CommonYearLeapDayRejected | src/main/java/org/entreprise/dao/MatchDAO.java:159 | 2023-02-29 does not parse: 2023 is a common year |
| Dates.LeapDayAccepted | src/main/java/org/entreprise/dao/MatchDAO.java:159 | 2024-02-29 parses to that date: 2024 is a leap year |
| Seqs.MaxOrZero | src/main/java/org/entreprise/service/PlayerService.java:42-45 | `max().orElse(0)`: bounds every element and is one of them, or 0 for an empty stream |
| Seqs.NextId | src/main/java/org/entreprise/service/PlayerService.java:42-45 | the counter seed lies above every loaded id, is 1 for an empty store, and is one above some loaded id otherwise |
| Seqs.NextIdSnoc | src/main/java/org/entreprise/service/PlayerService.java:72 | handing out the counter and incrementing it keeps it one above the largest id |
| Seqs.NextIdAsWrittenWraps | src/main/java/org/entreprise/service/PlayerService.java:42-45 | with int addition, loaded ids `MAX_INT` and `MIN_INT` seed the counter with `MIN_INT` |
| Seqs.NextIdAsWritten | src/main/java/org/entreprise/service/PlayerService.java:42-45 | `max().orElse(0) + 1` in int arithmetic: always an int, and equal to the unbounded seed whenever that seed fits in an int |
| Seqs.SortDesc | src/main/java/org/entreprise/service/PlayerService.java:106-108 | the sorted list is a permutation of the input, ordered by non-increasing key |
| Seqs.SortDescStable | src/main/java/org/entreprise/service/PlayerService.java:106-108 | the sort is stable: for every key value, the elements with that key keep their input order |
| Seqs.TopDesc | src/main/java/org/entreprise/service/PlayerService.java:116-119 | `limit(n)` of the sort keeps min(n, size) elements, in descending order, drawn from the input |
| Seqs.TopDescMaximal | src/main/java/org/entreprise/service/PlayerService.java:116-119 | no element left out has a larger key than any element kept |
| Seqs.TopDescStable | src/main/java/org/entreprise/service/PlayerService.java:116-119 | for each key value, the kept elements are the first ones of that key, in input order |
| Store.DecodeLine | src/main/java/org/entreprise/dao/PlayerDAO.java:107-115 | a line yields a record exactly when it is not blank and decodes; otherwise it yields nothing |
| Store.Load | src/main/java/org/entreprise/dao/PlayerDAO.java:84-125 | a missing store loads nothing; otherwise the first line is skipped and the rest are decoded |
| Store.Save | src/main/java/org/entreprise/dao/PlayerDAO.java:56-75 | the header, then one line per record, in order |
| Store.DecodeLinesAppend | src/main/java/org/entreprise/dao/PlayerDAO.java:100-116 | decoding is line by line: decoding concatenated lines concatenates the results |
| Store.SkipsRejectedLine | src/main/java/org/entreprise/dao/PlayerDAO.java:108-115 | a blank or undecodable line is dropped without affecting its neighbours |
| Store.DecodeLinesSurvivors | src/main/java/org/entreprise/dao/PlayerDAO.java:108-115 | every loaded record comes from a non-blank line that decodes to it |
| Store.IsLine | src/main/java/org/entreprise/dao/PlayerDAO.java:100 | text `readLine` can return whole: it holds neither `\n` nor `\r` |
| Store.WriteLines | src/main/java/org/entreprise/dao/PlayerDAO.java:59-68 | each line is written followed by `newLine`, taken to be a line feed |
| Store.LineEnd | src/main/java/org/entreprise/dao/PlayerDAO.java:100 | the first line of a text ends at its first `\n` or `\r`, or at the end of the text |
| Store.ReadLines | src/main/java/org/entreprise/dao/PlayerDAO.java:96-100 | `readLine` repeated until the end: every line returned is free of terminators, `\r\n` counts as one terminator, and a final terminator adds no empty line |
| Store.ReadFirstLine | src/main/java/org/entreprise/dao/PlayerDAO.java:100 | a line without terminators followed by a line feed is read back as the first line, and reading continues after the line feed |
| Store.ReadWriteLines | src/main/java/org/entreprise/dao/PlayerDAO.java:56-100 | lines without terminators, written with `newLine` and read with `readLine`, come back exactly |
| Store.ReadBrokenLine | src/main/java/org/entreprise/dao/PlayerDAO.java:56-100 | a written line holding one line feed is read back as two lines |
| Store.ReadSaved | src/main/java/org/entreprise/dao/PlayerDAO.java:56-100 | a saved store whose header and encoded records hold no terminator reads back as the same lines |
| Store.LoadSaveLines | src/main/java/org/entreprise/dao/PlayerDAO.java:56-125 | loading the saved lines gives the records back, provided each encodes to a non-blank line that decodes to it |
| Store.LoadSave | src/main/java/org/entreprise/dao/PlayerDAO.java:56-125 | writing the saved lines to the file and loading it gives the records back, provided the header and the encoded lines hold no terminator and each encoded line is non-blank and decodes to its record |
| PlayerStore.Encode | src/main/java/org/entreprise/dao/PlayerDAO.java:131-136 | the line cuts at its commas into the id, the nickname's own pieces, the level and the score |
| PlayerStore.Decode | src/main/java/org/entreprise/dao/PlayerDAO.java:142-155 | a line without exactly four fields is rejected; a decoded player has int fields and a trimmed, comma-free nickname, which is also free of terminators when the line is |
| PlayerStore.NicknameIsLine | src/main/java/org/entreprise/dao/PlayerDAO.java:143-152 | the nickname field of a line read from the file holds no terminator |
| PlayerStore.DecodeEncode | src/main/java/org/entreprise/dao/PlayerDAO.java:131-155 | a comma-free player decodes back with its nickname trimmed |
| PlayerStore.RoundTrip | src/main/java/org/entreprise/dao/PlayerDAO.java:131-155 | a storable player decodes back exactly |
| PlayerStore.CommaInNicknameRejected | src/main/java/org/entreprise/dao/PlayerDAO.java:143-147 | a nickname with a comma makes more than four fields, and the line is rejected |
| PlayerStore.EncodedNotBlank | src/main/java/org/entreprise/dao/PlayerDAO.java:108 | an encoded player is never skipped as blank |
| PlayerStore.Save | src/main/java/org/entreprise/dao/PlayerDAO.java:56-75 | the header `id,nickname,level,score` is followed by one encoded line per player, in order |
| PlayerStore.Load | src/main/java/org/entreprise/dao/PlayerDAO.java:84-125 | a missing store loads no players, and every player loaded from lines `readLine` returned is storable |
| PlayerStore.ReloadedSingleton | src/main/java/org/entreprise/dao/PlayerDAO.java:131-155 | after a save and load, one player is dropped if its nickname has a comma and otherwise comes back trimmed |
| PlayerStore.Reloaded | src/main/java/org/entreprise/dao/PlayerDAO.java:56-155 | what a save and a load keep: no more players than were saved, each with a comma-free trimmed nickname |
| PlayerStore.Kept | src/main/java/org/entreprise/dao/PlayerDAO.java:131-155 | one player's share of the reload: at most one player, with a comma-free trimmed nickname |
| PlayerStore.EncodeIsLine | src/main/java/org/entreprise/dao/PlayerDAO.java:131-136 | a player whose nickname has no terminator is written on a single line |
| PlayerStore.SavedLines | src/main/java/org/entreprise/dao/PlayerDAO.java:56-100 | when no nickname holds a terminator, the saved file reads back as the saved lines |
| PlayerStore.LoadAfterSave | src/main/java/org/entreprise/dao/PlayerDAO.java:56-125 | writing and reloading players with int fields and no terminator in any nickname gives back the list minus comma nicknames, with the others trimmed |
| PlayerStore.LoadSave | src/main/java/org/entreprise/dao/PlayerDAO.java:56-125 | writing and reloading storable players gives exactly the same list |
| PlayerStore.LineBreakSplitsRecord | src/main/java/org/entreprise/dao/PlayerDAO.java:56-100 | a nickname with a line feed splits its record: the file reads back as the header, the id with the first part, and the second part with level and score |
| PlayerStore.ShortLineRejected | src/main/java/org/entreprise/dao/PlayerDAO.java:143-147 | the id followed by a comma-free part has too few fields and is rejected |
| PlayerStore.LineBreakForgesPlayer | src/main/java/org/entreprise/dao/PlayerDAO.java:56-155 | a nickname made of a comma-free part, a line feed and `k,w` is not read back; the store yields instead player `k` named `w`, which was never saved |
| MatchStore.Encode | src/main/java/org/entreprise/dao/MatchDAO.java:134-141 | for every match, the line cuts at its commas into the six fields (id, both player ids, both scores, the date) and holds no terminator |
| MatchStore.FieldsAvoid | src/main/java/org/entreprise/dao/MatchDAO.java:134-141 | each of the six printed fields holds only digits and signs, so no other character occurs in any of them |
| MatchStore.EncodeIsLine | src/main/java/org/entreprise/dao/MatchDAO.java:134-141 | every match is written on a single line |
| MatchStore.ParseFields | src/main/java/org/entreprise/dao/MatchDAO.java:147-159 | a line without exactly six fields is rejected; a parsed match has int fields and a valid date |
| MatchStore.Decode | src/main/java/org/entreprise/dao/MatchDAO.java:147-173 | a line decodes exactly when its fields parse and both player ids are registered |
| MatchStore.ParseFieldsEncode | src/main/java/org/entreprise/dao/MatchDAO.java:134-159 | a storable match prints to fields that parse back to it |
| MatchStore.RoundTrip | src/main/java/org/entreprise/dao/MatchDAO.java:134-173 | a storable match decodes back exactly when both of its players are registered, and is rejected otherwise |
| MatchStore.EncodedNotBlank | src/main/java/org/entreprise/dao/MatchDAO.java:111 | an encoded match is never skipped as blank |
| MatchStore.Save | src/main/java/org/entreprise/dao/MatchDAO.java:58-77 | the header is followed by one encoded line per match, in order |
| MatchStore.Load | src/main/java/org/entreprise/dao/MatchDAO.java:87-95 | a missing store loads no matches |
| MatchStore.LoadedMatchesResolve | src/main/java/org/entreprise/dao/MatchDAO.java:103-119 | every loaded match is storable and names two registered players |
| MatchStore.HeaderIsLine | src/main/java/org/entreprise/dao/MatchDAO.java:27 | the header holds no line terminator |
| MatchStore.LoadSave | src/main/java/org/entreprise/dao/MatchDAO.java:58-128 | writing and reloading storable matches whose players are registered gives the same list |
| MatchStore.OrphanSkipped | src/main/java/org/entreprise/dao/MatchDAO.java:113-118 | a match line naming an unregistered player is dropped, and its neighbours load as before |
| MatchStore.RejectedLineSkipped | src/main/java/org/entreprise/dao/MatchDAO.java:113-118 | any line that fails to decode is dropped without affecting its neighbours |
| PlayerService.Init | src/main/java/org/entreprise/service/PlayerService.java:38-47 | the registry keeps the loaded players, and the counter lies above all their ids (1 when none are loaded) |
| PlayerService.Open | src/main/java/org/entreprise/service/PlayerService.java:38-47 | a missing store gives an empty registry whose counter is 1 |
| PlayerService.AddPlayer | src/main/java/org/entreprise/service/PlayerService.java:59-80 | fails, with nothing changed or written, exactly when the nickname matches one ignoring case; otherwise appends the player under the counter, increments the counter, writes the list, and keeps the registry invariant |
| PlayerService.AddKeepsValid | src/main/java/org/entreprise/service/PlayerService.java:59-80 | a successful add keeps ids distinct, nicknames distinct ignoring case, and the counter one above the largest id |
| PlayerService.FindById | src/main/java/org/entreprise/service/PlayerService.java:90-98 | fails with PlayerNotFound exactly when no player has the id; otherwise returns a registered player with that id |
| PlayerService.FindAfterAdd | src/main/java/org/entreprise/service/PlayerService.java:59-98 | after an add, the new id finds the new player, and every other lookup is unchanged |
| PlayerService.AddedIdPositive | src/test/java/TournamentServiceTest.java:51-58 | starting from positive ids, an added player's id is positive and all ids stay positive |
| PlayerService.CaseVariantRejected | src/test/java/TournamentServiceTest.java:67-81 | re-adding a nickname, or a case variant of it, fails with that nickname and changes nothing |
| PlayerService.ThreeAddsFromEmpty | src/main/java/org/entreprise/service/PlayerService.java:42-80 | three adds with distinct nicknames into an empty registry get the ids 1, 2 and 3, in order |
| PlayerService.SortedByScore | src/main/java/org/entreprise/service/PlayerService.java:104-109 | a stable permutation of the players by non-increasing raw score |
| PlayerService.Top3 | src/main/java/org/entreprise/service/PlayerService.java:114-120 | at most three players, in descending calculated score; no player left out ranks higher, and ties keep insertion order |
| PlayerService.TotalScore | src/main/java/org/entreprise/service/PlayerService.java:126-132 | 0 when empty; the wrapped sum of the raw scores, which equals the exact sum when that fits |
| PlayerService.TotalScoreAfterAdd | src/main/java/org/entreprise/service/PlayerService.java:126-132 | an add raises the total by the new score, with int wrap-around |
| PlayerService.NotTakenSnoc | src/main/java/org/entreprise/service/PlayerService.java:63-64 | a free nickname stays free when a player with a different nickname is appended |
| PlayerService.NicknameTaken | src/main/java/org/entreprise/service/PlayerService.java:63-64 | `anyMatch` over the players: some registered nickname equals the given one ignoring case |
| PlayerService.AllPlayers | src/main/java/org/entreprise/service/PlayerService.java:147-149 | `getAllPlayers`: the registered players, in insertion order |
| PlayerService.ReopenAfterSave | src/main/java/org/entreprise/service/PlayerService.java:38-47 | restarting from the file written for a valid registry of storable players gives back the same registry |
| PlayerService.InitAsWrittenReusesId | src/main/java/org/entreprise/service/PlayerService.java:42-45 | with the int counter, ids `MAX_INT` and `MIN_INT` lead the next add to reuse `MIN_INT` |
| PlayerService.InitAsWritten | src/main/java/org/entreprise/service/PlayerService.java:42-45 | the constructor with the int counter: it keeps the loaded players and agrees with `Init` whenever the seed does not overflow |
| MatchService.Init | src/main/java/org/entreprise/service/MatchService.java:41-51 | the registry keeps the loaded matches; the counter lies above all their ids, is 1 when none are loaded and otherwise one above some loaded id; it is valid exactly when the loaded ids are distinct |
| MatchService.Open | src/main/java/org/entreprise/service/MatchService.java:41-51 | a missing store gives an empty registry whose counter is 1; every loaded match names two registered players |
| MatchService.CreateMatch | src/main/java/org/entreprise/service/MatchService.java:65-97 | checks a self-match, then negative scores, then player 1, then player 2, and reports the first failure with nothing changed; otherwise appends a legal match dated today under the counter, increments it, writes the list, and keeps validity and resolution |
| MatchService.CreateKeepsValid | src/main/java/org/entreprise/service/MatchService.java:87-88 | appending a match under the counter keeps ids distinct and the counter one above the largest |
| MatchService.ResolvesAfterAddPlayer | src/main/java/org/entreprise/service/PlayerService.java:72-73 | registering a player never orphans a recorded match |
| MatchService.MatchesByPlayer | src/main/java/org/entreprise/service/MatchService.java:110-115 | the matches that involve the player, and only those |
| MatchService.MatchesByPlayerAppend | src/main/java/org/entreprise/service/MatchService.java:110-115 | the filter keeps creation order: a new match goes last, and only if it involves the player |
| MatchService.MatchesByPlayerAfterCreate | src/main/java/org/entreprise/service/MatchService.java:87-115 | a created match joins the lists of exactly its two players |
| MatchService.TotalPointsPlayed | src/main/java/org/entreprise/service/MatchService.java:120-126 | 0 when empty; the int sum over matches of both scores, which equals the exact total when that fits |
| MatchService.PointsSameBits | src/main/java/org/entreprise/service/MatchService.java:121-123 | wrapping each match's point total changes the overall sum only by a multiple of 2^32 |
| MatchService.TotalPointsSample | src/main/java/org/entreprise/service/MatchService.java:120-126 | matches scoring 10-5 and 3-3 total 21 points |
| MatchService.CountWins | src/main/java/org/entreprise/service/MatchService.java:131-138 | a player wins no more matches than it plays |
| MatchService.CountWinsAppend | src/main/java/org/entreprise/service/MatchService.java:131-138 | a new match adds a win exactly when its winner is the player |
| MatchService.CountWinsAfterCreate | src/main/java/org/entreprise/service/MatchService.java:87-138 | a created match adds a win to the higher scorer and none on a tie |
| MatchService.WinsPartition | src/main/java/org/entreprise/service/MatchService.java:131-138 | between two players, wins of one plus wins of the other plus ties is the number of matches |
| MatchService.ReopenAfterSave | src/main/java/org/entreprise/service/MatchService.java:41-51 | restarting from the file written for a valid registry whose matches are storable and resolve gives back the same registry |
| MatchService.InitAsWrittenReusesId | src/main/java/org/entreprise/service/MatchService.java:45-49 | with the int counter, match ids `MAX_INT` and `MIN_INT` lead the next match to reuse `MIN_INT` |
| MatchService.InitAsWritten | src/main/java/org/entreprise/service/MatchService.java:46-49 | the constructor with the int counter: it keeps the loaded matches and agrees with `Init` whenever the seed does not overflow |

## Left out

- The console menu (`Main.java`), logging, and the creation of the `data/` directory. They are user interaction and side effects, with no record logic.
- Opening, creating and closing files. A file is its text, and a missing file is `None`. An I/O failure, which the code only logs, is not modelled.
- Store.WriteLines: `newLine` writes the platform's line separator; the model writes a line feed. `readLine` reads `\r\n` as one terminator too, but the round trip is proved for the line feed only.
- PlayerStore.LoadAfterSave: requires that no nickname holds a line terminator, because such a record no longer maps to one line. What happens then is stated separately, for a line feed, by `PlayerStore.LineBreakSplitsRecord` and `PlayerStore.LineBreakForgesPlayer`.
- `LocalDate.now()` is the `today` parameter of `MatchService.CreateMatch`.
- `getAverageScore` is not modelled, because it uses floating-point division.
- `getAllPlayers` and `getAllMatches` return defensive copies. They are the registry's list itself (`PlayerService.AllPlayers`), and there is no aliasing to model.
- Setters, `toString` and object identity are not modelled. Records are immutable values. `Player.equals` by id is `Players.SamePlayer`.
- PlayerService.AddPlayer: the counter is unbounded, so `nextId++` past `MAX_INT` does not wrap. This is the same int overflow as the finding below.
- MatchService.CreateMatch: the counter is unbounded, so `nextId++` past `MAX_INT` does not wrap. This is the same int overflow as the finding below.
- Text.EqualsIgnoreCase folds ASCII letters only. `equalsIgnoreCase` also folds other Unicode letters.
- Decimal.ParseInt accepts ASCII digits only. `Integer.parseInt` also accepts other Unicode decimal digits.
- Dates.ParseDate accepts only unsigned four-digit years. `LocalDate.parse` also reads signed years and years with more digits. As a result, a match dated outside 0000-9999 prints but is not read back (`MatchStore.Storable` excludes it).
- MatchStore.Load: its own contract covers only the missing store. What it loads is stated by `MatchStore.LoadedMatchesResolve` and `MatchStore.LoadSave`.

## Findings

| source | as written | input that shows it | evidently intended | confidence | as-written member | corrected member |
|---|---|---|---|---|---|---|
| src/main/java/org/entreprise/service/PlayerService.java:42-45 | `max().orElse(0) + 1` is int addition, so it wraps to `MIN_INT` when a loaded id is `MAX_INT` | a player store holding ids 2147483647 and -2147483648: the next `addPlayer` hands out -2147483648 a second time | the counter lies above every loaded id, so new ids are fresh | high, not executed | PlayerService.InitAsWrittenReusesId | PlayerService.AddPlayer |
| src/main/java/org/entreprise/service/MatchService.java:46-49 | the same int addition seeds the match counter | a match store holding ids 2147483647 and -2147483648: the next `createMatch` reuses -2147483648 | the counter lies above every loaded match id | high, not executed | MatchService.InitAsWrittenReusesId | MatchService.CreateMatch |

The corrected counter is `Seqs.NextId`, computed over unbounded integers. It
is used by `PlayerService.Init` and `MatchService.Init`. `AddPlayer` and
`CreateMatch` prove that adding a record keeps the ids distinct and the
counter above every id.
