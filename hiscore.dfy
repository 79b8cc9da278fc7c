/**
 * Translating the hiscore's positional CSV rows into a player record: the
 * skill and minigame catalogs, the row and record types, `HiscorePlayer::load`
 * and the all-or-nothing row collection of `load_hiscore_rows`.
 */
module Hiscore {
  import opened Wrappers
  import opened FilterMap
  import opened Error

  /** Rust's 64-bit `isize` and `usize`. */
  const ISIZE_MAX: int := 0x7fff_ffff_ffff_ffff
  const USIZE_MAX: int := 0xffff_ffff_ffff_ffff
  type Isize = x: int | -ISIZE_MAX - 1 <= x <= ISIZE_MAX
  type Usize = x: int | 0 <= x <= USIZE_MAX

  /** The skills, in the order the hiscore emits their rows. */
  const SKILLS: seq<string> := [
    "Total", "Attack", "Defence", "Strength", "Hitpoints", "Ranged", "Prayer",
    "Magic", "Cooking", "Woodcutting", "Fletching", "Fishing", "Firemaking",
    "Crafting", "Smithing", "Mining", "Herblore", "Agility", "Thieving",
    "Slayer", "Farming", "Runecrafting", "Hunter", "Construction"
  ]

  /** The minigames and bosses, in the order the hiscore emits their rows. */
  const MINIGAMES: seq<string> := [
    "Clue Scroll (All)", "Clue Scroll (Beginner)", "Clue Scroll (Easy)",
    "Clue Scroll (Medium)", "Clue Scroll (Hard)", "Clue Scroll (Elite)",
    "Clue Scroll (Master)", "LMS - Rank", "Soul Wars Zeal", "Rifts closed",
    "Abyssal Sire", "Alchemical Hydra", "Barrows Chests", "Bryophyta",
    "Callisto", "Cerberus", "Chambers of Xeric",
    "Chambers of Xeric: Challenge Mode", "Chaos Elemental", "Chaos Fanatic",
    "Commander Zilyana", "Corporeal Beast", "Crazy Archaeologist",
    "Dagannoth Prime", "Dagannoth Rex", "Dagannoth Supreme",
    "Deranged Archaeologist", "General Graardor", "Giant Mole",
    "Grotesque Guardians", "Hespori", "Kalphite Queen", "King Black Dragon",
    "Kraken", "Kree'Arra", "K'ril Tsutsaroth", "Mimic", "Nex", "Nightmare",
    "Phosani's Nightmare", "Obor", "Sarachnis", "Scorpia", "Skotizo",
    "Tempoross", "The Guantlet", "The Corrupted Guantlet", "Theatre of Blood",
    "Theatre of Blood: Hard Mode", "Thermonuclear Smoke Devil", "TzKal-Zuk",
    "TzTok-Jad", "Venenatis", "Vet'ion", "Vorkath", "Wintertodt", "Zalcano",
    "Zulrah"
  ]

  /** Placeholder rows between the skill rows and the minigame rows. */
  const DELIMITER_LEN: nat := 3

  /** One CSV row; the hiscore writes -1 for "no data". */
  datatype RawRow = RawRow(rank: Isize, score: Isize, xp: Option<Isize>)

  datatype Skill = Skill(name: string, rank: Usize, level: Usize, xp: Usize)

  datatype Minigame = Minigame(name: string, rank: Usize, score: Usize)

  datatype Player = Player(skills: seq<Skill>, minigames: seq<Minigame>)

  function Min(a: int, b: int): int { if a <= b then a else b }

  /** `isize::try_into::<usize>().ok()`: it fails exactly on negative values. */
  function TryIntoUsize(x: Isize): (r: Option<Usize>)
    ensures r.Some? <==> x >= 0
    ensures r.Some? ==> r.value == x
  {
    if x < 0 then None else Some(x)
  }

  /** A skill row has data when rank and level are non-negative and the xp is present and non-negative. */
  predicate HasSkillData(row: RawRow) {
    row.rank >= 0 && row.score >= 0 && row.xp.Some? && row.xp.value >= 0
  }

  /** A minigame row has data when rank and score are non-negative; its xp is never read. */
  predicate HasMinigameData(row: RawRow) {
    row.rank >= 0 && row.score >= 0
  }

  /** The skills' `filter_map` closure. */
  function SkillOf(name: string, row: RawRow): (r: Option<Skill>)
    ensures r.Some? <==> HasSkillData(row)
    ensures r.Some? ==> r.value.name == name && r.value.rank == row.rank
                        && r.value.level == row.score && Some(r.value.xp) == row.xp
  {
    var rank :- TryIntoUsize(row.rank);
    var level :- TryIntoUsize(row.score);
    var rawXp :- row.xp;
    var xp :- TryIntoUsize(rawXp);
    Some(Skill(name, rank, level, xp))
  }

  /** The minigames' `filter_map` closure. */
  function MinigameOf(name: string, row: RawRow): (r: Option<Minigame>)
    ensures r.Some? <==> HasMinigameData(row)
    ensures r.Some? ==> r.value.name == name && r.value.rank == row.rank
                        && r.value.score == row.score
  {
    var rank :- TryIntoUsize(row.rank);
    var score :- TryIntoUsize(row.score);
    Some(Minigame(name, rank, score))
  }

  /** The closure's outcome for each pair of `names.iter().zip(rows)`. */
  function ZipOutcomes<T>(names: seq<string>, rows: seq<RawRow>, f: (string, RawRow) -> Option<T>): (o: seq<Option<T>>)
    ensures |o| == Min(|names|, |rows|)
    ensures forall i :: 0 <= i < |o| ==> o[i] == f(names[i], rows[i])
  {
    seq(Min(|names|, |rows|), i requires 0 <= i < Min(|names|, |rows|) => f(names[i], rows[i]))
  }

  function SkillOutcomes(skillNames: seq<string>, rows: seq<RawRow>): (o: seq<Option<Skill>>)
    ensures |o| == Min(|skillNames|, |rows|)
    ensures forall i :: 0 <= i < |o| ==> o[i] == SkillOf(skillNames[i], rows[i])
  {
    ZipOutcomes(skillNames, rows, SkillOf)
  }

  /** Where the minigame rows start: after the skill rows the zip consumed and the delimiter rows. */
  function MinigamesStart(skillNames: seq<string>, delimiterLen: nat, rows: seq<RawRow>): nat {
    Min(Min(|skillNames|, |rows|) + delimiterLen, |rows|)
  }

  function MinigameOutcomes(skillNames: seq<string>, minigameNames: seq<string>, delimiterLen: nat,
                            rows: seq<RawRow>): (o: seq<Option<Minigame>>)
    ensures var start := MinigamesStart(skillNames, delimiterLen, rows);
            && |o| == Min(|minigameNames|, |rows| - start)
            && forall i :: 0 <= i < |o| ==> o[i] == MinigameOf(minigameNames[i], rows[start + i])
  {
    ZipOutcomes(minigameNames, rows[MinigamesStart(skillNames, delimiterLen, rows)..], MinigameOf)
  }

  /** The player record `load` builds from `rows`, for the given catalogs. */
  function Translate(skillNames: seq<string>, minigameNames: seq<string>, delimiterLen: nat,
                     rows: seq<RawRow>): Player
  {
    Player(Somes(SkillOutcomes(skillNames, rows)),
           Somes(MinigameOutcomes(skillNames, minigameNames, delimiterLen, rows)))
  }

  /**
   * How many rows `load` pulls from the row iterator in total. `skip` is lazy
   * and the minigame `zip` takes a name before it polls the rows, so with no
   * minigame name the delimiter rows are never pulled.
   */
  function RowsConsumed(skillNames: seq<string>, minigameNames: seq<string>, delimiterLen: nat,
                        rows: seq<RawRow>): nat
  {
    if |minigameNames| == 0 then Min(|skillNames|, |rows|)
    else
      var start := MinigamesStart(skillNames, delimiterLen, rows);
      start + Min(|minigameNames|, |rows| - start)
  }

  /** How many rows the catalogs account for: every row `load` would pull from an endless response. */
  function RowsAccountedFor(skillNames: seq<string>, minigameNames: seq<string>, delimiterLen: nat): nat {
    if |minigameNames| == 0 then |skillNames| else |skillNames| + delimiterLen + |minigameNames|
  }

  /**
   * `names.iter().zip(&mut rows).filter_map(f).collect()`, with the row
   * iterator at `cursor`: a name is taken before a row, so exactly
   * `min(|names|, rows left)` rows are consumed, and the result holds the
   * closure's `Some` values in order.
   */
  method ZipFilterMap<T>(names: seq<string>, rows: seq<RawRow>, cursor: nat,
                         f: (string, RawRow) -> Option<T>)
    returns (collected: seq<T>, next: nat)
    requires cursor <= |rows|
    ensures next == cursor + Min(|names|, |rows| - cursor) <= |rows|
    ensures collected == Somes(ZipOutcomes(names, rows[cursor..], f))
  {
    ghost var outcomes := ZipOutcomes(names, rows[cursor..], f);
    collected, next := [], cursor;
    var i := 0;
    while i < |names| && next < |rows|
      invariant i <= |names| && next == cursor + i <= |rows|
      invariant i <= |outcomes|
      invariant collected == Somes(outcomes[..i])
    {
      assert outcomes[i] == f(names[i], rows[next]);
      assert outcomes[..i + 1][..i] == outcomes[..i];
      var outcome := f(names[i], rows[next]);
      if outcome.Some? {
        collected := collected + [outcome.value];
      }
      i, next := i + 1, next + 1;
    }
    assert outcomes[..i] == outcomes;
  }

  /**
   * The body of `HiscorePlayer::load` after the rows are fetched: the skill
   * phase and the minigame phase share one row cursor, with the delimiter rows
   * skipped in between. `skip` is lazy: its first `next`, which comes only
   * after the minigame `zip` has taken a name, passes over the delimiter rows,
   * or over all the rows left when there are fewer. `consumed` is where the
   * cursor ends; rows after it are never looked at.
   */
  method LoadRows(skillNames: seq<string>, minigameNames: seq<string>, delimiterLen: nat,
                  rows: seq<RawRow>)
    returns (player: Player, consumed: nat)
    ensures player == Translate(skillNames, minigameNames, delimiterLen, rows)
    ensures consumed == RowsConsumed(skillNames, minigameNames, delimiterLen, rows) <= |rows|
  {
    var skills, cursor := ZipFilterMap(skillNames, rows, 0, SkillOf);
    assert rows[0..] == rows;
    assert skills == Somes(SkillOutcomes(skillNames, rows));
    if |minigameNames| > 0 {
      cursor := Min(cursor + delimiterLen, |rows|);
      assert cursor == MinigamesStart(skillNames, delimiterLen, rows);
    }
    var minigames;
    minigames, consumed := ZipFilterMap(minigameNames, rows, cursor, MinigameOf);
    assert minigames == Somes(MinigameOutcomes(skillNames, minigameNames, delimiterLen, rows));
    player := Player(skills, minigames);
  }

  /**
   * Every emitted skill comes from one of the first `min(|skillNames|, |rows|)`
   * rows, named by the catalog entry at that row's position, with `rank`,
   * `level` and `xp` equal to the row's `rank`, `score` and `xp`; and the
   * source positions strictly increase, so the emitted names are an in-order
   * subsequence of the catalog.
   */
  lemma {:induction false} SkillsFromTheirRows(skillNames: seq<string>, minigameNames: seq<string>,
                                               delimiterLen: nat, rows: seq<RawRow>)
    ensures var skills := Translate(skillNames, minigameNames, delimiterLen, rows).skills;
            var from := Kept(SkillOutcomes(skillNames, rows));
            && |from| == |skills|
            && (forall k :: 0 <= k < |skills| ==>
                  && from[k] < Min(|skillNames|, |rows|)
                  && HasSkillData(rows[from[k]])
                  && skills[k] == Skill(skillNames[from[k]], rows[from[k]].rank,
                                        rows[from[k]].score, rows[from[k]].xp.value))
            && (forall k, l :: 0 <= k < l < |skills| ==> from[k] < from[l])
  {
    var o := SkillOutcomes(skillNames, rows);
    KeptCharacterises(o);
  }

  /**
   * A skill row leaves no entry exactly when it lacks data (a negative rank or
   * level, or a missing or negative xp); the skill count is at most
   * `min(|skillNames|, |rows|)` and falls short of it by exactly the number of
   * dropped rows.
   */
  lemma {:induction false} SkillDroppedExactlyWhenMissing(skillNames: seq<string>, minigameNames: seq<string>,
                                                          delimiterLen: nat, rows: seq<RawRow>)
    ensures var o := SkillOutcomes(skillNames, rows);
            && (forall i :: 0 <= i < Min(|skillNames|, |rows|) ==>
                  (i in Kept(o) <==> HasSkillData(rows[i])))
            && |Translate(skillNames, minigameNames, delimiterLen, rows).skills|
               == Min(|skillNames|, |rows|) - Nones(o)
            && (forall i :: 0 <= i < Min(|skillNames|, |rows|) ==>
                  (o[i].None? <==> !HasSkillData(rows[i])))
  {
    KeptCharacterises(SkillOutcomes(skillNames, rows));
  }

  /**
   * A skill row with data at position `i` becomes the skill at position
   * `i - dropped`, where `dropped` counts the skill rows without data before it.
   */
  lemma {:induction false} SkillShiftedIndex(skillNames: seq<string>, minigameNames: seq<string>,
                                             delimiterLen: nat, rows: seq<RawRow>, i: nat)
    requires i < |skillNames| && i < |rows| && HasSkillData(rows[i])
    ensures var skills := Translate(skillNames, minigameNames, delimiterLen, rows).skills;
            var dropped := Nones(SkillOutcomes(skillNames, rows)[..i]);
            && i - dropped < |skills|
            && skills[i - dropped] == Skill(skillNames[i], rows[i].rank, rows[i].score, rows[i].xp.value)
  {
    ShiftedIndex(SkillOutcomes(skillNames, rows), i);
  }

  /**
   * When no skill row lacks data, the i-th skill matches the i-th row, which is
   * the pairing `test_hiscore_response_parse` checks.
   */
  lemma {:induction false} SkillsAlignWhenNoneMissing(skillNames: seq<string>, minigameNames: seq<string>,
                                                      delimiterLen: nat, rows: seq<RawRow>)
    requires forall i :: 0 <= i < Min(|skillNames|, |rows|) ==> HasSkillData(rows[i])
    ensures var skills := Translate(skillNames, minigameNames, delimiterLen, rows).skills;
            && |skills| == Min(|skillNames|, |rows|)
            && forall i :: 0 <= i < |skills| ==>
                 skills[i] == Skill(skillNames[i], rows[i].rank, rows[i].score, rows[i].xp.value)
  {
    var o := SkillOutcomes(skillNames, rows);
    assert Nones(o) == 0 by { AllSomeNoNones(o); }
    NoNonesKeepsPositions(o);
  }

  /**
   * Every emitted minigame comes from a row at or after index
   * `|skillNames| + delimiterLen`, never earlier, and inside the minigame
   * section; it is named by the catalog entry at its offset in that section,
   * its `rank` and `score` are that row's, and the minigames keep catalog order.
   */
  lemma {:induction false} MinigamesFromTheirRows(skillNames: seq<string>, minigameNames: seq<string>,
                                                  delimiterLen: nat, rows: seq<RawRow>)
    ensures var minigames := Translate(skillNames, minigameNames, delimiterLen, rows).minigames;
            var from := Kept(MinigameOutcomes(skillNames, minigameNames, delimiterLen, rows));
            var base := |skillNames| + delimiterLen;
            && |from| == |minigames|
            && (forall k :: 0 <= k < |minigames| ==>
                  && from[k] < |minigameNames|
                  && base + from[k] < |rows|
                  && HasMinigameData(rows[base + from[k]])
                  && minigames[k] == Minigame(minigameNames[from[k]], rows[base + from[k]].rank,
                                              rows[base + from[k]].score))
            && (forall k, l :: 0 <= k < l < |minigames| ==> from[k] < from[l])
  {
    var o := MinigameOutcomes(skillNames, minigameNames, delimiterLen, rows);
    KeptCharacterises(o);
    var start := MinigamesStart(skillNames, delimiterLen, rows);
    assert o != [] ==> start == |skillNames| + delimiterLen;
  }

  /**
   * A minigame row leaves no entry exactly when its rank or score is negative
   * (its xp plays no part), and the minigame count falls short of the rows
   * zipped by exactly the number of dropped rows.
   */
  lemma {:induction false} MinigameDroppedExactlyWhenMissing(skillNames: seq<string>, minigameNames: seq<string>,
                                                             delimiterLen: nat, rows: seq<RawRow>)
    requires |rows| >= |skillNames| + delimiterLen
    ensures var o := MinigameOutcomes(skillNames, minigameNames, delimiterLen, rows);
            var base := |skillNames| + delimiterLen;
            var zipped := Min(|minigameNames|, |rows| - base);
            && |o| == zipped
            && (forall i :: 0 <= i < zipped ==> (i in Kept(o) <==> HasMinigameData(rows[base + i])))
            && |Translate(skillNames, minigameNames, delimiterLen, rows).minigames| == zipped - Nones(o)
  {
    assert MinigamesStart(skillNames, delimiterLen, rows) == |skillNames| + delimiterLen;
    KeptCharacterises(MinigameOutcomes(skillNames, minigameNames, delimiterLen, rows));
  }

  /**
   * The pairing `test_hiscore_response_parse` checks, `parsed_minigames[i - skipped]`: the minigame row
   * at offset `i` of the minigame section, if it has data, becomes the minigame
   * at position `i - skipped`, where `skipped` counts the minigame rows without
   * data before it.
   */
  lemma {:induction false} MinigameShiftedIndex(skillNames: seq<string>, minigameNames: seq<string>,
                                                delimiterLen: nat, rows: seq<RawRow>, i: nat)
    requires i < |minigameNames| && |skillNames| + delimiterLen + i < |rows|
    requires HasMinigameData(rows[|skillNames| + delimiterLen + i])
    ensures var minigames := Translate(skillNames, minigameNames, delimiterLen, rows).minigames;
            var skipped := Nones(MinigameOutcomes(skillNames, minigameNames, delimiterLen, rows)[..i]);
            var row := rows[|skillNames| + delimiterLen + i];
            && i - skipped < |minigames|
            && minigames[i - skipped] == Minigame(minigameNames[i], row.rank, row.score)
  {
    ShiftedIndex(MinigameOutcomes(skillNames, minigameNames, delimiterLen, rows), i);
  }

  /**
   * The delimiter rows, and every row past the minigame section, never affect
   * the record: two row lists of one length that agree on the skill rows and
   * the minigame rows translate to the same player.
   */
  lemma {:induction false} UnmappedRowsIgnored(skillNames: seq<string>, minigameNames: seq<string>,
                                               delimiterLen: nat, rows: seq<RawRow>, rows': seq<RawRow>)
    requires |rows| == |rows'|
    requires forall i :: 0 <= i < |rows| && i < |skillNames| ==> rows[i] == rows'[i]
    requires forall i :: |skillNames| + delimiterLen <= i < |rows| && i < |skillNames| + delimiterLen + |minigameNames|
               ==> rows[i] == rows'[i]
    ensures Translate(skillNames, minigameNames, delimiterLen, rows)
            == Translate(skillNames, minigameNames, delimiterLen, rows')
  {
    var so := SkillOutcomes(skillNames, rows);
    var so' := SkillOutcomes(skillNames, rows');
    forall i | 0 <= i < |so|
      ensures so[i] == so'[i]
    {
      assert rows[i] == rows'[i];
    }
    assert so == so';
    var start := MinigamesStart(skillNames, delimiterLen, rows);
    assert start == MinigamesStart(skillNames, delimiterLen, rows');
    var o := MinigameOutcomes(skillNames, minigameNames, delimiterLen, rows);
    var o' := MinigameOutcomes(skillNames, minigameNames, delimiterLen, rows');
    forall i | 0 <= i < |o|
      ensures o[i] == o'[i]
    {
      assert start == |skillNames| + delimiterLen;
      assert rows[start + i] == rows'[start + i];
    }
    assert o == o';
  }

  /**
   * Rows appended after a complete response (skill rows, delimiter rows and
   * minigame rows all present) are silently ignored.
   */
  lemma {:induction false} TrailingRowsIgnored(skillNames: seq<string>, minigameNames: seq<string>,
                                               delimiterLen: nat, rows: seq<RawRow>, extra: seq<RawRow>)
    requires |rows| >= |skillNames| + delimiterLen + |minigameNames|
    ensures Translate(skillNames, minigameNames, delimiterLen, rows + extra)
            == Translate(skillNames, minigameNames, delimiterLen, rows)
  {
    var all := rows + extra;
    assert forall i :: 0 <= i < |rows| ==> all[i] == rows[i];
    assert SkillOutcomes(skillNames, all) == SkillOutcomes(skillNames, rows);
    var start := |skillNames| + delimiterLen;
    assert MinigamesStart(skillNames, delimiterLen, all) == start == MinigamesStart(skillNames, delimiterLen, rows);
    assert MinigameOutcomes(skillNames, minigameNames, delimiterLen, all)
        == MinigameOutcomes(skillNames, minigameNames, delimiterLen, rows);
  }

  /**
   * `load` leaves the row iterator empty exactly when the response has no more
   * rows than the catalogs account for (the skills, and, when there is a
   * minigame, the delimiter and the minigames); with more, the surplus is never
   * read.
   */
  lemma RowsExhaustedExactlyWhenNoSurplus(skillNames: seq<string>, minigameNames: seq<string>,
                                          delimiterLen: nat, rows: seq<RawRow>)
    ensures RowsConsumed(skillNames, minigameNames, delimiterLen, rows) == |rows|
            <==> |rows| <= RowsAccountedFor(skillNames, minigameNames, delimiterLen)
    ensures RowsConsumed(skillNames, minigameNames, delimiterLen, rows)
            == Min(|rows|, RowsAccountedFor(skillNames, minigameNames, delimiterLen))
  {
  }

  /**
   * With no minigame name the lazy `skip` is never polled: after one skill row
   * the delimiter row is still in the iterator.
   */
  lemma LazySkipWithoutMinigames(r0: RawRow, r1: RawRow)
    ensures RowsConsumed(["A"], [], 1, [r0, r1]) == 1
  {
  }

  /** With the live catalogs a response is used up exactly when it has at most 85 rows. */
  lemma LiveRowsExhaustedExactlyWhenNoSurplus(rows: seq<RawRow>)
    ensures RowsConsumed(SKILLS, MINIGAMES, DELIMITER_LEN, rows) == |rows| <==> |rows| <= 85
  {
    RowsExhaustedExactlyWhenNoSurplus(SKILLS, MINIGAMES, DELIMITER_LEN, rows);
  }

  /** The live catalogs: 24 skills, 58 minigames, 85 rows in a full response. */
  lemma CatalogSizes()
    ensures |SKILLS| == 24 && |MINIGAMES| == 58
    ensures |SKILLS| + DELIMITER_LEN + |MINIGAMES| == 85
  {
  }

  /**
   * A worked example: skills `["A", "B"]`, minigames `["X"]`, one delimiter
   * row; the second row lacks data and the third is the delimiter.
   */
  lemma ScenarioMissingRowAndDelimiter()
    ensures Translate(["A", "B"], ["X"], 1,
                      [RawRow(1, 2, Some(3)), RawRow(-1, -1, Some(-1)), RawRow(9, 9, Some(9)), RawRow(5, 6, None)])
            == Player([Skill("A", 1, 2, 3)], [Minigame("X", 5, 6)])
  {
  }

  /** `ApiResult<Vec<RawRow>>`. */
  type ApiResult<T> = Result<T, ApiError>

  /**
   * `collect::<Result<Vec<RawHiscoreRow>, _>>()`: all rows in order when every
   * row parsed, otherwise the error of the first row that did not.
   */
  function CollectRows(parsed: seq<Result<RawRow, CsvError>>): (r: Result<seq<RawRow>, CsvError>)
    ensures r.Success? <==> forall i :: 0 <= i < |parsed| ==> parsed[i].Success?
    ensures r.Success? ==> |r.value| == |parsed|
                           && forall i :: 0 <= i < |parsed| ==> parsed[i] == Success(r.value[i])
    ensures r.Failure? ==> exists i :: 0 <= i < |parsed| && parsed[i] == Failure(r.error)
                                       && forall j :: 0 <= j < i ==> parsed[j].Success?
  {
    if parsed == [] then Success([])
    else match parsed[0]
      case Failure(e) => Failure(e)
      case Success(row) =>
        var rest := CollectRows(parsed[1..]);
        assert forall i :: 1 <= i < |parsed| ==> parsed[i] == parsed[1..][i - 1];
        match rest
        case Success(rows) => Success([row] + rows)
        case Failure(e) =>
          var k :| 0 <= k < |parsed[1..]| && parsed[1..][k] == Failure(e)
                   && forall j :: 0 <= j < k ==> parsed[1..][j].Success?;
          assert parsed[k + 1] == Failure(e);
          Failure(e)
  }

  /**
   * `load_hiscore_rows` once the HTTP exchange is over. `response` is the
   * outcome of the request (the body, or the reqwest error of a failed
   * connection or a non-success status); `readCsv` is the csv reader's
   * per-row deserialization of a body.
   */
  function LoadHiscoreRows(response: Result<string, ReqwestError>,
                           readCsv: string -> seq<Result<RawRow, CsvError>>): (r: ApiResult<seq<RawRow>>)
    ensures response.Failure? ==> r == Failure(Reqwest(response.error))
    ensures r.Success? ==> response.Success? && CollectRows(readCsv(response.value)) == Success(r.value)
    ensures r.Success? <==> response.Success? && forall i :: 0 <= i < |readCsv(response.value)| ==>
                                                  readCsv(response.value)[i].Success?
    ensures r.Failure? && response.Success? ==>
              r.error.Csv? && CollectRows(readCsv(response.value)) == Failure(r.error.csvSource)
  {
    match response
    case Failure(e) => Failure(Reqwest(e))
    case Success(body) =>
      match CollectRows(readCsv(body))
      case Failure(e) => Failure(Csv(e))
      case Success(rows) => Success(rows)
  }

  /**
   * `HiscorePlayer::load`: propagate a fetch or parse error unchanged,
   * otherwise translate the rows against the live catalogs.
   */
  method Load(response: Result<string, ReqwestError>,
              readCsv: string -> seq<Result<RawRow, CsvError>>)
    returns (r: ApiResult<Player>)
    ensures r.Failure? <==> LoadHiscoreRows(response, readCsv).Failure?
    ensures r.Failure? ==> r.error == LoadHiscoreRows(response, readCsv).error
    ensures r.Success? ==> r.value == Translate(SKILLS, MINIGAMES, DELIMITER_LEN,
                                                LoadHiscoreRows(response, readCsv).value)
  {
    var rows :- LoadHiscoreRows(response, readCsv);
    var player, _ := LoadRows(SKILLS, MINIGAMES, DELIMITER_LEN, rows);
    r := Success(player);
  }

  /**
   * An upstream failure carrying a status Rocket recognises (a 404, say)
   * reaches the caller as that same status, and no row is parsed.
   */
  lemma UpstreamStatusForwarded(code: U16, readCsv: string -> seq<Result<RawRow, CsvError>>, known: set<U16>)
    requires code in known
    ensures var r := LoadHiscoreRows(Failure(ReqwestError(Some(code))), readCsv);
            && r == Failure(Reqwest(ReqwestError(Some(code))))
            && ToStatus(r.error, known).code == code
  {
  }

  /**
   * One row that fails to parse makes the whole response a CSV error, and so a
   * 500 logged at `Error`, however many rows before it parsed.
   */
  lemma MalformedRowIsServerError(body: string, readCsv: string -> seq<Result<RawRow, CsvError>>,
                                                     known: set<U16>, i: nat)
    requires i < |readCsv(body)| && readCsv(body)[i].Failure?
    ensures var r := LoadHiscoreRows(Success(body), readCsv);
            && r.Failure? && r.error.Csv?
            && ToStatus(r.error, known) == INTERNAL_SERVER_ERROR
            && LogLevel(r.error, known) == Level.Error
  {
  }
}
