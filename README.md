# osrs-hiscore-proxy: the hiscore translation layer in Dafny

The proxy fetches a player's Old School RuneScape hiscore as positional CSV rows
(`rank,score[,xp]`, with `-1` meaning "no data") and republishes it as a
`HiscorePlayer` record: a list of skills followed, after a block of three
delimiter rows, by a list of minigames. This model covers:

- `HiscorePlayer::load` (module `Hiscore`). The skill catalog `SKILLS` (24 names),
  the minigame catalog `MINIGAMES` (58 names) and `DELIMITER_LEN = 3` are constants.
  The translation takes the catalogs as parameters, so every lemma holds for any
  catalog. The row iterator that `load` threads through both `zip`s is a cursor
  index. `ZipFilterMap` is the loop over one `zip(&mut rows).filter_map(..)`.
  `LoadRows` runs the skill phase, the `skip(DELIMITER_LEN)` and the minigame
  phase on one cursor.
- `Translate`, the functional description of the same record. The lemmas about it
  cover field provenance, drop rules, catalog order, the shifted-index pairing the
  source's test uses, and the irrelevance of delimiter and trailing rows.
- The all-or-nothing `collect::<Result<Vec<_>, _>>()` in `load_hiscore_rows`, as
  `CollectRows` over the per-row parse outcomes.
- `ApiError` with `to_status`, the log-level choice of `log`, and `respond_to`
  (module `Error`).
- `filter_map(..).collect()` itself, in module `FilterMap`: `Somes` collects the
  `Some` outcomes, `Nones` counts the dropped ones, and `Kept` records where each
  collected value came from.

Rust's `isize` and `usize` are 64-bit subset types (`Isize`, `Usize`). The
conversion `try_into::<usize>()` fails exactly on negative values. Rocket's
`Status::from_code` is given by the set of codes Rocket recognises (`known`). It
returns a status with the same code for those codes and nothing for the rest.

The code and the test disagree on one point, and the model follows the code.
The test at `src/hiscore.rs:281` treats a minigame row as missing when its rank
is `-1`. The code at `src/hiscore.rs:157-158` drops a minigame row when its rank
**or** its score is negative.

## Model

| member | source | states |
|---|---|---|
| `FilterMap.Somes` | src/hiscore.rs:143-144 | collecting the `filter_map` outcomes never yields more values than there were outcomes |
| `FilterMap.KeptCharacterises` | src/hiscore.rs:130-144 | the k-th collected value is the `Some` outcome at position `Kept[k]`; positions strictly increase; a position is kept exactly when its outcome is `Some`; the collection is shorter than the outcomes by exactly the number of `None`s |
| `FilterMap.ShiftedIndex` | src/hiscore.rs:276-295 | a `Some` outcome at position `i` is collected at position `i - skipped`, where `skipped` counts the `None`s before it |
| `FilterMap.NoNonesKeepsPositions` | src/hiscore.rs:252-270 | with no `None` outcome, every value keeps its own position and nothing is lost |
| `FilterMap.PrefixCollectsPrefix` | src/hiscore.rs:130-144 | collecting a prefix of the outcomes yields a prefix of the collection, and a prefix of the kept positions |
| `Error.FromCode` | src/error.rs:45 | Rocket's `from_code` gives a status exactly for recognised codes, and that status carries the same code |
| `Error.ToStatus` | src/error.rs:36-50 | a `Csv` error is 500; a `Reqwest` error with an upstream status Rocket recognises gets that status; with no status, or an unrecognised one, it is 500 |
| `Error.LogLevel` | src/error.rs:53-58 | the level is `Error` exactly when the status code is at least 500, and `Debug` exactly when it is below 500 |
| `Error.CsvLogsAtError` | src/error.rs:54-58 | every `Csv` error is logged at `Error` |
| `Error.ForwardedClientErrorLogsAtDebug` | src/error.rs:42-58 | a recognised upstream status below 500 is forwarded unchanged and logged at `Debug` |
| `Error.RespondTo` | src/error.rs:72-78 | the response is never a success; it is an error carrying `to_status()`; its code is 500 or the upstream's own status; it is logged at `Error` exactly when that code is at least 500 |
| `Hiscore.TryIntoUsize` | src/hiscore.rs:139-141 | converting an `isize` to `usize` succeeds exactly for non-negative values and keeps the value |
| `Hiscore.SkillOf` | src/hiscore.rs:133-143 | a skill row yields a skill exactly when rank, level and xp are non-negative and xp is present; the skill's rank, level and xp are the row's rank, score and xp |
| `Hiscore.MinigameOf` | src/hiscore.rs:151-160 | a minigame row yields a minigame exactly when rank and score are non-negative (xp plays no part); the minigame's rank and score are the row's |
| `Hiscore.ZipFilterMap` | src/hiscore.rs:130-161 | one `names.iter().zip(&mut rows).filter_map(f).collect()` from the cursor: it consumes exactly `min(names, rows left)` rows and yields the `Some` outcomes of the zipped pairs, in order |
| `Hiscore.LoadRows` | src/hiscore.rs:126-166 | the skill phase, the lazy `skip(DELIMITER_LEN)` and the minigame phase on one cursor build exactly `Translate` of the rows; the cursor ends where `RowsConsumed` says (the delimiter rows are passed over only once a minigame name is taken), never past the last row |
| `Hiscore.SkillsFromTheirRows` | src/hiscore.rs:130-144 | every skill comes from one of the first `min(|SKILLS|, |rows|)` rows; it carries that position's catalog name and the row's rank, score and xp; source positions strictly increase, so the names are an in-order subsequence of the catalog |
| `Hiscore.SkillDroppedExactlyWhenMissing` | src/hiscore.rs:136-141 | a skill row leaves no entry exactly when its rank or score is negative or its xp is absent or negative; the skill count is `min(|SKILLS|, |rows|)` minus the number of dropped rows |
| `Hiscore.SkillShiftedIndex` | src/hiscore.rs:130-144 | a skill row with data at position `i` becomes the skill at position `i - dropped`, where `dropped` counts the earlier skill rows without data |
| `Hiscore.SkillsAlignWhenNoneMissing` | src/hiscore.rs:252-270 | when every zipped skill row has data, skill `i` has the rank, level and xp of row `i` (the test's pairing) |
| `Hiscore.MinigamesFromTheirRows` | src/hiscore.rs:146-161 | every minigame comes from a row at index `|SKILLS| + DELIMITER_LEN + j`, never earlier, with `j < |MINIGAMES|`; it carries catalog name `j` and the row's rank and score; catalog order is kept |
| `Hiscore.MinigameDroppedExactlyWhenMissing` | src/hiscore.rs:151-159 | once the delimiter is reached, a minigame row is dropped exactly when its rank or score is negative; the minigame count is the number of zipped rows minus the dropped ones |
| `Hiscore.MinigameShiftedIndex` | src/hiscore.rs:276-295 | the minigame row at offset `i` of the minigame section, if it has data, becomes `minigames[i - skipped]` with the same rank and score |
| `Hiscore.UnmappedRowsIgnored` | src/hiscore.rs:146-161 | two row lists of the same length that agree on the skill rows and the minigame rows give the same player, whatever the delimiter rows and the rows past the minigames hold |
| `Hiscore.TrailingRowsIgnored` | src/hiscore.rs:163-166 | once all skill, delimiter and minigame rows are present, appending further rows leaves the player unchanged |
| `Hiscore.RowsExhaustedExactlyWhenNoSurplus` | src/hiscore.rs:146-166 | `load` consumes `min(|rows|, N)` rows, where `N` is `|SKILLS| + DELIMITER_LEN + |MINIGAMES|` when there is a minigame and `|SKILLS|` when there is none (the lazy skip is never polled); the iterator is left empty exactly when the response has at most `N` rows |
| `Hiscore.LazySkipWithoutMinigames` | src/hiscore.rs:146-150 | with an empty minigame catalog the delimiter rows are never pulled: one skill and one delimiter row leave one row unconsumed |
| `Hiscore.LiveRowsExhaustedExactlyWhenNoSurplus` | src/hiscore.rs:163-166 | with the live catalogs `load` uses up the response exactly when it has at most 85 rows |
| `Hiscore.CatalogSizes` | src/hiscore.rs:244-249 | the live catalogs hold 24 skills and 58 minigames, so a full response has 85 rows |
| `Hiscore.ScenarioMissingRowAndDelimiter` | src/hiscore.rs:125-167 | catalogs `[A, B]` / `[X]` with one delimiter row: the row without data is omitted, the delimiter row is skipped, and the minigame comes from the row after it |
| `Hiscore.CollectRows` | src/hiscore.rs:213-223 | the collection succeeds exactly when every row parsed, giving all rows in order; otherwise it is the error of the first row that failed |
| `Hiscore.LoadHiscoreRows` | src/hiscore.rs:200-225 | a failed fetch is passed on as a `Reqwest` error; otherwise the result is the rows, all in order, exactly when every row parsed, and else a `Csv` error |
| `Hiscore.Load` | src/hiscore.rs:125-167 | a fetch or parse error is propagated unchanged; otherwise the player is `Translate` of the rows against `SKILLS`, `MINIGAMES` and `DELIMITER_LEN` |
| `Hiscore.UpstreamStatusForwarded` | src/hiscore.rs:201-209 | an upstream failure with a recognised status (a 404, say) reaches the caller as that status, and no row is parsed |
| `Hiscore.MalformedRowIsServerError` | src/hiscore.rs:211-223 | one row that fails to parse turns the whole response into a `Csv` error, hence a 500 logged at `Error`, however many rows parsed before it |

## Left out

- The outbound HTTP request (client construction, URL, `player` query, User-Agent, `error_for_status`, reading the body) is network I/O. Its outcome is an input to `LoadHiscoreRows` and `Load`: either the body text or a reqwest error with an optional status.
- The csv crate's reader (flexible row width, deserialization into `RawHiscoreRow`, integer overflow on parse) is a foreign library. Its per-row outcomes are given by the parameter `readCsv`.
- async/await and the tokio runtime: each translation is a sequential computation here.
- The live-network test's data: its asserted relations are lemmas (`CatalogSizes`, `SkillsAlignWhenNoneMissing`, `MinigameShiftedIndex`). Whether the live response really has 85 rows is not something a model can state.
- Serde JSON serialization of `HiscorePlayer`, and the `Json` wrapper in `src/main.rs`.
- Log message formatting and backtrace capture in `ApiError::log`: side effects only. The chosen level is modelled by `LogLevel`.
- `src/cors.rs` (two constant response headers) and `src/main.rs` (Rocket launch and route wiring) have no translation logic.
- `Status::from_code`'s exact list of recognised codes belongs to Rocket. It is the parameter `known`.
- `LoadRows`: the consumed row iterator is a sequence with a cursor index. Dropping the iterator afterwards is not modelled.
