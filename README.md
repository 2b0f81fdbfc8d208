# nSimon game logic in Dafny

A model of the game-logic core of nSimon, a terminal Simon game (`nsimon.c`).

The game keeps a *memory chain* in the fixed array `int memchain[1024]`. The value 0 is the
sentinel "no colour" and 1–4 are the four colours. Each round, `add_mem_link` stores one
random colour at index `score`. `simon_says` then plays the chain back up to the first
sentinel: each link is one highlighted frame followed by one cleared frame. Next, the
`for` loop of `main` reads one key per link and stops at the first key whose value
`key - '0'` differs from the link. When every key matches, the score goes up by one. After a
wrong key, the player presses one more key: `q` quits, and any other key calls
`reset_game`, which clears the first 256 entries of the chain (`memset` of `MEMCHAIN_LEN`
bytes, nsimon.c:236) and sets the score to 0.

The project has five modules:

- `Colors` (`colors.dfy`) models `get_random_color`, with the `rand()` value passed in as a
  parameter. It also has the `getch() - '0'` key arithmetic.
- `Board` (`board.dfy`) models the quadrant origins of `draw_game_board` and the rectangle
  each `draw_quadrant` fills.
- `Chain` (`chain.dfy`) describes the chain as a value (`seq<int>`). It holds the chain
  invariant `ChainOf`, the weaker between-rounds invariant `ChainPrefix`, the byte-counting
  `memset` (`ClearBytes`), the first-sentinel index where playback stops (`SentinelIndex`),
  the highlight/clear frames (`Flash`) and the early-exit key comparison (`Validate`,
  characterised by `Explains`).
- `Rounds` (`rounds.dfy`) has one iteration of `main`'s `while(1)` loop (`RoundSpec`), the
  loop itself (`RunSpec`) and the whole of `main` (`SessionSpec`). These are pure functions,
  and lemmas state what each outcome does to the chain and the score.
- `Game` (`game.dfy`) has the class `SimonGame`, which holds the `memchain` array and the
  score. Its methods update them in place the way the C functions do. Each method is proved
  equal to the matching function above.

Outside inputs become parameters:

- `rand()` results are non-negative integers: `r` for one round, `rands` for a session.
- The keys `getch` returns are a scripted `seq<int>` of key codes. When the script runs
  out, the game ends as `Blocked`/`Waiting`, because `getch` would wait there.
- Rendering is the sequence of highlight values passed to each `draw_screen` call, with 0
  meaning no highlight.

Two points of the code shape the model:

- `reset_game` is meant to reset the game by setting the score and the chain to 0
  (the comment at nsimon.c:41). Its `memset(memchain, 0, MEMCHAIN_LEN)` counts bytes,
  though, so it clears `MEMCHAIN_LEN / sizeof(int)` = 256 entries with 4-byte `int`, not
  the whole chain. The model follows the code; see "## Findings".
- Neither `add_mem_link` nor `simon_says` checks its index. The model states the bounds
  as preconditions: `score < MEMCHAIN_LEN` for `AddMemLink`, a sentinel inside the array
  for `SimonSays`, and `score + 1 < MEMCHAIN_LEN` for `Round`. A run of rounds needs no
  bound on its length: it ends as `Overrun` when a round would start at score
  `MEMCHAIN_LEN - 1`, where the array holds no sentinel after the new link and playback
  would read past it.

## Model

| member | source | states |
|---|---|---|
| `Colors.RandomColor` | nsimon.c:227-230 | for every non-negative `rand()` value the colour is in 1..4, never the sentinel, and congruent to the value plus one modulo 4 |
| `Colors.RandomColorOnto` | nsimon.c:227-230 | every colour 1..4 is produced by some `rand()` value |
| `Colors.RandomColorUniform` | nsimon.c:227-230 | any four consecutive `rand()` values give the four colours once each, and the map has period 4 |
| `Colors.KeyValue` | nsimon.c:89-90 | `getch() - '0'` is a colour exactly for the digit keys `'1'..'4'`, and the sentinel exactly for `'0'` |
| `Colors.KeyMatches` | nsimon.c:93 | a key passes the `keyp != memchain[i]` test for a real colour only if it is a digit key `'1'..'4'`; the key `'0'` passes only against the sentinel |
| `Colors.OnlyColorKeysMatch` | nsimon.c:90-93 | against a real colour only the digit key `'0' + colour` matches; `'0'` and any key outside `'1'..'4'` never match |
| `Board.QuadrantOrigin` | nsimon.c:170-173 | quadrant i sits in grid column (i-1) mod 2 and row (i-1) div 2: its origin is offset by that many quadrant widths and heights from the board origin |
| `Board.QuadrantAt` | nsimon.c:152-180 | every cell of the 2x2 board lies in a quadrant 1..4, and this function names it |
| `Board.QuadrantOriginsDistinct` | nsimon.c:167-173 | the four quadrant origins are pairwise distinct |
| `Board.QuadrantsTile` | nsimon.c:152-180 | the four drawn rectangles tile the board: a cell on the board lies in exactly one quadrant, and a cell off it lies in none |
| `Chain.AddLinkExtends` | nsimon.c:221-224 | writing a colour at index n turns a chain of n links into one of n+1 links and changes no other entry |
| `Chain.AddLinkKeepsPrefix` | nsimon.c:221-224 | the same write keeps the between-rounds invariant while a sentinel remains in the last slot |
| `Chain.ClearBytes` | nsimon.c:236 | `memset` of n bytes, defined as zeroing each int entry whose bytes all lie in the first n bytes, zeroes exactly the first n / sizeof(int) entries and keeps the others; the write stays inside the array and covers whole entries |
| `Chain.ResetRestoresShortChain` | nsimon.c:233-237 | the reset as written empties a chain of at most 256 links |
| `Chain.ResetLeavesStaleLinks` | nsimon.c:236 | on a chain of more than 256 links the reset as written keeps links 256 and up, so the chain is not empty |
| `Chain.StalePlaybackShowsOldLinks` | nsimon.c:236 | after such a reset, once 256 links are rebuilt, playback runs past them into the old links |
| `Chain.ResetKeepsPrefix` | nsimon.c:236 | the partial reset still leaves every slot a colour or the sentinel, with the last slot the sentinel |
| `Chain.FullResetRestoresChain` | nsimon.c:236 | clearing sizeof(memchain) bytes empties any 1024-entry array |
| `Chain.SentinelIndex` | nsimon.c:208 | the playback walk stops at the first sentinel: every earlier entry is a link |
| `Chain.SentinelEndsChain` | nsimon.c:205-218 | on a proper chain of n links, playback visits exactly n links |
| `Chain.SentinelAfterPrefix` | nsimon.c:208 | in the between-rounds state playback visits at least the counted links and stops inside the array |
| `Chain.Flash` | nsimon.c:208-217 | playback draws exactly two frames per link |
| `Chain.FlashAt` | nsimon.c:208-217 | frame 2k of the playback frames is link k and frame 2k+1 is the cleared board |
| `Chain.FlashAlternates` | nsimon.c:213-215 | over real colours, highlights fall on exactly the even frames, so no two highlights are adjacent even for repeated colours |
| `Chain.ExplainsUnique` | nsimon.c:84-109 | the early-exit comparison has a single outcome for given links and keys |
| `Chain.ValidateFrom` | nsimon.c:84-116 | starting from a matched prefix, the comparison stops at the first wrong or missing key, and every key before that point matched its link |
| `Chain.Validate` | nsimon.c:84-116 | the comparison reads at most one key per link, never more keys than exist, stops at the first mismatch, and every earlier key matched |
| `Chain.ValidateAllMatched` | nsimon.c:84-116 | the comparison succeeds if and only if enough keys exist and each one reproduces its link |
| `Chain.ValidateRejectsNonColorKeys` | nsimon.c:90-93 | a key outside `'1'..'4'` after a matched prefix stops the comparison at that position |
| `Rounds.RoundSpec` | nsimon.c:77-125 | a round reads no more keys than exist, never raises the score by more than one, and draws the playback of the links up to the first sentinel before anything else |
| `Rounds.ConcludeSpec` | nsimon.c:93-124 | the end of a round reads no more keys than exist and raises the score by at most one |
| `Rounds.RoundKeepsPrefix` | nsimon.c:77-125 | every round keeps the between-rounds invariant, including a reset that leaves old links behind |
| `Rounds.RoundSuccess` | nsimon.c:118-123 | a round succeeds if and only if all score+1 keys match; then the score rises by exactly one and only index `score` of the chain changed |
| `Rounds.RoundQuit` | nsimon.c:95-102 | a mismatch at link `at` followed by `q` quits after reading at+2 keys, with the score unchanged |
| `Rounds.RoundRestart` | nsimon.c:103-108 | a mismatch followed by another key sets the score to 0 and clears exactly the first 256 entries; a chain of at most 256 links is then empty |
| `Rounds.RoundPlaysWholeChain` | nsimon.c:80-81 | on a proper chain, the round first shows exactly score+1 highlight/clear pairs, in index order |
| `Rounds.RoundKeepsChain` | nsimon.c:77-125 | success, or a restart from fewer than 256 links, keeps the chain invariant; quit and block leave the new link uncounted |
| `Rounds.FixedResetRoundKeepsChain` | nsimon.c:77-125 | with the reset corrected to clear sizeof(memchain) bytes, a round at any score that succeeds or restarts ends with the chain invariant; quit and block leave the new link uncounted |
| `Rounds.RunSpec` | nsimon.c:77-125 | any number of rounds keeps the array size and the score inside the array, the score rises by at most one per injected `rand()` value, and a run stops as `Overrun` only at score 1023 |
| `Rounds.RunKeepsPrefix` | nsimon.c:77-125 | any number of rounds keeps the between-rounds invariant |
| `Rounds.RunOverrunFillsArray` | nsimon.c:77-81 | when a run stops as `Overrun`, adding the next link would leave no sentinel in the array, so the `simon_says` walk would pass its end |
| `Rounds.StaleRoundShowsOldLink` | nsimon.c:77-125 | after a reset of a chain of more than 256 links and 255 rebuilt links, the next round plays old link 256 as its 257th highlight, yet is won on the first 256 keys alone |
| `Rounds.SessionSpec` | nsimon.c:72-125 | a session of any length from the start prompt keeps the array size, with a score inside the array and at most the number of injected `rand()` values |
| `Rounds.SessionKeepsPrefix` | nsimon.c:53-125 | a session of any length from the all-zero chain keeps the between-rounds invariant |
| `Rounds.RunKeepsChain` | nsimon.c:77-125 | when the score plus the rounds still to play is at most 256 (the entries the reset clears), the run ends with the chain invariant and never overruns |
| `Rounds.RunKeepsChainWhileResetsShort` | nsimon.c:77-125 | any number of rounds keeps the chain invariant as long as every reset happens below score 256; quit and block leave the new link uncounted |
| `Rounds.ShortSessionKeepsChain` | nsimon.c:53-125 | a session of at most 256 rounds from the all-zero chain never breaks the chain invariant and never overruns |
| `Game.SimonGame.constructor` | nsimon.c:53-56 | the game starts with an all-sentinel chain of 1024 entries and score 0 |
| `Game.SimonGame.AddMemLink` | nsimon.c:221-224 | the new array is the old one with the random colour at index `score` and nothing else changed; the index must be in bounds |
| `Game.SimonGame.SimonSays` | nsimon.c:205-218 | playback visits the links up to the first sentinel and draws exactly one highlight and one clear frame for each |
| `Game.SimonGame.CheckKeys` | nsimon.c:84-116 | the loop's outcome is the early-exit comparison of the keys against links 0..score, with one feedback flash per matched key |
| `Game.SimonGame.ResetGame` | nsimon.c:233-240 | the array loses its first MEMCHAIN_LEN bytes' worth of entries and the score becomes 0 |
| `Game.SimonGame.ResetGameFixed` | nsimon.c:236 | clearing sizeof(memchain) bytes leaves an empty chain at score 0 |
| `Game.SimonGame.Round` | nsimon.c:77-125 | one in-place round produces the result, keys read, frames, new chain and score of `RoundSpec`, and keeps the between-rounds invariant |
| `Game.SimonGame.Conclude` | nsimon.c:93-124 | the in-place end of a round (count it, or quit or reset after a wrong key) matches `ConcludeSpec` |
| `Game.SimonGame.RunRounds` | nsimon.c:77-125 | the in-place `while(1)` loop, for any number of rounds, produces the ending, frames, chain and score of `RunSpec` and keeps the between-rounds invariant |
| `Game.SimonGame.Play` | nsimon.c:72-125 | the in-place `main`, for a session of any length, produces the ending, frames, chain and score of `SessionSpec` and keeps the between-rounds invariant |

## Left out

- ncurses setup, drawing, text and messages (`init_ncurses`, `draw_quadrant`'s output, `draw_screen`, `exit_game`). This is terminal output. Frames keep only the highlight value of each `draw_screen` call.
- Board and message centering from `getmaxyx` and `strlen`. It depends on the terminal size and is presentation only.
- `XSLEEP` delays. They only affect timing.
- `flushinp`. A scripted key is taken to be the key read after the flush, so stale keys are not modelled.
- `srand(time(0))`/`rand()`. These are library calls with hidden state, so their results are injected as parameters. Uniformity is shown only modulo 4.
- `sizeof(int)` is fixed at 4. It is platform-dependent; with other sizes the reset clears `MEMCHAIN_LEN / sizeof(int)` entries just the same.
- Rounds.RunSpec (with `Rounds.SessionSpec`, `Game.SimonGame.RunRounds` and `Game.SimonGame.Play`): stops as `Overrun` instead of playing a round at score 1023. There `add_mem_link` fills the last sentinel and `simon_says` reads `memchain[1024]`, which is undefined behaviour in C, so what the program does from then on is not modelled.
- Game.SimonGame.Round: runs out of keys as `Blocked` instead of waiting for ever in `getch`.

## Findings

| source | as written | input that shows it | evidently intended | confidence | as-written member | corrected member |
|---|---|---|---|---|---|---|
| nsimon.c:236 | `memset(memchain, 0, MEMCHAIN_LEN)` clears 1024 bytes, only the first 256 `int` entries | lose after a chain of 257 links (score 256) and retry: entry 256 keeps its colour, and once 256 links are rebuilt playback shows at least 257 links while the round asks for 256 keys | clear `sizeof(memchain)` bytes, so every entry becomes the sentinel | high (not executed) | `Rounds.StaleRoundShowsOldLink` | `Game.SimonGame.ResetGameFixed` |

`Game.SimonGame.Round` and `Game.SimonGame.Play` keep the reset as written, because that is what `main` runs. `Rounds.StaleRoundShowsOldLink` shows the stale links in the round as `main` plays it, from the lemma `Chain.StalePlaybackShowsOldLinks` about the chain alone. `Chain.FullResetRestoresChain` proves that the corrected clear empties the chain for every score, and `Rounds.FixedResetRoundKeepsChain` that with it every round keeps the chain invariant, whatever the score at the reset.
