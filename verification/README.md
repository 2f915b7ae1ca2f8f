# Portfolio mini-games and audio controller in Dafny

This project models the sequential logic of a React portfolio site. Each
rule is lifted out of its component as a pure step function over an
explicit, immutable state:

- **Arcade Snake** (`src/components/ArcadeZone.tsx`), module `ArcadeZone`.
  It is a 20×20 board with an idle/playing/gameover state machine. One tick
  moves the snake one cell, with wall and self collision, growth on food and
  a high score that survives restarts. A key press commits a heading unless
  it is the reverse of the current one. The food spawner is rejection
  sampling against the snake.
- **Neon Snake** (`src/pages/Games.tsx`, `SnakeGame`), module `NeonSnake`.
  This is the games-page variant. Its heading is a unit vector starting
  upward. Food respawns without checking the snake. Keys still act after a
  crash. A restart resets only the snake, the crash flag and the score.
- **Tic-tac-toe** (`calculateWinner`, `handleClick`), module `TicTacToe`.
  It has the eight winning lines, the player's X, and the page's O reply in
  a randomly chosen empty cell.
- **Memory Matrix** (`handleFlip`), module `MemoryMatrix`. Twelve cards,
  two of each of six icons, are turned over in matching pairs.
- **Game statistics** (`updateStats` and the callbacks given to each game),
  module `GameStats`. Plays, win bonuses and a last-played stamp are kept
  per game id.
- **Audio controller** (`src/context/AudioContext.tsx`), module
  `AudioPlayer`. It covers next/previous over a fixed four-track playlist,
  play/pause, volume, the title lookup, and the effect that swaps the audio
  source on a track change.
- **Clock text** (`formatTime` in `src/components/MusicPlayer.tsx`), module
  `TimeFormat`. It produces `m:ss`, with the integer-to-text conversion and
  `padStart` written out, plus a parser that reads the text back.

Shared pieces live in `Grid` (cells, headings, bounds, and the counting
facts that bound how many cells a snake can occupy) and in `Wrappers`
(`Option`).

Randomness becomes a parameter:
- the food cell a tick would spawn;
- the index of the empty cell the page answers in;
- the shuffled deck.

The arcade spawner is a method whose result is a nondeterministic choice
constrained only by the sampler's exit test. Each timer tick, delayed reply
and effect is one atomic step.

Two details of the arcade game's food placement:

- Starting a game puts the food at the fixed cell (15,10); it is not
  freshly spawned (`ArcadeZone.Reset`, `ArcadeZone.Start`).
- The spawner avoids the pre-move snake, so the new food may land on the
  new head (`ArcadeZone.FoodMayLandOnNewHead`).

Several behaviours of the code are modelled as written and shown by witness
lemmas:

- two quick key presses between ticks can reverse the arcade snake onto its
  neck (`ArcadeZone.QuickTurnHitsNeck`);
- the games-page snake's food can appear on the snake
  (`NeonSnake.FoodMayLandOnSnake`);
- a draw in tic-tac-toe offers no restart (`TicTacToe.DrawIsStuck`);
- losing to the page is still credited as a win
  (`GameStats.LosingIsCreditedAsWin`);
- a launch followed by a win counts two plays
  (`GameStats.LaunchAndWinCountsTwice`);
- wrapping forward to the first track changes the title but leaves the old
  audio source loaded (`AudioPlayer.WrapToFirstKeepsOldSource`).

## Model

| member | source | states |
|---|---|---|
| Grid.Shift | src/components/ArcadeZone.tsx:57-65 | UP is y-1, DOWN is y+1, LEFT is x-1 and RIGHT is x+1. The new head is adjacent to the old one. |
| Grid.Opposite | src/components/ArcadeZone.tsx:122-127 | No heading is its own opposite. |
| Grid.OppositeIsInvolution | src/components/ArcadeZone.tsx:122-127 | The opposites table undoes itself, and each heading is the opposite of exactly one heading. |
| Grid.ShiftOppositeUndoes | src/components/ArcadeZone.tsx:57-65 | A step followed by a step in the opposite heading returns to the starting cell. |
| Grid.FreeCellExists | src/components/ArcadeZone.tsx:28-37 | A snake shorter than the 400-cell board leaves an in-bounds cell off the snake, so the rejection loop has a cell to stop at. |
| Grid.RoomForOneMore | src/components/ArcadeZone.tsx:84-86 | A distinct, in-bounds snake whose next head is a further free in-bounds cell is shorter than the board, so the spawner is called with room left. |
| Grid.Advance | src/components/ArcadeZone.tsx:81-89 | A free, in-bounds head next to the old head, placed in front of the whole snake or of all but its tail, keeps the snake on the board, without overlaps and connected. |
| ArcadeZone.Reset | src/components/ArcadeZone.tsx:39-46 | A reset gives snake [(10,10)], food (15,10), heading RIGHT, score 0 and idle. Only the high score is kept, and the result satisfies the invariant. |
| ArcadeZone.Start | src/components/ArcadeZone.tsx:48-51 | A start is the reset state with playing. The high score is unchanged. |
| ArcadeZone.GenerateFood | src/components/ArcadeZone.tsx:28-37 | The returned cell is on the board and not on the snake the spawner was given. |
| ArcadeZone.Tick | src/components/ArcadeZone.tsx:53-93 | A tick does nothing unless playing. It ends the game exactly when the next head leaves the board or hits a segment, and then the snake, food and score are kept and the high score becomes the maximum. Otherwise the head moves one step along the heading. On food, the whole old snake follows, score rises by 10 and food is the spawned cell. Off food, all but the tail follows and score and food are unchanged. |
| ArcadeZone.TickPreservesValid | src/components/ArcadeZone.tsx:53-93 | From a valid state, a tick keeps these true: the snake is non-empty, on the board, without overlaps and connected; the food is on the board; score is 10 per food eaten; a finished game's score is within the high score. |
| ArcadeZone.GameLoop | src/components/ArcadeZone.tsx:53-93 | The game-loop step is a tick whose food is either the old food or a sampler choice against the pre-move snake, and it keeps the state valid. |
| ArcadeZone.KeyDirection | src/components/ArcadeZone.tsx:108-120 | A key maps to a heading exactly when it is that heading's arrow key or lower-case WASD letter, and every other key is unmapped. |
| ArcadeZone.EveryHeadingHasTwoKeys | src/components/ArcadeZone.tsx:108-117 | Each heading is reached by its arrow key and by its letter, and these are two different keys. |
| ArcadeZone.KeyDown | src/components/ArcadeZone.tsx:104-137 | Only the heading can change. It changes exactly when playing, the key is mapped, and the key's heading is neither the current one nor its reverse. A changed heading comes from the key table and is never the reverse of the old one. |
| ArcadeZone.KeyDownPreservesValid | src/components/ArcadeZone.tsx:104-137 | Key presses keep the state valid. |
| ArcadeZone.RunPreservesValid | src/components/ArcadeZone.tsx:39-137 | Every state reached from a valid state by ticks, keys and starts is valid, as long as every spawned cell is on the board. |
| ArcadeZone.HighScoreNeverDecreases | src/components/ArcadeZone.tsx:70 | Over any sequence of events the high score never falls. |
| ArcadeZone.GameOverIsFrozen | src/components/ArcadeZone.tsx:54 | A finished game stays exactly as it ended under any ticks and key presses until the next start. |
| ArcadeZone.FirstTickMovesRight | src/components/ArcadeZone.tsx:19-21 | From the start position one tick gives snake [(11,10)] with the food and score unchanged. |
| ArcadeZone.EatingGrows | src/components/ArcadeZone.tsx:81-89 | Snake [(14,10)] heading right onto food (15,10) becomes [(15,10),(14,10)] with score 10 and the spawned food. |
| ArcadeZone.WallEndsGame | src/components/ArcadeZone.tsx:68-72 | A head stepping off the left edge ends the game and records max(high score, score). |
| ArcadeZone.BodyEndsGame | src/components/ArcadeZone.tsx:75-79 | An in-bounds head landing on the body ends the game through the self-collision rule. |
| ArcadeZone.FoodMayLandOnNewHead | src/components/ArcadeZone.tsx:84-86 | The sampler's exit test allows the fresh food to land on the new head. |
| ArcadeZone.QuickTurnHitsNeck | src/components/ArcadeZone.tsx:129-132 | Two quick presses between ticks reverse the heading, and the next tick crashes into the neck. |
| NeonSnake.Add | src/pages/Games.tsx:42 | The head step by a unit heading lands on an adjacent cell, and stepping by the reversed heading returns to the old head. |
| NeonSnake.AddIsShift | src/pages/Games.tsx:42 | Adding a heading vector is the shared grid step, and negating the vector gives the opposite heading. |
| NeonSnake.InitialIsValid | src/pages/Games.tsx:25-29 | The mount state (snake [(10,10)], food (5,5), heading up) satisfies the invariant. |
| NeonSnake.Tick | src/pages/Games.tsx:39-57 | After a crash nothing moves. The game crashes exactly when the next head leaves the board or hits a segment, and the final score is then reported once. Otherwise the head advances by the heading. On food the whole snake follows, score rises by 10 and food is the unchecked spawn. Off food the tail is dropped. |
| NeonSnake.TickPreservesValid | src/pages/Games.tsx:41-56 | Ticks keep the snake on the board, without overlaps and connected, the heading a unit vector, and the score at 10 per food eaten. |
| NeonSnake.FoodMayLandOnSnake | src/pages/Games.tsx:51 | The respawned food can be on the snake. |
| NeonSnake.Key | src/pages/Games.tsx:32-37 | Only the heading changes, and never to the exact reverse. A changed heading is the key's heading from the shared key table. |
| NeonSnake.KeyAgreesWithArcade | src/pages/Games.tsx:33-36 | On a unit heading, a mapped key turns the snake exactly when it is not the reverse heading, as in the arcade game. |
| NeonSnake.KeyPreservesValid | src/pages/Games.tsx:33-36 | Keys keep the state valid. |
| NeonSnake.Restart | src/pages/Games.tsx:71 | The restart resets the snake, the crash flag and the score, keeps the food and heading, and keeps the state valid. |
| NeonSnake.RestartKeepsHeading | src/pages/Games.tsx:71 | A restart after a crash while heading down keeps heading down, so it is not the mount state. |
| NeonSnake.RunPreservesValid | src/pages/Games.tsx:31-71 | Every state reached by ticks, keys and restarts is valid when spawns are on the board. |
| TicTacToe.WinnerFrom | src/pages/Games.tsx:231-235 | A reported mark fills one of the remaining lines, and there is no report exactly when no remaining line is filled by one mark. |
| TicTacToe.Winner | src/pages/Games.tsx:231-235 | The winner fills one of the eight lines, and there is no winner exactly when no line is filled by a single mark. |
| TicTacToe.EmptyFrom | src/pages/Games.tsx:135 | The list is increasing, holds only empty cells, holds every empty cell from i on, and is empty exactly when those cells are all filled. |
| TicTacToe.EmptyCells | src/pages/Games.tsx:135 | The reply candidates are exactly the empty cells, and there are none exactly when the board is full. |
| TicTacToe.Click | src/pages/Games.tsx:129-132 | A click on an occupied cell or a won board changes nothing. Otherwise cell i becomes X and no other cell changes. |
| TicTacToe.Reply | src/pages/Games.tsx:133-137 | There is no reply once X has won or the board is full. Otherwise exactly one previously empty cell becomes O. |
| TicTacToe.Turn | src/pages/Games.tsx:129-138 | A refused click changes nothing. An honoured click that wins or fills the board places only the X. Otherwise it places the X and an O in another previously empty cell. |
| TicTacToe.EveryEmptyCellCanBeChosen | src/pages/Games.tsx:135-136 | Every empty cell of an unwon board is the reply for some random pick. |
| TicTacToe.CountAfterPlacing | src/pages/Games.tsx:132-136 | Placing a mark in an empty cell adds one to that mark's count and leaves the other count unchanged. |
| TicTacToe.TurnPreservesBalance | src/pages/Games.tsx:129-138 | After each turn the X and O counts are level, or X is one ahead on a board where no reply is due. |
| TicTacToe.Restart | src/pages/Games.tsx:142 | The restart clears the board only when someone has won. |
| TicTacToe.RestartAfterWinIsFresh | src/pages/Games.tsx:142 | Restarting a won game gives the empty opening board, which has no winner and level counts. |
| TicTacToe.DrawIsStuck | src/pages/Games.tsx:129-142 | On a full board with no winner, clicks change nothing and no restart is offered. |
| TicTacToe.EmptyIsBalanced | src/pages/Games.tsx:126 | The opening board has no winner and level counts. |
| TicTacToe.TopRowWins | src/pages/Games.tsx:232-233 | A top row of X is a win for X. |
| MemoryMatrix.NewGame | src/pages/Games.tsx:80-84 | A shuffled deck of two copies of each icon gives 12 cards, nothing face up or solved, score 0, and the invariant. |
| MemoryMatrix.Flip | src/pages/Games.tsx:86-100 | A flip of a face-up or solved card, or a flip while two cards show, changes nothing. A matching second card adds both indices to solved, empties the face-up list and adds 200. Any other flip just turns the card face up. The clear is reported exactly when the last pair is solved, with the score before the pair plus 500. |
| MemoryMatrix.HideMismatch | src/pages/Games.tsx:97 | The timer turns the face-up cards down and changes nothing else. |
| MemoryMatrix.FlipPreservesValid | src/pages/Games.tsx:86-100 | Flips keep these true: at most two cards face up, never a solved one; a face-up pair is a mismatch; solved lists whole matching pairs; the score is 200 per pair. |
| MemoryMatrix.SolvingKeepsPairs | src/pages/Games.tsx:90-94 | Solving a pair keeps the state valid. |
| MemoryMatrix.AppendPair | src/pages/Games.tsx:92 | Appending two distinct, unsolved, matching cards keeps solved a duplicate-free list of matching pairs. |
| MemoryMatrix.HideMismatchPreservesValid | src/pages/Games.tsx:97 | Hiding a mismatch keeps the state valid. |
| MemoryMatrix.FlipOnlyAddsSolved | src/pages/Games.tsx:90-94 | Solved cards stay solved, at most two are added per flip, and the score never falls. |
| MemoryMatrix.ClearedHasNothingFlipped | src/pages/Games.tsx:115 | Once every card is solved, no card is face up. |
| MemoryMatrix.Reset | src/pages/Games.tsx:115 | The reset button brings a new deck, no solved cards and score 0, and leaves the face-up list alone. |
| MemoryMatrix.ResetAfterClearIsNewGame | src/pages/Games.tsx:115 | Resetting a cleared board is exactly a new game with the new deck. |
| MemoryMatrix.MatchingPairScores | src/pages/Games.tsx:86-94 | Two flips of a matching pair solve it at once and pay 200. |
| GameStats.UpdateStats | src/pages/Games.tsx:154-161 | The id gets one more play and 100 more score exactly on a win, and is stamped today. An unseen id starts from zero, and every other game's entry is unchanged. |
| GameStats.ReplayCounts | src/pages/Games.tsx:154-161 | Over any history, plays count the id's updates and score adds 100 per win. A game never updated keeps its entry. |
| GameStats.Launch | src/pages/Games.tsx:163-166 | Opening a game adds a play and no score. |
| GameStats.OnTicTacToeWinner | src/pages/Games.tsx:219 | Any tic-tac-toe winner adds 100 to the score. |
| GameStats.AfterSnakeTick | src/pages/Games.tsx:220 | A tick without a crash leaves the statistics alone. A crash adds a play and raises the score exactly when the reported score is positive. |
| GameStats.AfterMemoryFlip | src/pages/Games.tsx:221 | Only clearing the board is recorded, always as a win. |
| GameStats.LosingIsCreditedAsWin | src/pages/Games.tsx:219 | An O win updates the statistics exactly as an X win does. |
| GameStats.SnakeCrashAfterEatingIsWin | src/pages/Games.tsx:220 | A crash after eating at least once credits 100. |
| GameStats.LaunchAndWinCountsTwice | src/pages/Games.tsx:163-166 | A launch followed by a win counts two plays. |
| AudioPlayer.InitialIsValid | src/context/AudioContext.tsx:31-43 | The mount state (first track, paused, half volume, first track loaded) satisfies the invariant. |
| AudioPlayer.NextIndex | src/context/AudioContext.tsx:108-110 | Next stays inside the playlist, steps up by one, and wraps from the last track to the first. |
| AudioPlayer.PrevIndex | src/context/AudioContext.tsx:112-114 | Previous stays inside the playlist, steps down by one, and wraps from the first track to the last. |
| AudioPlayer.NextPrevRoundTrip | src/context/AudioContext.tsx:108-114 | Next then previous, and previous then next, restore the index. |
| AudioPlayer.NextTimesIsRotation | src/context/AudioContext.tsx:108-110 | n steps forward move n places round the playlist, modulo its length. |
| AudioPlayer.FullLapReturns | src/context/AudioContext.tsx:108-110 | Four steps forward return to the starting track. |
| AudioPlayer.OnTrackChange | src/context/AudioContext.tsx:70-78 | The source is swapped to the selected track only for an index above zero. Play state, selection and volume are kept. |
| AudioPlayer.Next | src/context/AudioContext.tsx:108-110 | The selection steps forward, play state and volume are kept, and the state stays valid. |
| AudioPlayer.Prev | src/context/AudioContext.tsx:112-114 | The selection steps back, play state and volume are kept, and the state stays valid. |
| AudioPlayer.TogglePlay | src/context/AudioContext.tsx:87-95 | The toggle flips the paused flag and nothing else. |
| AudioPlayer.ToggleTwiceRestores | src/context/AudioContext.tsx:87-95 | Two toggles restore the player. |
| AudioPlayer.SetVolume | src/context/AudioContext.tsx:97-99 | Setting the volume changes neither the track, the loaded source nor the play state. |
| AudioPlayer.CurrentTitle | src/context/AudioContext.tsx:127 | The title shown is the selected track's title and no other track's, since the titles are distinct. |
| AudioPlayer.NextPrevRestoresSelection | src/context/AudioContext.tsx:108-114 | Skipping forward then back restores the selection and the title shown. |
| AudioPlayer.WrapToFirstKeepsOldSource | src/context/AudioContext.tsx:71-77 | Wrapping from the last track shows the first title while the last track's source stays loaded. |
| AudioPlayer.RunPreservesValid | src/context/AudioContext.tsx:127 | Under any controls the title lookup stays inside the playlist, and any track other than the first that is selected is the one loaded. |
| AudioPlayer.OnlySkipsMoveSelection | src/context/AudioContext.tsx:81-99 | Volume changes and play/pause never change the selection or the loaded source. |
| TimeFormat.Decimal | src/components/MusicPlayer.tsx:11 | A whole number prints as digits with no leading zero, and starts with '0' only for zero. |
| TimeFormat.ParseDecimal | src/components/MusicPlayer.tsx:9-11 | Reading a printed number back gives the number. |
| TimeFormat.DecimalOfParse | src/components/MusicPlayer.tsx:11 | Every numeral with no leading zero is the printing of its value. |
| TimeFormat.PadStart | src/components/MusicPlayer.tsx:11 | Padding gives the larger of t's length and w, ends with t, and adds only '0' in front. |
| TimeFormat.Join | src/components/MusicPlayer.tsx:11 | The output is the minutes text, ':' and the two-character seconds text. |
| TimeFormat.SecondsField | src/components/MusicPlayer.tsx:10-11 | For seconds below 60 the padded field is exactly two digits carrying the value. |
| TimeFormat.Clock | src/components/MusicPlayer.tsx:9-11 | The text reads as canonical minutes m, a colon and two digits for the seconds. |
| TimeFormat.BlankClock | src/components/MusicPlayer.tsx:8 | "0:00" reads as zero minutes and zero seconds. |
| TimeFormat.FormatTime | src/components/MusicPlayer.tsx:7-12 | The text reads as s div 60 minutes and s mod 60 seconds. |
| TimeFormat.ZeroIsBlankClock | src/components/MusicPlayer.tsx:8 | Zero seconds formats as "0:00". |
| TimeFormat.ReadingIsUnique | src/components/MusicPlayer.tsx:9-11 | Two clock texts with the same reading are the same text. |
| TimeFormat.FormatThenParse | src/components/MusicPlayer.tsx:7-12 | Reading a formatted time back gives 60·minutes + seconds, the original number of seconds. |
| TimeFormat.ParseThenFormat | src/components/MusicPlayer.tsx:7-12 | Every clock text with canonical minutes and two-digit seconds below 60 is the formatting of the seconds it denotes. |

## Left out

- Timers and scheduling are not modelled: the interval ticks, the 400 ms reply, the 800 ms hide and the 2 s boot delay. Each is one atomic step, so clicks between an X and its delayed O are not modelled.
- React's render cycle is not modelled: stale closures, batching of state updates, effect scheduling and re-registration of listeners. The models read the state current at the step.
- `Math.random` is not modelled. The food draw, the O reply index and the deck shuffle are parameters. The shuffle is any arrangement of two copies of each icon, because the comparator sort is not uniform.
- TicTacToe.Reply: the source writes the O into the array it has already committed as the board and passes that same array to the state setter again. React then skips the re-render, so the O is not drawn and the winner is not recomputed until some later render. A click after an O win can therefore pass the stale winner check and place an X. The model treats the board as an immutable value and the reply as one step, so `Click` always sees the O and its winner.
- ArcadeZone.GenerateFood: requires a snake shorter than the board, because the source's loop never ends on a full board.
- Browser storage and JSON (`localStorage`) are not modelled, and `new Date().toLocaleDateString()` becomes an opaque string parameter.
- The `HTMLAudioElement` is reduced to its paused flag and the index of the loaded track. Not modelled: its events, the loop flag, the promise returned by `play()` and its rejection, `currentTime`, `duration` and `setCurrentTime`.
- AudioPlayer.SetVolume: the volume is an opaque real and is not range-checked, because the source passes the slider value through unchecked.
- AudioPlayer.TogglePlay: the play request is taken to succeed at once, because a rejected `play()` promise is only logged.
- The deployment base prefix of the first two track addresses is dropped.
- TimeFormat.FormatTime: covers whole, non-negative seconds only, the value after flooring, printed as plain digits. Not modelled: NaN, negative and fractional inputs; an infinite duration, such as the live-stream track's, for which the source prints "Infinity:NaN"; minutes of 10^21 and above, which JavaScript prints in exponent form; and seconds above 2^53, which are not exact.
- The statistics dialog's fallback to zero is modelled as `PlaysOf`/`ScoreOf`. Not modelled: `updateStats` copies the table shallowly and so also changes the record held by the previous table.
- JSX rendering, animation, styling, the other components of the site, routing and the three.js skin viewer are outside the model.
