/**
 * Per-game statistics kept by the games page (src/pages/Games.tsx,
 * `updateStats` and the callbacks handed to each game). Statistics are a
 * pure map from game id to its record; the browser storage they are
 * saved to and the date they are stamped with are left out, the date
 * becoming an opaque string parameter.
 */
module GameStats {
  import TicTacToe
  import NeonSnake
  import MemoryMatrix
  import Grid

  datatype Stats = Stats(plays: nat, score: nat, lastPlayed: string)

  type Table = map<string, Stats>

  /** Score credited for a win. */
  const WinReward: nat := 100

  const TicTacToeId := "tic-tac-toe"
  const SnakeId := "snake"
  const MemoryId := "memory"

  /** Plays recorded for a game; an unseen game counts as zero. */
  function PlaysOf(t: Table, id: string): nat {
    if id in t then t[id].plays else 0
  }

  function ScoreOf(t: Table, id: string): nat {
    if id in t then t[id].score else 0
  }

  /**
   * One more play of `id`, a win bonus if `win`, stamped `today`; an
   * unseen game starts from a zeroed record. Other games are untouched.
   */
  function UpdateStats(t: Table, id: string, win: bool, today: string): (r: Table)
    ensures r.Keys == t.Keys + {id}
    ensures forall g :: g in t && g != id ==> r[g] == t[g]
    ensures r[id].plays == PlaysOf(t, id) + 1
    ensures r[id].score == ScoreOf(t, id) + (if win then WinReward else 0)
    ensures r[id].lastPlayed == today
  {
    var base := if id in t then t[id] else Stats(0, 0, today);
    var bumped := base.(plays := base.plays + 1);
    var scored := if win then bumped.(score := bumped.score + WinReward) else bumped;
    t[id := scored.(lastPlayed := today)]
  }

  // ---------------------------------------------------------------------
  // Histories of updates
  // ---------------------------------------------------------------------

  datatype Update = Update(id: string, win: bool, today: string)

  function Replay(t: Table, us: seq<Update>): Table
    decreases |us|
  {
    if us == [] then t else Replay(UpdateStats(t, us[0].id, us[0].win, us[0].today), us[1..])
  }

  function PlaysIn(us: seq<Update>, id: string): nat {
    if us == [] then 0 else (if us[0].id == id then 1 else 0) + PlaysIn(us[1..], id)
  }

  function WinsIn(us: seq<Update>, id: string): nat {
    if us == [] then 0 else (if us[0].id == id && us[0].win then 1 else 0) + WinsIn(us[1..], id)
  }

  /**
   * Over any history, a game's plays count its updates and its score pays
   * 100 for each of its wins; a game never updated keeps its record.
   */
  lemma {:induction false} ReplayCounts(t: Table, us: seq<Update>, id: string)
    ensures PlaysOf(Replay(t, us), id) == PlaysOf(t, id) + PlaysIn(us, id)
    ensures ScoreOf(Replay(t, us), id) == ScoreOf(t, id) + WinReward * WinsIn(us, id)
    ensures PlaysIn(us, id) == 0 ==> (id in Replay(t, us) <==> id in t)
    ensures PlaysIn(us, id) == 0 && id in t ==> Replay(t, us)[id] == t[id]
    decreases |us|
  {
    if us != [] {
      ReplayCounts(UpdateStats(t, us[0].id, us[0].win, us[0].today), us[1..], id);
    }
  }

  // ---------------------------------------------------------------------
  // Where the updates come from
  // ---------------------------------------------------------------------

  /** Opening a game after the boot screen counts a play, never a win. */
  function Launch(t: Table, id: string, today: string): (r: Table)
    ensures id in r && r[id].plays == PlaysOf(t, id) + 1 && r[id].score == ScoreOf(t, id)
  {
    UpdateStats(t, id, false, today)
  }

  /** The tic-tac-toe board reports any winner, and every winner is credited. */
  function OnTicTacToeWinner(t: Table, winner: TicTacToe.Mark, today: string): (r: Table)
    ensures TicTacToeId in r && r[TicTacToeId].score == ScoreOf(t, TicTacToeId) + WinReward
  {
    UpdateStats(t, TicTacToeId, true, today)
  }

  /** A snake tick that crashed reports its score; a positive score is a win. */
  function AfterSnakeTick(t: Table, o: NeonSnake.Outcome, today: string): (r: Table)
    ensures o.crashScore.None? ==> r == t
    ensures o.crashScore.Some? ==>
      SnakeId in r && r[SnakeId].plays == PlaysOf(t, SnakeId) + 1
      && (r[SnakeId].score > ScoreOf(t, SnakeId) <==> o.crashScore.value > 0)
  {
    match o.crashScore
    case None => t
    case Some(s) => UpdateStats(t, SnakeId, s > 0, today)
  }

  /** Clearing the memory board is always a win; the reported number is not used. */
  function AfterMemoryFlip(t: Table, o: MemoryMatrix.Outcome, today: string): (r: Table)
    ensures o.clearScore.None? ==> r == t
    ensures o.clearScore.Some? ==> MemoryId in r && r[MemoryId].score == ScoreOf(t, MemoryId) + WinReward
  {
    match o.clearScore
    case None => t
    case Some(_) => UpdateStats(t, MemoryId, true, today)
  }

  /** Losing to the page still credits a tic-tac-toe win. */
  lemma LosingIsCreditedAsWin(t: Table, today: string)
    ensures OnTicTacToeWinner(t, TicTacToe.O, today) == OnTicTacToeWinner(t, TicTacToe.X, today)
  {
  }

  /** A snake that ate at least once before crashing is credited a win. */
  lemma SnakeCrashAfterEatingIsWin(t: Table, s: NeonSnake.Neon, spawn: Grid.Cell, today: string)
    requires NeonSnake.Valid(s) && !s.gameOver && |s.snake| > 1 && NeonSnake.Crashes(s)
    ensures AfterSnakeTick(t, NeonSnake.Tick(s, spawn), today)[SnakeId].score == ScoreOf(t, SnakeId) + WinReward
  {
  }

  /** A launched game that is then won counts two plays. */
  lemma LaunchAndWinCountsTwice(t: Table, today: string)
    ensures
      var r := OnTicTacToeWinner(Launch(t, TicTacToeId, today), TicTacToe.X, today);
      r[TicTacToeId].plays == PlaysOf(t, TicTacToeId) + 2
  {
  }
}
