# Click-game round engine

A model of the round engine of a timed click game. Participants join and get a
click count of 0. Each click adds one to the clicker's count, and participants
may leave at any time. When a round closes, the engine makes one pass over the
participants in the dictionary's enumeration order. That pass finds the top
count and the winner list. If no count is positive, the round reports the "no
participation" sentinel (no winners, 0 clicks) and the tally is left alone.
Otherwise it reports the winners and the top count, and every count goes back
to 0 while every participant stays in the tally.

Files:

- `rounds.dfy`, module `Rounds`. It holds the round-close decision as pure
  functions over a snapshot of the tally. `Step` is one iteration of the
  selection loop, with its nested conditions as written. `Select` is the whole
  pass, `Resolve` is the reported outcome and `ZeroAll` is the reset. Beside
  them are the reference definitions `IsBest` (the top count, or 0) and
  `IsFirstAt` (the first position holding a count), and lemmas connecting the
  two. The module also holds the co-winner variant (`StepWithTies`,
  `SelectWithTies`, `ResolveWithTies`); see "Findings".
- `game.dfy`, module `GameEngine`. It holds the class `Game`, whose field
  `data: map<string, int>` is the tally. The methods `AddUser`, `RemoveUser`
  and `Increment` change the tally in place. `EndRound` runs the selection
  loop (`SelectWinners`, a `while` loop proved equal to `Select`), then the
  no-participation branch, then the reset loop (`ResetCounts`, proved equal to
  `ZeroAll`). The object invariant `Valid()` says every count is
  non-negative, and every method keeps it. The file ends with round scenarios
  that drive those operations.

The order of the dictionary's enumeration is chosen by the runtime. It is a
parameter `order` of the round close, and `Enumerates(order, data)` requires
it to list every key exactly once. Nothing else about it is fixed.

Two behaviours of the round engine are worth stating plainly:

- A click from an id that is not in the tally is not ignored: the C# indexer
  read throws `KeyNotFoundException`. `Increment` reports this as
  `KeyNotFound(userId)` and leaves the tally unchanged.
- Tied participants are not all named. Only the first key in enumeration order
  that reaches the top count is a winner; see "Findings".

## Model

| member | source | states |
|---|---|---|
| `GameEngine.Game.constructor` | BackgroundService/Services/Game.cs:16 | the tally starts empty, so the invariant holds |
| `GameEngine.Game.AddUser` | BackgroundService/Services/Game.cs:28-31 | the id is in the tally with count 0, whether it was inserted or a stale count was overwritten; the key set gains only that id; every other count is unchanged; counts stay non-negative |
| `GameEngine.Game.RemoveUser` | BackgroundService/Services/Game.cs:33-36 | the id is absent afterwards whether or not it was present, with no error; the key set loses only that id; every other count is unchanged |
| `GameEngine.Game.Increment` | BackgroundService/Services/Game.cs:38-41 | a present id's count rises by exactly 1, the key set is unchanged and other counts are unchanged; an absent id gives `KeyNotFound` and leaves the tally unchanged; counts stay non-negative |
| `GameEngine.Game.SelectWinners` | BackgroundService/Services/Game.cs:45-63 | the loop's final winner list and best count equal `Select` over the enumeration order; the best count is the top count, or 0 when none is positive; the list is empty exactly when the best count is 0; the list holds at most one id |
| `GameEngine.Game.ResetCounts` | BackgroundService/Services/Game.cs:100-104 | the tally afterwards is `ZeroAll` of the tally before: same keys, every count 0 |
| `GameEngine.Game.EndRound` | BackgroundService/Services/Game.cs:43-105 | the outcome is `Resolve` of the tally before the close; it is the sentinel exactly when every count was 0, and then the tally is unchanged; otherwise every count is reset to 0 with the keys kept; either way an immediate second close reports no participation |
| `GameEngine.Game.EndRoundWithTies` | BackgroundService/Services/Game.cs:43-105 | the corrected close: the outcome is `ResolveWithTies`, which names exactly the participants holding the positive top count, each once; the tally is unchanged or reset as in `EndRound` |
| `GameEngine.EmptyRound` | BackgroundService/Services/Game.cs:66-75 | with nobody joined, the close reports the no-participation sentinel |
| `GameEngine.JoinClickLeave` | BackgroundService/Services/Game.cs:28-41 | a participant who joins, clicks once and leaves is absent from the tally, and the round has no participation |
| `GameEngine.UnknownClick` | BackgroundService/Services/Game.cs:38-41 | a click from an id that never joined is reported as `KeyNotFound` and is not counted |
| `GameEngine.ThreeClicksEach` | BackgroundService/Services/Game.cs:28-41 | two joins followed by three clicks each give both participants a count of exactly 3 |
| `GameEngine.TiedRound` | BackgroundService/Services/Game.cs:51-61 | when A and B both reach 3 and A is enumerated first: the close as written names only A, and the close with ties names A and B |
| `Rounds.ZeroAll` | BackgroundService/Services/Game.cs:101-104 | the reset keeps the key set and sets every count to 0 |
| `Rounds.SelectIsFirstMaximum` | BackgroundService/Services/Game.cs:45-63 | the best count after the pass is the maximum count, or 0 when no count is positive; the winner list is empty when it is 0, and otherwise is exactly the first key in enumeration order holding that count |
| `Rounds.SelectAtMostOneWinner` | BackgroundService/Services/Game.cs:51-61 | the pass yields at most one winner, and any winner was visited and holds the best count |
| `Rounds.TiesAreDropped` | BackgroundService/Services/Game.cs:51-61 | when a later key ties an earlier one at the positive top count, the later key is not a winner |
| `Rounds.TiedPairExample` | BackgroundService/Services/Game.cs:51-61 | concrete tally A=3, B=3 in that order: as written the outcome is winners [A] with 3 clicks; with ties it is [A, B] with 3 clicks |
| `Rounds.ResolveNoParticipation` | BackgroundService/Services/Game.cs:65-75 | the sentinel is reported if and only if no visited count is positive |
| `Rounds.ResolveWinner` | BackgroundService/Services/Game.cs:48-95 | a reported round has exactly one winner; the winner is in the tally with a positive count; that count is the reported click count and the maximum of the whole tally; no key before the winner in enumeration order has that count |
| `Rounds.ResolveAfterReset` | BackgroundService/Services/Game.cs:101-104 | after the reset, a round close reports no participation |
| `Rounds.ZeroAllIdempotent` | BackgroundService/Services/Game.cs:101-104 | resetting an already reset tally changes nothing |
| `Rounds.SelectWithTiesIsArgmax` | BackgroundService/Services/Game.cs:51-61 | with ties kept, the pass finds the same best count; the winner list contains exactly the visited keys that hold the positive best count |
| `Rounds.SelectWithTiesDistinct` | BackgroundService/Services/Game.cs:51-61 | with ties kept over a duplicate-free enumeration, every winner was visited and no winner is listed twice |
| `Rounds.ResolveWithTiesCoWinners` | BackgroundService/Services/Game.cs:51-75 | with ties kept, the sentinel is reported exactly when no count is positive; otherwise the winners are exactly the participants holding the tally's maximum count, each listed once |

## Left out

- Persistence of win credits is not modelled. This covers the Entity Framework
  Core player query, the `NbWins++` updates, `SaveChangesAsync` and the scope
  factory (Game.cs lines 77-89); all are calls into a database. The database
  exception paths are out too; they would skip the reset.
- The outcome carries participant ids, not user names. The user-name lookup at
  lines 89-93 is a database query.
- The SignalR broadcast of the outcome (lines 73 and 96) is a network call to
  an opaque hub. The model returns the outcome that would be broadcast.
- The hosting loop `ExecuteAsync` and the constant `DELAY` (lines 14 and
  108-116) are timer and cancellation plumbing around `EndRound`. The model
  only covers what a single call of `EndRound` does.
- Concurrency is not modelled. Hub callbacks and the timer loop share `_data`
  without a lock, and there is no exclusion mechanism to model, so every
  operation is treated as sequential.
- Counts are unbounded integers, so the model has no 32-bit overflow.
- No concrete dictionary enumeration order is modelled; the order is any
  duplicate-free listing of the keys. The reset loop writes values while
  enumerating the keys. The model assumes that overwriting an existing key
  does not invalidate that enumeration, as is the case on current .NET.

## Findings

| source | as written | input that shows it | evidently intended | confidence | as-written member | corrected member |
|---|---|---|---|---|---|---|
| BackgroundService/Services/Game.cs:51-61 | `winners.Add(key)` at line 60 sits inside the strict test `value > biggestValue` at line 53. A key whose count equals the best so far adds nothing, so only the first key reaching the top count wins. | A and B join and each click 3 times, with A enumerated first. The outcome names only A, with 3 clicks. | Every participant with the positive top count is a co-winner. The outer `value >= biggestValue` at line 51 and the clearing test at line 55 only have a purpose under that rule. | medium; not executed | `Rounds.TiesAreDropped` (concrete case `Rounds.TiedPairExample`, scenario `GameEngine.TiedRound`) | `Rounds.SelectWithTiesIsArgmax`, `Rounds.ResolveWithTiesCoWinners`, `GameEngine.Game.EndRoundWithTies` |

`GameEngine.Game.EndRound` keeps the rule as written, because that is what the
engine does. `GameEngine.Game.EndRoundWithTies` is the same close with the
corrected rule.
