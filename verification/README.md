# Dodgeball tournament registration: verified model of the page logic

The tournament site is a single page. A team registers with a name, one of
three arenas and a roster of five players. An admin view lists the teams,
lets the admin delete or rename them, and shows a randomly paired
single-round bracket for each arena. A countdown to the start time is shown
above the form. The team list lives in page memory and is mirrored to the
browser's local storage.

This Dafny project models the logic behind that page. The modules are:

- `Teams`: players, teams, the three arena labels and the per-player
  completeness check.
- `Sequences`: the order-preserving filter used both to split teams by arena
  and to delete teams.
- `Bracket`: pairing a shuffled arena list two at a time, with a bye for a
  leftover team. The shuffle is an arbitrary rearrangement supplied by the
  caller.
- `Matchups`: the per-arena map of brackets the page derives from the team
  list.
- `Roster`: page state (team list, storage copy, form, success flag) and the
  register, delete and rename operations.
- `RosterLaws`: how those operations relate to each other and to the arena
  split. It also proves that the storage copy never drifts from the list.
- `Countdown`: the page's floating-point formulas, evaluated exactly. They
  are proved equal to integer division into days, hours, minutes and
  seconds. This module also covers the text of the countdown line.

Two behaviours of the page worth noting:

- At a distance of exactly zero the code still shows `0d 0h 0m 0s`. Only a
  negative distance shows "Tournament has started!" (`ZeroDistanceShowsZeros`).
- Teams are not forced to have five players. The form always supplies five,
  but `Register` takes whatever roster the form holds.

## Model

| member | source | states |
|---|---|---|
| `Bracket.Pair` | src/pages/index.tsx:8-14 | slot j holds teams 2j and 2j+1 of the shuffled order. There are ceil(N/2) slots. A slot has no opponent exactly when it is the last one and N is odd |
| `Bracket.PairsOfUnique` | src/pages/index.tsx:8-14 | the stepping-by-two pairing determines the bracket uniquely |
| `Bracket.PairFlatten` | src/pages/index.tsx:7-14 | reading the bracket slot by slot, byes dropped, gives back the shuffled order. No team is lost, duplicated or reordered |
| `Bracket.GenerateBracketMatches` | src/pages/index.tsx:5-16 | for any shuffle of the arena's teams, the loop produces ceil(N/2) matches. They hold exactly the arena's teams, as a multiset. The only bye is in the last match, when N is odd |
| `Bracket.PairUp` | src/pages/index.tsx:8-14 | the loop that steps two at a time, pairing a team with the next one when there is one, leaves slot j holding teams 2j and 2j+1, with no opponent when 2j+1 runs off the end |
| `Bracket.PairingOfShuffle` | src/pages/index.tsx:7-14 | any bracket that pairs a shuffle of the arena's teams is the pairing of that shuffle. It reads back as the shuffle, holds exactly the arena's teams and has its only bye last, when the count is odd |
| `Teams.ArenasDistinct` | src/pages/index.tsx:28-32 | the three arena labels differ, so each arena gets its own bracket entry |
| `Matchups.ArenaTeams` | src/pages/index.tsx:61 | a team is in an arena's list exactly when it is registered and its arena equals that label |
| `Matchups.Collect` | src/pages/index.tsx:60-65 | the forEach over the arenas gives an entry to exactly the occupied arenas among those visited. Each entry is that arena's own bracket, and no other key appears |
| `Matchups.DeriveMatchups` | src/pages/index.tsx:58-66 | an arena has an entry exactly when it is one of the three and has at least one team. Its entry pairs the shuffle drawn for it and holds exactly that arena's teams, with multiplicity |
| `Matchups.EntriesHoldArenaTeams` | src/pages/index.tsx:60-65 | in any map that gives each arena the pairing of a shuffle of its teams, every entry holds exactly that arena's teams, with multiplicity |
| `Matchups.BracketHoldsArenaTeams` | src/pages/index.tsx:60-65 | a bracket paired from any shuffle of an arena's teams holds exactly that arena's teams, with multiplicity, and no team of another arena. Together with `DeriveMatchups` this describes every entry of the matchups object |
| `Matchups.ArenasCoverTeams` | src/pages/index.tsx:60-62 | when every team has one of the three arenas, the three arena lists together count every team once |
| `Roster.Register` | src/pages/index.tsx:69-86 | if any player has an empty name, grade or number, the state is unchanged and the fill-out-all-fields alert is raised; otherwise the team built from the form's name, arena and players is appended after the unchanged earlier teams, storage equals the new list, the form resets to a blank name, the default arena and five blank players, and the success notice is set |
| `Roster.RemoveNamed` | src/pages/index.tsx:99 | no survivor carries the name. Every team with another name survives |
| `Roster.DeleteTeam` | src/pages/index.tsx:98-102 | the list loses every team with the name. Storage equals the new list. Form and notice are untouched |
| `Roster.RenameAll` | src/pages/index.tsx:105-107 | the length is kept. Each team with the old name gets the new one, with its arena and players kept. Every other team is unchanged |
| `Roster.EditTeamName` | src/pages/index.tsx:104-110 | the list is renamed position by position. Storage equals the new list. Form and notice are untouched |
| `RosterLaws.RemoveNamedMultiplicity` | src/pages/index.tsx:99 | deletion keeps each other team as often as it occurred and drops every copy of a matching team, duplicates included |
| `RosterLaws.RemoveNamedAppend` | src/pages/index.tsx:99 | deletion works piecewise on any split of the list, so relative order is preserved |
| `RosterLaws.RemoveNamedIdempotent` | src/pages/index.tsx:99 | deleting the same name twice equals deleting it once |
| `RosterLaws.RemoveNamedAbsent` | src/pages/index.tsx:99 | deleting a name no team has leaves the list unchanged |
| `RosterLaws.RegisterThenDelete` | src/pages/index.tsx:69-102 | registering a team under a fresh name and then deleting that name restores the earlier list |
| `RosterLaws.RenameClearsOldName` | src/pages/index.tsx:105-107 | after renaming to a different name, no team keeps the old name |
| `RosterLaws.RenameToSelf` | src/pages/index.tsx:105-107 | renaming a name to itself changes nothing |
| `RosterLaws.RenameAppend` | src/pages/index.tsx:105-107 | renaming works piecewise on any split of the list |
| `RosterLaws.RenameKeepsArenas` | src/pages/index.tsx:104-110 | an arena's teams after a rename are its teams before, renamed. A rename never moves a team between brackets |
| `RosterLaws.RenameThenDelete` | src/pages/index.tsx:98-107 | renaming A to B and then deleting B removes exactly the teams named A or B |
| `RosterLaws.RunKeepsMirror` | src/pages/index.tsx:76-109 | from a state whose storage copy matches the list, any sequence of submits, deletes and renames keeps the two equal |
| `Countdown.Decompose` | src/pages/index.tsx:38-48 | a reading appears exactly when the distance is not negative. Hours are below 24, minutes and seconds below 60, and the reading covers the distance to within less than one second |
| `Countdown.JsRem` | src/pages/index.tsx:45-47 | JavaScript's `%` by a positive divisor lies in [0, m) for a non-negative dividend and in (-m, 0] for a negative one, so it takes the dividend's sign |
| `Countdown.FloatFormulas` | src/pages/index.tsx:44-47 | each floored float formula, evaluated exactly, equals the integer quotient or remainder |
| `Countdown.FloorOfQuotient` | src/pages/index.tsx:44 | for a non-negative dividend, `Math.floor(n / c)` is integer division |
| `Countdown.FloorOfRemainder` | src/pages/index.tsx:45-47 | for a non-negative dividend, `Math.floor((n / c) % m)` is the integer `(n / c) % m` |
| `Countdown.MixedUnits` | src/pages/index.tsx:44-47 | days, hours, minutes and seconds rebuild the distance minus its sub-second part |
| `Countdown.Decimal` | src/pages/index.tsx:48 | a number's text is a non-empty string of digits with no leading zero |
| `Countdown.DecimalRoundTrip` | src/pages/index.tsx:48 | a number's decimal text reads back as the number |
| `Countdown.Display` | src/pages/index.tsx:39-48 | the line reads "Tournament has started!" exactly when the start has passed |
| `Countdown.FieldInjective` | src/pages/index.tsx:48 | two fields of the line (a number followed by its unit letter and the rest) are equal only when their numbers and their rests are equal |
| `Countdown.DisplayInjective` | src/pages/index.tsx:39-48 | two readings that show the same line are the same reading, so the line determines the days, hours, minutes and seconds |
| `Countdown.ZeroDistanceShowsZeros` | src/pages/index.tsx:39-48 | at distance 0 the line is `0d 0h 0m 0s`. At distance -1 it is the started message |

## Left out

- Shuffle: the comparator-based random sort is not modelled. Each arena's
  shuffle is any rearrangement of that arena's teams, supplied by the caller,
  and nothing is said about its distribution.
- Matchups re-derivation: the bracket is recomputed with a fresh shuffle
  whenever the list changes. The model derives it for one given list and one
  set of shuffles.
- Storage: local storage and its JSON encoding are modelled as a plain copy
  of the list. The startup load (lines 53-56) reads unvalidated external
  data and is not modelled. Neither is a failed storage write.
- Countdown clock: `Date`, the target timestamp, `setInterval` and
  `clearInterval` are not modelled. `Decompose` takes the distance in
  milliseconds as its input.
- Countdown.Decompose: divisions are exact (`real`), not IEEE doubles.
  Floating-point rounding is not modelled.
- Success notice: the 3-second timer that hides it is not modelled. Only
  setting the flag is.
- Admin toggle and passcode prompt (lines 88-96): interactive input and a
  plain string comparison.
- Form-field edits (typing into the name, arena and player inputs):
  per-keystroke setters with no logic.
- Rendering: `renderBracket` and the JSX.
