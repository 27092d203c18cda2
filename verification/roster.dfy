/** The team list the page keeps, its copy in the browser's local storage,
    and the three operations that change it: register, delete and rename. */
module Roster {

  import opened Wrappers
  import opened Teams
  import opened Sequences

  /** The registration form's fields. */
  datatype Form = Form(teamName: string, arena: string, players: seq<Player>)

  /** Page state: the in-memory team list, the list last written to local
      storage, the form, and whether the success notice is showing. */
  datatype App = App(teams: seq<Team>, stored: seq<Team>, form: Form, showSuccess: bool)

  /** Result of a submit: the new page state and the alert raised, if any. */
  datatype Submission = Submission(app: App, alert: Option<string>)

  const MissingFieldsAlert: string := "Please fill out all fields for every player."

  const BlankPlayer: Player := Player("", "", "")

  /** The form as it is first shown and as it is reset after a registration. */
  const BlankForm: Form := Form("", DefaultArena, [BlankPlayer, BlankPlayer, BlankPlayer, BlankPlayer, BlankPlayer])

  /** The storage copy agrees with the in-memory list. */
  predicate Mirrored(app: App)
  {
    app.stored == app.teams
  }

  /** Some roster line has an empty name, grade or number. */
  predicate HasIncompletePlayer(players: seq<Player>)
  {
    exists i :: 0 <= i < |players| && !PlayerComplete(players[i])
  }

  /** Submit the form. An incomplete roster raises the alert and changes
      nothing; otherwise the team built from the form fields (name and arena
      unchecked) is appended, written to storage, and the form is reset. */
  function Register(app: App): (s: Submission)
    ensures HasIncompletePlayer(app.form.players) ==>
              s.app == app && s.alert == Some(MissingFieldsAlert)
    ensures !HasIncompletePlayer(app.form.players) ==>
              && s.alert == None
              && |s.app.teams| == |app.teams| + 1
              && s.app.teams[..|app.teams|] == app.teams
              && s.app.teams[|app.teams|] == Team(app.form.teamName, app.form.arena, app.form.players)
              && Mirrored(s.app)
              && s.app.form == BlankForm
              && s.app.showSuccess
  {
    if HasIncompletePlayer(app.form.players) then
      Submission(app, Some(MissingFieldsAlert))
    else
      var updated := app.teams + [Team(app.form.teamName, app.form.arena, app.form.players)];
      Submission(App(updated, updated, BlankForm, true), None)
  }

  /** The teams whose name differs from `name`, in their original order. */
  function RemoveNamed(teams: seq<Team>, name: string): (r: seq<Team>)
    ensures forall t :: t in r ==> t.teamName != name
    ensures forall t :: t in teams && t.teamName != name ==> t in r
    ensures |r| <= |teams|
  {
    Filter(teams, (t: Team) => t.teamName != name)
  }

  /** Delete every team called `name`, and write the result to storage. */
  function DeleteTeam(app: App, name: string): (r: App)
    ensures r.teams == RemoveNamed(app.teams, name)
    ensures Mirrored(r)
    ensures r.form == app.form && r.showSuccess == app.showSuccess
  {
    var updated := RemoveNamed(app.teams, name);
    app.(teams := updated, stored := updated)
  }

  /** Rename every team called `from` to `to`; all else is kept. */
  function RenameAll(teams: seq<Team>, from: string, to: string): (r: seq<Team>)
    ensures |r| == |teams|
    ensures forall i :: 0 <= i < |r| ==>
              && r[i].arena == teams[i].arena
              && r[i].players == teams[i].players
              && r[i].teamName == (if teams[i].teamName == from then to else teams[i].teamName)
  {
    if |teams| == 0 then []
    else
      var t := teams[0];
      [if t.teamName == from then t.(teamName := to) else t] + RenameAll(teams[1..], from, to)
  }

  /** Rename every team called `from`, and write the result to storage. */
  function EditTeamName(app: App, from: string, to: string): (r: App)
    ensures r.teams == RenameAll(app.teams, from, to)
    ensures Mirrored(r)
    ensures r.form == app.form && r.showSuccess == app.showSuccess
  {
    var updated := RenameAll(app.teams, from, to);
    app.(teams := updated, stored := updated)
  }
}

/** Properties relating the roster operations to each other and to the
    per-arena split. */
module RosterLaws {

  import opened Teams
  import opened Sequences
  import opened Roster
  import Matchups

  /** Deletion keeps every other team exactly as often as it occurred and
      drops every copy of a team carrying the name, duplicates included. */
  lemma RemoveNamedMultiplicity(teams: seq<Team>, name: string, t: Team)
    ensures multiset(RemoveNamed(teams, name))[t] == if t.teamName == name then 0 else multiset(teams)[t]
  {
    FilterMultiplicity(teams, (u: Team) => u.teamName != name, t);
  }

  /** Deletion preserves relative order: it works piecewise on any split. */
  lemma RemoveNamedAppend(a: seq<Team>, b: seq<Team>, name: string)
    ensures RemoveNamed(a + b, name) == RemoveNamed(a, name) + RemoveNamed(b, name)
  {
    FilterAppend(a, b, (u: Team) => u.teamName != name);
  }

  /** Deleting the same name twice is the same as deleting it once. */
  lemma RemoveNamedIdempotent(teams: seq<Team>, name: string)
    ensures RemoveNamed(RemoveNamed(teams, name), name) == RemoveNamed(teams, name)
  {
    FilterIdempotent(teams, (u: Team) => u.teamName != name);
  }

  /** Deleting a name nobody has leaves the list as it is. */
  lemma RemoveNamedAbsent(teams: seq<Team>, name: string)
    requires forall i :: 0 <= i < |teams| ==> teams[i].teamName != name
    ensures RemoveNamed(teams, name) == teams
  {
    FilterKeepsAll(teams, (u: Team) => u.teamName != name);
  }

  /** Registering a team under a fresh name and then deleting that name
      restores the list as it was before the registration. */
  lemma RegisterThenDelete(app: App)
    requires !HasIncompletePlayer(app.form.players)
    requires forall i :: 0 <= i < |app.teams| ==> app.teams[i].teamName != app.form.teamName
    ensures DeleteTeam(Register(app).app, app.form.teamName).teams == app.teams
  {
    var name := app.form.teamName;
    var added := Team(name, app.form.arena, app.form.players);
    assert Register(app).app.teams == app.teams + [added];
    RemoveNamedAppend(app.teams, [added], name);
    RemoveNamedAbsent(app.teams, name);
    assert RemoveNamed([added], name) == [];
  }

  /** After renaming to a different name, no team keeps the old name. */
  lemma RenameClearsOldName(teams: seq<Team>, from: string, to: string)
    requires from != to
    ensures forall t :: t in RenameAll(teams, from, to) ==> t.teamName != from
  {
  }

  /** Renaming a name to itself changes nothing. */
  lemma RenameToSelf(teams: seq<Team>, name: string)
    ensures RenameAll(teams, name, name) == teams
  {
  }

  /** Renaming commutes with the per-arena split: an arena's teams after a
      rename are that arena's teams before it, renamed. So a rename never
      moves a team between brackets or changes a bracket's size. */
  lemma {:induction false} RenameKeepsArenas(teams: seq<Team>, from: string, to: string, arena: string)
    ensures Matchups.ArenaTeams(RenameAll(teams, from, to), arena)
         == RenameAll(Matchups.ArenaTeams(teams, arena), from, to)
  {
    if |teams| > 0 {
      var r := RenameAll(teams, from, to);
      assert r[1..] == RenameAll(teams[1..], from, to);
      RenameKeepsArenas(teams[1..], from, to, arena);
      var keep := (t: Team) => t.arena == arena;
      var head := if keep(teams[0]) then [teams[0]] else [];
      assert Matchups.ArenaTeams(teams, arena) == head + Matchups.ArenaTeams(teams[1..], arena);
      RenameAppend(head, Matchups.ArenaTeams(teams[1..], arena), from, to);
    }
  }

  /** Renaming works piecewise on any split of the list. */
  lemma RenameAppend(a: seq<Team>, b: seq<Team>, from: string, to: string)
    ensures RenameAll(a + b, from, to) == RenameAll(a, from, to) + RenameAll(b, from, to)
  {
  }

  /** Renaming `from` to `to` and then deleting `to` removes exactly the teams
      that had either name. */
  lemma {:induction false} RenameThenDelete(teams: seq<Team>, from: string, to: string)
    ensures RemoveNamed(RenameAll(teams, from, to), to) == RemoveNamed(RemoveNamed(teams, from), to)
  {
    if |teams| > 0 {
      var r := RenameAll(teams, from, to);
      assert r[1..] == RenameAll(teams[1..], from, to);
      RenameThenDelete(teams[1..], from, to);
      var t := teams[0];
      var kept := if t.teamName != from then [t] else [];
      assert RemoveNamed(r, to)
          == (if r[0].teamName != to then [r[0]] else []) + RemoveNamed(r[1..], to);
      assert RemoveNamed(teams, from) == kept + RemoveNamed(teams[1..], from);
      RemoveNamedAppend(kept, RemoveNamed(teams[1..], from), to);
    }
  }

  /** A user action on the page that touches the team list. */
  datatype Action = Submit | Delete(name: string) | Rename(from: string, to: string)

  function Step(app: App, action: Action): App
  {
    match action
    case Submit => Register(app).app
    case Delete(name) => DeleteTeam(app, name)
    case Rename(from, to) => EditTeamName(app, from, to)
  }

  function Run(app: App, actions: seq<Action>): App
    decreases |actions|
  {
    if |actions| == 0 then app else Run(Step(app, actions[0]), actions[1..])
  }

  /** The storage copy and the in-memory list never drift apart: every
      operation that changes the list writes the same list to storage, and a
      rejected submit touches neither. */
  lemma {:induction false} RunKeepsMirror(app: App, actions: seq<Action>)
    requires Mirrored(app)
    ensures Mirrored(Run(app, actions))
    decreases |actions|
  {
    if |actions| > 0 {
      RunKeepsMirror(Step(app, actions[0]), actions[1..]);
    }
  }
}
