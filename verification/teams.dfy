/** The records the registration form produces: players, teams and the
    three arenas a team can enter. */
module Teams {

  /** One roster line. `number` is free text (a phone number in practice). */
  datatype Player = Player(name: string, grade: string, number: string)

  /** A registered team. The name is used as its identity everywhere, although
      nothing keeps names unique. */
  datatype Team = Team(teamName: string, arena: string, players: seq<Player>)

  /** The arenas offered by the form, in display order. */
  const Arenas: seq<string> := [
    "Arena #1 Varsity Guys (10th–12th)",
    "Arena #2 JV Guys (7th–9th)",
    "Arena #3 ALL Girls (7th–12th)"
  ]

  /** The arena the form starts on and returns to after a registration. */
  const DefaultArena: string := Arenas[0]

  /** A roster line passes the submit check when none of its fields is empty. */
  predicate PlayerComplete(p: Player)
  {
    p.name != "" && p.grade != "" && p.number != ""
  }

  /** The three arena labels are pairwise different, so each owns its own
      bracket entry. */
  lemma ArenasDistinct()
    ensures forall i, j :: 0 <= i < j < |Arenas| ==> Arenas[i] != Arenas[j]
  {
  }
}
