/** Bracket pairing for one arena: after the teams are shuffled, consecutive
    teams meet, and a leftover last team gets a bye. */
module Bracket {

  import opened Wrappers
  import opened Teams

  /** One bracket slot: a team and its opponent, or `None` for a bye. */
  datatype Match = Match(home: Team, away: Option<Team>)

  /** The teams playing in a slot, home side first. */
  function Members(m: Match): seq<Team>
  {
    match m.away
    case Some(u) => [m.home, u]
    case None => [m.home]
  }

  /** All teams of a bracket, slot by slot, byes dropped. */
  function Flatten(ms: seq<Match>): seq<Team>
  {
    if |ms| == 0 then [] else Members(ms[0]) + Flatten(ms[1..])
  }

  /** `ms` pairs `order` two at a time: slot `j` holds teams `2j` and
      `2j + 1`, the second one absent exactly when it runs off the end. */
  ghost predicate PairsOf(ms: seq<Match>, order: seq<Team>)
  {
    && |ms| == (|order| + 1) / 2
    && forall j :: 0 <= j < |ms| ==>
         && ms[j].home == order[2 * j]
         && ms[j].away == if 2 * j + 1 < |order| then Some(order[2 * j + 1]) else None
  }

  /** The pairing of an already shuffled sequence, one step of two at a time. */
  function Pair(order: seq<Team>): (ms: seq<Match>)
    ensures PairsOf(ms, order)
    ensures forall j :: 0 <= j < |ms| ==>
              (ms[j].away == None <==> j == |ms| - 1 && |order| % 2 == 1)
  {
    if |order| == 0 then []
    else if |order| == 1 then [Match(order[0], None)]
    else
      var rest := Pair(order[2..]);
      assert forall j :: 1 <= j < |rest| + 1 ==> order[2 * j] == order[2..][2 * (j - 1)];
      [Match(order[0], Some(order[1]))] + rest
  }

  /** The pairing of a sequence is unique: any two bracket lists that pair the
      same order are the same list. */
  lemma PairsOfUnique(a: seq<Match>, b: seq<Match>, order: seq<Team>)
    requires PairsOf(a, order) && PairsOf(b, order)
    ensures a == b
  {
  }

  /** Reading a bracket back slot by slot, byes dropped, gives the shuffled
      order itself: no team is lost, duplicated or moved. */
  lemma {:induction false} PairFlatten(order: seq<Team>)
    ensures Flatten(Pair(order)) == order
  {
    if |order| >= 2 {
      var ms := Pair(order);
      PairFlatten(order[2..]);
      PairsOfUnique(ms[1..], Pair(order[2..]), order[2..]);
      assert order == [order[0], order[1]] + order[2..];
    } else if |order| == 1 {
      assert Pair(order)[0] == Match(order[0], None);
    }
  }

  /** The bracket for one arena: `shuffled` is whatever order the shuffle
      produced, any rearrangement of `arenaTeams`. */
  method GenerateBracketMatches(arenaTeams: seq<Team>, shuffled: seq<Team>) returns (matches: seq<Match>)
    requires multiset(shuffled) == multiset(arenaTeams)
    ensures |matches| == (|arenaTeams| + 1) / 2
    ensures matches == Pair(shuffled)
    ensures Flatten(matches) == shuffled
    ensures multiset(Flatten(matches)) == multiset(arenaTeams)
    ensures forall j :: 0 <= j < |matches| ==>
              (matches[j].away == None <==> j == |matches| - 1 && |arenaTeams| % 2 == 1)
  {
    matches := PairUp(shuffled);
    PairingOfShuffle(matches, arenaTeams, shuffled);
  }

  /** The pairing loop: step through the shuffled teams two at a time, pairing
      a team with the next one when there is a next one. */
  method PairUp(shuffled: seq<Team>) returns (matches: seq<Match>)
    ensures PairsOf(matches, shuffled)
  {
    matches := [];
    var i := 0;
    while i < |shuffled|
      invariant 0 <= i <= |shuffled| + 1 && i % 2 == 0
      invariant |matches| == i / 2
      invariant forall j :: 0 <= j < |matches| ==>
                  && matches[j].home == shuffled[2 * j]
                  && matches[j].away == if 2 * j + 1 < |shuffled| then Some(shuffled[2 * j + 1]) else None
    {
      if i + 1 < |shuffled| {
        matches := matches + [Match(shuffled[i], Some(shuffled[i + 1]))];
      } else {
        matches := matches + [Match(shuffled[i], None)];
      }
      i := i + 2;
    }
  }

  /** What the pairing of any shuffle of an arena's teams is. */
  lemma PairingOfShuffle(matches: seq<Match>, arenaTeams: seq<Team>, shuffled: seq<Team>)
    requires multiset(shuffled) == multiset(arenaTeams)
    requires PairsOf(matches, shuffled)
    ensures |matches| == (|arenaTeams| + 1) / 2
    ensures matches == Pair(shuffled)
    ensures Flatten(matches) == shuffled
    ensures multiset(Flatten(matches)) == multiset(arenaTeams)
    ensures forall j :: 0 <= j < |matches| ==>
              (matches[j].away == None <==> j == |matches| - 1 && |arenaTeams| % 2 == 1)
  {
    PairsOfUnique(matches, Pair(shuffled), shuffled);
    PairFlatten(shuffled);
    assert |shuffled| == |multiset(shuffled)| == |arenaTeams|;
  }
}
