/** The per-arena brackets the page derives whenever the team list changes:
    one bracket for every arena that has at least one team. */
module Matchups {

  import opened Teams
  import opened Sequences
  import opened Bracket

  /** The teams registered to `arena`, in registration order. */
  function ArenaTeams(teams: seq<Team>, arena: string): (r: seq<Team>)
    ensures forall t :: t in r <==> t in teams && t.arena == arena
  {
    Filter(teams, (t: Team) => t.arena == arena)
  }

  /** `perm` is some rearrangement of `s`: the abstraction of the shuffle. */
  predicate IsShuffleOf(perm: seq<Team>, s: seq<Team>)
  {
    multiset(perm) == multiset(s)
  }

  /** The `forEach` over the arenas in display order, after the first `k`
      of them: arena `i` gets `brackets[i]` when `occupied[i]` holds. */
  function Collect(brackets: seq<seq<Match>>, occupied: seq<bool>, k: nat): (r: map<string, seq<Match>>)
    requires k <= |Arenas| == |brackets| == |occupied|
    ensures forall a :: a in r ==> exists i :: 0 <= i < k && Arenas[i] == a
    ensures forall i :: 0 <= i < k ==> (Arenas[i] in r <==> occupied[i])
    ensures forall i :: 0 <= i < k && Arenas[i] in r ==> r[Arenas[i]] == brackets[i]
  {
    if k == 0 then map[]
    else
      var earlier := Collect(brackets, occupied, k - 1);
      var a := Arenas[k - 1];
      ArenasDistinct();
      assert forall i :: 0 <= i < k - 1 ==> Arenas[i] != a;
      if occupied[k - 1] then earlier[a := brackets[k - 1]] else earlier
  }

  /** The bracket of each arena, `perms[i]` paired for arena `i`. */
  function Brackets(perms: seq<seq<Team>>): (b: seq<seq<Match>>)
    requires |perms| == |Arenas|
    ensures |b| == |Arenas|
    ensures forall i :: 0 <= i < |Arenas| ==> b[i] == Pair(perms[i])
  {
    seq(|Arenas|, i requires 0 <= i < |Arenas| => Pair(perms[i]))
  }

  /** Which arenas have at least one team. */
  function Occupied(teams: seq<Team>): (o: seq<bool>)
    ensures |o| == |Arenas|
    ensures forall i :: 0 <= i < |Arenas| ==> (o[i] <==> |ArenaTeams(teams, Arenas[i])| >= 1)
  {
    seq(|Arenas|, i requires 0 <= i < |Arenas| => |ArenaTeams(teams, Arenas[i])| >= 1)
  }

  /** The matchups object: arena name to its bracket. An arena with no team
      gets no entry; every other arena's bracket pairs the shuffle drawn for
      it, `perms[i]` for arena `i`. */
  function DeriveMatchups(teams: seq<Team>, perms: seq<seq<Team>>): (r: map<string, seq<Match>>)
    requires |perms| == |Arenas|
    requires forall i :: 0 <= i < |Arenas| ==> IsShuffleOf(perms[i], ArenaTeams(teams, Arenas[i]))
    ensures forall a :: a in r <==> a in Arenas && |ArenaTeams(teams, a)| >= 1
    ensures forall i :: 0 <= i < |Arenas| && Arenas[i] in r ==> r[Arenas[i]] == Pair(perms[i])
    ensures forall a :: a in r ==> multiset(Flatten(r[a])) == multiset(ArenaTeams(teams, a))
  {
    var r := Collect(Brackets(perms), Occupied(teams), |Arenas|);
    EntriesHoldArenaTeams(teams, perms, r);
    r
  }

  /** A bracket built from a shuffle of an arena's teams holds exactly that
      arena's teams, each as often as it was registered, and no team of
      another arena. With `DeriveMatchups`, this is what every entry of the
      matchups object holds. */
  lemma BracketHoldsArenaTeams(teams: seq<Team>, arena: string, perm: seq<Team>)
    requires IsShuffleOf(perm, ArenaTeams(teams, arena))
    ensures multiset(Flatten(Pair(perm))) == multiset(ArenaTeams(teams, arena))
    ensures forall t :: t in Flatten(Pair(perm)) <==> t in teams && t.arena == arena
  {
    PairFlatten(perm);
    assert forall t :: t in perm <==> t in multiset(perm);
  }

  /** Every entry of a map that gives arena `i` the pairing of `perms[i]`
      holds that arena's teams. */
  lemma EntriesHoldArenaTeams(teams: seq<Team>, perms: seq<seq<Team>>, r: map<string, seq<Match>>)
    requires |perms| == |Arenas|
    requires forall i :: 0 <= i < |Arenas| ==> IsShuffleOf(perms[i], ArenaTeams(teams, Arenas[i]))
    requires forall a :: a in r ==> exists i :: 0 <= i < |Arenas| && Arenas[i] == a
    requires forall i :: 0 <= i < |Arenas| && Arenas[i] in r ==> r[Arenas[i]] == Pair(perms[i])
    ensures forall a :: a in r ==> multiset(Flatten(r[a])) == multiset(ArenaTeams(teams, a))
  {
    forall a | a in r
      ensures multiset(Flatten(r[a])) == multiset(ArenaTeams(teams, a))
    {
      var i :| 0 <= i < |Arenas| && Arenas[i] == a;
      BracketHoldsArenaTeams(teams, a, perms[i]);
    }
  }

  /** When every team is registered to one of the three arenas, the arena
      splits together account for every team exactly once. */
  lemma {:induction false} ArenasCoverTeams(teams: seq<Team>)
    requires forall t :: t in teams ==> t.arena in Arenas
    ensures |ArenaTeams(teams, Arenas[0])| + |ArenaTeams(teams, Arenas[1])| + |ArenaTeams(teams, Arenas[2])| == |teams|
  {
    if |teams| > 0 {
      ArenasDistinct();
      var t := teams[0];
      assert teams == [t] + teams[1..];
      ArenasCoverTeams(teams[1..]);
      forall a | a in Arenas
        ensures |ArenaTeams(teams, a)| == |ArenaTeams(teams[1..], a)| + (if t.arena == a then 1 else 0)
      {
        FilterAppend([t], teams[1..], (u: Team) => u.arena == a);
      }
    }
  }
}
