/**
 * The records the draft viewer reads from its two JSON documents: the player
 * catalog and the draft state. Only the fields the computations consult are
 * kept.
 */
module Draft {
  import opened Maybe

  /** A catalog entry; `id` is meant to be unique but nothing enforces it. */
  datatype Player = Player(id: string, displayName: string)

  datatype Team = Team(id: string, name: string)

  /**
   * One pick. `playerId` holds either a player's id or their display name,
   * depending on who entered the pick.
   */
  datatype Pick = Pick(pickNo: int, teamId: string, playerId: string)

  /** The draft state document; either list may be missing from the JSON. */
  datatype DraftState = DraftState(teams: Option<seq<Team>>, picks: Option<seq<Pick>>)

  /** `picks || []`: a missing pick list reads as no picks at all. */
  function PickList(picks: Option<seq<Pick>>): (r: seq<Pick>)
    ensures picks.Some? ==> r == picks.value
    ensures picks.None? ==> r == []
  {
    match picks
    case Some(ps) => ps
    case None => []
  }

  /** The ids of a list of teams. */
  function TeamIds(teams: seq<Team>): (r: set<string>)
    ensures forall t :: t in teams ==> t.id in r
    ensures forall k :: k in r ==> exists t :: t in teams && t.id == k
  {
    set t | t in teams :: t.id
  }
}
