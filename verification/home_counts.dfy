/**
 * The `counts` summary of the home page (app/page.tsx): how many players the
 * catalog holds, how many of them no pick has claimed yet, and how many teams
 * the draft has.
 */
module HomeCounts {
  import opened Maybe
  import opened JsText
  import opened Seqs
  import opened Draft

  datatype Counts = Counts(totalPlayers: nat, available: nat, teams: nat)

  /** `new Set(state.picks?.map(p => p.playerId))`: the references as written. */
  function PickedIds(picks: Option<seq<Pick>>): (r: set<string>)
    ensures forall q :: q in PickList(picks) ==> q.playerId in r
    ensures forall k :: k in r ==> exists q :: q in PickList(picks) && q.playerId == k
  {
    set q | q in PickList(picks) :: q.playerId
  }

  /** `new Set(state.picks?.map(p => String(p.playerId).trim().toLowerCase()))`. */
  function PickedNames(picks: Option<seq<Pick>>): (r: set<string>)
    ensures forall q :: q in PickList(picks) ==> Normalize(q.playerId) in r
    ensures forall k :: k in r ==> exists q :: q in PickList(picks) && Normalize(q.playerId) == k
  {
    set q | q in PickList(picks) :: Normalize(q.playerId)
  }

  /** The filter callback: neither the id nor the normalised name was picked. */
  function Unpicked(ids: set<string>, names: set<string>): Player -> bool {
    (pl: Player) => pl.id !in ids && Normalize(pl.displayName) !in names
  }

  /**
   * No pick claims `pl`: no raw reference equals its id, and no trimmed
   * lower-cased reference equals its trimmed lower-cased display name.
   */
  predicate Unclaimed(picks: Option<seq<Pick>>, pl: Player) {
    forall q :: q in PickList(picks) ==>
      q.playerId != pl.id && Normalize(q.playerId) != Normalize(pl.displayName)
  }

  /**
   * `players.filter(...)`: the catalog players that no pick claims, each as
   * often as the catalog lists it, in catalog order.
   */
  function Available(players: seq<Player>, picks: Option<seq<Pick>>): (r: seq<Player>)
    ensures |r| <= |players|
    ensures forall pl :: pl in r <==> pl in players && Unclaimed(picks, pl)
    ensures forall pl :: multiset(r)[pl] == if Unclaimed(picks, pl) then multiset(players)[pl] else 0
    ensures exists idx :: Embeds(r, players, idx)
  {
    var keep := Unpicked(PickedIds(picks), PickedNames(picks));
    FilterMultiset(players, keep);
    FilterInOrder(players, keep);
    Filter(players, keep)
  }

  /** The `counts` memo; `state` is `None` until the first poll has answered. */
  function ComputeCounts(players: seq<Player>, state: Option<DraftState>): (c: Counts)
    ensures state.None? ==> c == Counts(0, 0, 0)
    ensures state.Some? ==> c.totalPlayers == |players|
    ensures state.Some? ==> c.available == |Available(players, state.value.picks)|
    ensures c.available <= c.totalPlayers
    ensures state.Some? && state.value.teams.Some? ==> c.teams == |state.value.teams.value|
    ensures state.Some? && state.value.teams.None? ==> c.teams == 0
  {
    match state
    case None => Counts(0, 0, 0)
    case Some(s) =>
      var teams := match s.teams case Some(ts) => |ts| case None => 0;
      Counts(|players|, |Available(players, s.picks)|, teams)
  }

  /** With no picks, or a missing pick list, every catalog player is available. */
  lemma NoPicksAllAvailable(players: seq<Player>, s: DraftState)
    requires s.picks.None? || s.picks == Some([])
    ensures Available(players, s.picks) == players
    ensures ComputeCounts(players, Some(s)).available == |players|
  {
    FilterAll(players, Unpicked(PickedIds(s.picks), PickedNames(s.picks)));
  }

  /** Recording more picks never makes more players available. */
  lemma MorePicksFewerAvailable(players: seq<Player>, fewer: seq<Pick>, more: seq<Pick>)
    requires forall q :: q in fewer ==> q in more
    ensures |Available(players, Some(more))| <= |Available(players, Some(fewer))|
  {
    var strong := Unpicked(PickedIds(Some(more)), PickedNames(Some(more)));
    var weak := Unpicked(PickedIds(Some(fewer)), PickedNames(Some(fewer)));
    FilterWeaker(players, strong, weak);
  }

  /** In particular, appending one pick never raises the available count. */
  lemma AddPickNeverIncreases(players: seq<Player>, s: DraftState, q: Pick)
    ensures
      var after := s.(picks := Some(PickList(s.picks) + [q]));
      ComputeCounts(players, Some(after)).available <= ComputeCounts(players, Some(s)).available
  {
    var before := PickList(s.picks);
    MorePicksFewerAvailable(players, before, before + [q]);
    assert Available(players, s.picks) == Available(players, Some(before));
  }

  /**
   * Only the set of references matters: reordering the picks, repeating one,
   * or changing their team or number leaves the result unchanged.
   */
  lemma OnlyReferencesMatter(players: seq<Player>, a: seq<Pick>, b: seq<Pick>)
    requires (set q | q in a :: q.playerId) == (set q | q in b :: q.playerId)
    ensures Available(players, Some(a)) == Available(players, Some(b))
  {
    var refs := set q | q in a :: q.playerId;
    assert PickedIds(Some(a)) == refs == PickedIds(Some(b));
    assert PickedNames(Some(a)) == PickedNames(Some(b)) by {
      forall k | k in PickedNames(Some(a)) ensures k in PickedNames(Some(b)) {
        var q :| q in a && Normalize(q.playerId) == k;
        assert q.playerId in refs;
      }
      forall k | k in PickedNames(Some(b)) ensures k in PickedNames(Some(a)) {
        var q :| q in b && Normalize(q.playerId) == k;
        assert q.playerId in refs;
      }
    }
  }
}
