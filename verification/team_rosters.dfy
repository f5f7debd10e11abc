/**
 * The `rosters` projection of the teams page (app/draft/teams/page.tsx): the
 * players each team has drafted, in pick order.
 */
module TeamRosters {
  import opened Maybe
  import opened JsText
  import opened Seqs
  import opened Draft
  import opened PickOrder

  /** `state.teams.forEach` on a missing team list throws a TypeError. */
  datatype Error = TeamsMissing

  type Rosters = map<string, seq<Player>>

  const IdOf: Player -> string := (p: Player) => p.id
  const NameKeyOf: Player -> string := (p: Player) => Normalize(p.displayName)

  /** No player after position `i` carries the same key as `players[i]`. */
  predicate LastWithKey(players: seq<Player>, key: Player -> string, i: nat)
    requires i < |players|
  {
    forall j :: i < j < |players| ==> key(players[j]) != key(players[i])
  }

  /**
   * `Object.fromEntries(players.map(p => [key(p), p]))`: every key of the
   * catalog maps to the LAST player carrying it, because later entries
   * overwrite earlier ones.
   */
  function IndexBy(players: seq<Player>, key: Player -> string): (m: map<string, Player>)
    ensures forall i :: 0 <= i < |players| ==> key(players[i]) in m
    ensures forall k :: k in m ==> key(m[k]) == k
    ensures forall i :: 0 <= i < |players| && LastWithKey(players, key, i) ==>
      m[key(players[i])] == players[i]
    decreases |players|
  {
    if players == [] then map[]
    else
      var n := |players| - 1;
      var init := players[..n];
      var last := players[n];
      var m := IndexBy(init, key)[key(last) := last];
      assert forall i :: 0 <= i < |players| ==> key(players[i]) in m by {
        forall i | 0 <= i < n ensures key(players[i]) in m {
          assert init[i] == players[i];
        }
      }
      assert forall i :: 0 <= i < |players| && LastWithKey(players, key, i) ==>
        m[key(players[i])] == players[i] by {
        forall i | 0 <= i < |players| && LastWithKey(players, key, i)
          ensures m[key(players[i])] == players[i]
        {
          if i < n {
            assert key(players[n]) != key(players[i]);
            assert init[i] == players[i];
            assert LastWithKey(init, key, i) by {
              forall j | i < j < |init| ensures key(init[j]) != key(init[i]) {
                assert init[j] == players[j];
              }
            }
          }
        }
      }
      m
  }

  /** Every value of the index is a catalog player. */
  lemma {:induction false} IndexByValues(players: seq<Player>, key: Player -> string, k: string)
    requires k in IndexBy(players, key)
    ensures IndexBy(players, key)[k] in players
    decreases |players|
  {
    var n := |players| - 1;
    if key(players[n]) != k {
      IndexByValues(players[..n], key, k);
    }
  }

  /**
   * `byId[key] || byName[key.toLowerCase()]` with `key` the trimmed
   * reference: an exact id match wins; otherwise the display name is
   * compared trimmed and lower-cased.
   */
  function Resolve(players: seq<Player>, ref: string): (r: Option<Player>)
    ensures r.Some? ==> r.value in players
  {
    var key := Trim(ref);
    var byId := IndexBy(players, IdOf);
    var byName := IndexBy(players, NameKeyOf);
    if key in byId then
      IndexByValues(players, IdOf, key);
      Some(byId[key])
    else if ToLower(key) in byName then
      IndexByValues(players, NameKeyOf, ToLower(key));
      Some(byName[ToLower(key)])
    else None
  }

  /** A reference whose trimmed form is some player's id resolves to a player with that id. */
  lemma ResolveById(players: seq<Player>, ref: string)
    requires exists p :: p in players && p.id == Trim(ref)
    ensures Resolve(players, ref).Some? && Resolve(players, ref).value.id == Trim(ref)
  {
    var key := Trim(ref);
    var byId := IndexBy(players, IdOf);
    var p :| p in players && p.id == key;
    var i :| 0 <= i < |players| && players[i] == p;
    assert IdOf(players[i]) == key;
    assert key in byId;
    assert IdOf(byId[key]) == key;
  }

  /** When no id matches, resolution is by normalised display name. */
  lemma ResolveByName(players: seq<Player>, ref: string)
    requires forall p :: p in players ==> p.id != Trim(ref)
    ensures Resolve(players, ref).Some? <==> exists p :: p in players && Normalize(p.displayName) == Normalize(ref)
    ensures Resolve(players, ref).Some? ==> Normalize(Resolve(players, ref).value.displayName) == Normalize(ref)
  {
    var key := Trim(ref);
    var byId := IndexBy(players, IdOf);
    var byName := IndexBy(players, NameKeyOf);
    if key in byId {
      IndexByValues(players, IdOf, key);
      assert false;
    }
    if ToLower(key) in byName {
      assert NameKeyOf(byName[ToLower(key)]) == ToLower(key);
    }
    if exists p :: p in players && Normalize(p.displayName) == Normalize(ref) {
      var p :| p in players && Normalize(p.displayName) == Normalize(ref);
      var i :| 0 <= i < |players| && players[i] == p;
      assert NameKeyOf(players[i]) == ToLower(key);
    }
  }

  /**
   * What resolution means: an exact match on the trimmed id wins; only when
   * no id matches is the normalised display name consulted, and then a
   * player is found exactly when some name matches.
   */
  lemma ResolveMeaning(players: seq<Player>, ref: string)
    ensures (exists p :: p in players && p.id == Trim(ref)) ==>
      Resolve(players, ref).Some? && Resolve(players, ref).value.id == Trim(ref)
    ensures (forall p :: p in players ==> p.id != Trim(ref)) ==>
      && (Resolve(players, ref).Some? <==> exists p :: p in players && Normalize(p.displayName) == Normalize(ref))
      && (Resolve(players, ref).Some? ==> Normalize(Resolve(players, ref).value.displayName) == Normalize(ref))
  {
    if exists p :: p in players && p.id == Trim(ref) {
      ResolveById(players, ref);
    } else {
      ResolveByName(players, ref);
    }
  }

  /** The player a pick contributes to its team's list, if it resolves. */
  function Contribution(players: seq<Player>, q: Pick): (r: seq<Player>)
    ensures |r| <= 1
  {
    match Resolve(players, q.playerId) case Some(p) => [p] case None => []
  }

  /** A contributed player is the one the pick's reference resolves to. */
  lemma ContributionResolves(players: seq<Player>, q: Pick, p: Player)
    requires p in Contribution(players, q)
    ensures Resolve(players, q.playerId) == Some(p)
  {
  }

  /** The players a list of picks resolves to, in list order; unresolved picks give nothing. */
  function Resolved(players: seq<Player>, picks: seq<Pick>): (r: seq<Player>)
    ensures |r| <= |picks|
    ensures forall p :: p in r ==> p in players
  {
    if picks == [] then []
    else
      Contribution(players, picks[0]) + Resolved(players, picks[1..])
  }

  /** Keeps the picks made by team `t`. */
  function OnTeam(t: string): Pick -> bool {
    (q: Pick) => q.teamId == t
  }

  /** The effect of one pick: its team's list, if the team has one, grows by the pick's contribution. */
  function Push(players: seq<Player>, acc: Rosters, q: Pick): (r: Rosters)
    ensures r.Keys == acc.Keys
  {
    if q.teamId in acc then acc[q.teamId := acc[q.teamId] + Contribution(players, q)] else acc
  }

  /** What one pick adds to team `t`'s list: its contribution when it is `t`'s pick, else nothing. */
  function Share(players: seq<Player>, q: Pick, t: string): seq<Player> {
    if q.teamId == t then Contribution(players, q) else []
  }

  /** Team `t`'s list after one pick: its old list followed by the pick's share. */
  lemma PushAt(players: seq<Player>, acc: Rosters, q: Pick, t: string)
    requires t in acc
    ensures Push(players, acc, q)[t] == acc[t] + Share(players, q, t)
  {
    if q.teamId != t {
      assert acc[t] + [] == acc[t];
    }
  }

  /**
   * The `forEach` over the sorted picks: each pick whose player resolves and
   * whose team already has a list appends that player to it.
   */
  function Place(players: seq<Player>, acc: Rosters, picks: seq<Pick>): (r: Rosters)
    ensures r.Keys == acc.Keys
  {
    if picks == [] then acc
    else Place(players, Push(players, acc, picks[0]), picks[1..])
  }

  lemma ResolvedCons(players: seq<Player>, q: Pick, rest: seq<Pick>)
    ensures Resolved(players, [q] + rest) == Contribution(players, q) + Resolved(players, rest)
  {
    assert ([q] + rest)[1..] == rest;
  }

  /** Team `t`'s resolved picks are the first pick's share followed by the rest's. */
  lemma ResolvedTeamCons(players: seq<Player>, picks: seq<Pick>, t: string)
    requires picks != []
    ensures Resolved(players, Filter(picks, OnTeam(t)))
         == Share(players, picks[0], t) + Resolved(players, Filter(picks[1..], OnTeam(t)))
  {
    var rest := Filter(picks[1..], OnTeam(t));
    if picks[0].teamId == t {
      FilterKeep(picks, OnTeam(t));
      ResolvedCons(players, picks[0], rest);
    } else {
      FilterDrop(picks, OnTeam(t));
      assert [] + Resolved(players, rest) == Resolved(players, rest);
    }
  }

  /** The inductive step of `PlaceAppends`, given the claim for the remaining picks. */
  lemma PlaceAppendsStep(players: seq<Player>, acc: Rosters, picks: seq<Pick>, t: string)
    requires t in acc && picks != []
    requires
      var next := Push(players, acc, picks[0]);
      Place(players, next, picks[1..])[t] == next[t] + Resolved(players, Filter(picks[1..], OnTeam(t)))
    ensures Place(players, acc, picks)[t] == acc[t] + Resolved(players, Filter(picks, OnTeam(t)))
  {
    var q := picks[0];
    var next := Push(players, acc, q);
    var share := Share(players, q, t);
    var rest := Resolved(players, Filter(picks[1..], OnTeam(t)));
    assert Place(players, acc, picks) == Place(players, next, picks[1..]);
    ResolvedTeamCons(players, picks, t);
    PushAt(players, acc, q, t);
    AppendAssoc(acc[t], share, rest);
  }

  /** Each team's list grows by the players its own picks resolve to, in pick order. */
  lemma {:induction false} PlaceAppends(players: seq<Player>, acc: Rosters, picks: seq<Pick>, t: string)
    requires t in acc
    ensures Place(players, acc, picks)[t] == acc[t] + Resolved(players, Filter(picks, OnTeam(t)))
  {
    if picks == [] {
      assert acc[t] + [] == acc[t];
    } else {
      PlaceAppends(players, Push(players, acc, picks[0]), picks[1..], t);
      PlaceAppendsStep(players, acc, picks, t);
    }
  }

  /** One step of the fold is one `push` guarded by `pl && map[pick.teamId]`. */
  lemma PushStep(players: seq<Player>, acc: Rosters, picks: seq<Pick>)
    requires picks != []
    ensures
      var q := picks[0];
      var pl := Resolve(players, q.playerId);
      var next := if pl.Some? && q.teamId in acc then acc[q.teamId := acc[q.teamId] + [pl.value]] else acc;
      Place(players, acc, picks) == Place(players, next, picks[1..])
  {
    var q := picks[0];
    var c := Contribution(players, q);
    var folded := Push(players, acc, q);
    assert Place(players, acc, picks) == Place(players, folded, picks[1..]);
    match Resolve(players, q.playerId)
    case Some(pl) =>
      assert c == [pl];
    case None =>
      assert c == [];
      if q.teamId in acc {
        assert acc[q.teamId] + [] == acc[q.teamId];
      }
      assert folded == acc;
  }

  /**
   * The `forEach` as the page runs it, one pick at a time, pushing onto the
   * list of the pick's team; it builds the same rosters as the fold `Place`.
   */
  method PlaceEach(players: seq<Player>, seed: Rosters, sorted: seq<Pick>) returns (m: Rosters)
    ensures m == Place(players, seed, sorted)
  {
    m := seed;
    var i := 0;
    while i < |sorted|
      invariant 0 <= i <= |sorted|
      invariant Place(players, m, sorted[i..]) == Place(players, seed, sorted)
    {
      var q := sorted[i];
      var pl := Resolve(players, q.playerId);
      PushStep(players, m, sorted[i..]);
      if pl.Some? && q.teamId in m {
        m := m[q.teamId := m[q.teamId] + [pl.value]];
      }
      assert sorted[i..][1..] == sorted[i + 1..];
      i := i + 1;
    }
  }

  /** One empty list per team id, `state.teams.forEach(t => (map[t.id] = []))`. */
  function Seed(teams: seq<Team>): (m: Rosters)
    ensures m.Keys == TeamIds(teams)
    ensures forall k :: k in m ==> m[k] == []
  {
    map k | k in TeamIds(teams) :: []
  }

  /** The `rosters` memo; `state` is `None` until the first poll has answered. */
  function ComputeRosters(players: seq<Player>, state: Option<DraftState>): (r: Result<Rosters, Error>)
    ensures state.None? ==> r == Success(map[])
    ensures state.Some? && state.value.teams.None? ==> r == Failure(TeamsMissing)
    ensures state.Some? && state.value.teams.Some? ==>
      && r.Success?
      && r.value.Keys == TeamIds(state.value.teams.value)
      && forall t, p :: t in r.value && p in r.value[t] ==> p in players
  {
    match state
    case None => Success(map[])
    case Some(s) =>
      match s.teams
      case None => Failure(TeamsMissing)
      case Some(ts) =>
        var m := Place(players, Seed(ts), SortByPickNo(PickList(s.picks)));
        assert forall t, p :: t in m && p in m[t] ==> p in players by {
          forall t, p | t in m && p in m[t] ensures p in players {
            PlaceAppends(players, Seed(ts), SortByPickNo(PickList(s.picks)), t);
            assert [] + Resolved(players, Filter(SortByPickNo(PickList(s.picks)), OnTeam(t)))
                == Resolved(players, Filter(SortByPickNo(PickList(s.picks)), OnTeam(t)));
          }
        }
        Success(m)
  }

  /** The picks of team `t`, in the order the sorted `forEach` visits them. */
  function TeamPicks(picks: Option<seq<Pick>>, t: string): seq<Pick> {
    SortByPickNo(Filter(PickList(picks), OnTeam(t)))
  }

  /**
   * A team's roster is the players its own picks resolve to, taken in
   * ascending `pickNo` order, picks with equal numbers in input order.
   */
  lemma RosterOfTeam(players: seq<Player>, s: DraftState, t: string)
    requires s.teams.Some? && t in TeamIds(s.teams.value)
    ensures ComputeRosters(players, Some(s)).value[t] == Resolved(players, TeamPicks(s.picks, t))
    ensures Sorted(TeamPicks(s.picks, t))
    ensures multiset(TeamPicks(s.picks, t)) == multiset(Filter(PickList(s.picks), OnTeam(t)))
    ensures forall k :: Filter(TeamPicks(s.picks, t), Numbered(k))
                     == Filter(Filter(PickList(s.picks), OnTeam(t)), Numbered(k))
  {
    var ps := PickList(s.picks);
    var seed := Seed(s.teams.value);
    PlaceAppends(players, seed, SortByPickNo(ps), t);
    FilterSortCommute(ps, OnTeam(t));
    assert [] + Resolved(players, TeamPicks(s.picks, t)) == Resolved(players, TeamPicks(s.picks, t));
    forall k ensures Filter(TeamPicks(s.picks, t), Numbered(k))
                  == Filter(Filter(ps, OnTeam(t)), Numbered(k)) {
      SortStable(Filter(ps, OnTeam(t)), k);
    }
  }

  /** Unresolvable picks contribute nothing. */
  lemma {:induction false} ResolvedNone(players: seq<Player>, picks: seq<Pick>)
    requires forall i :: 0 <= i < |picks| ==> Resolve(players, picks[i].playerId).None?
    ensures Resolved(players, picks) == []
  {
    if picks != [] {
      ResolvedNone(players, picks[1..]);
    }
  }

  /** A team none of whose picks resolves keeps its empty list. */
  lemma TeamWithoutResolvedPicks(players: seq<Player>, s: DraftState, t: string)
    requires s.teams.Some? && t in TeamIds(s.teams.value)
    requires forall q :: q in PickList(s.picks) && q.teamId == t ==> Resolve(players, q.playerId).None?
    ensures ComputeRosters(players, Some(s)).value[t] == []
  {
    RosterOfTeam(players, s, t);
    var tp := TeamPicks(s.picks, t);
    var f := Filter(PickList(s.picks), OnTeam(t));
    forall i | 0 <= i < |tp| ensures Resolve(players, tp[i].playerId).None? {
      var q := tp[i];
      assert q in multiset(tp);
      assert q in f;
      assert q in PickList(s.picks) && OnTeam(t)(q);
    }
    ResolvedNone(players, tp);
  }

  /** A pick changes some roster exactly when its team is known and its player resolves. */
  function Contributes(players: seq<Player>, teamIds: set<string>): Pick -> bool {
    (q: Pick) => q.teamId in teamIds && Resolve(players, q.playerId).Some?
  }

  /** A pick that does not contribute leaves the rosters as they were. */
  lemma PushIgnored(players: seq<Player>, acc: Rosters, q: Pick)
    requires !Contributes(players, acc.Keys)(q)
    ensures Push(players, acc, q) == acc
  {
    if q.teamId in acc {
      assert Contribution(players, q) == [];
      assert acc[q.teamId] + [] == acc[q.teamId];
    }
  }

  lemma {:induction false} PlaceSkips(players: seq<Player>, acc: Rosters, picks: seq<Pick>)
    ensures Place(players, acc, Filter(picks, Contributes(players, acc.Keys))) == Place(players, acc, picks)
  {
    if picks != [] {
      var q := picks[0];
      var c := Contributes(players, acc.Keys);
      var rest := Filter(picks[1..], c);
      var next := Push(players, acc, q);
      PlaceSkips(players, next, picks[1..]);
      if c(q) {
        FilterKeep(picks, c);
        assert ([q] + rest)[1..] == rest;
      } else {
        FilterDrop(picks, c);
        PushIgnored(players, acc, q);
      }
    }
  }

  /**
   * Dropping every pick that names an unknown team or an unresolvable player
   * leaves the rosters unchanged: such picks are ignored without error.
   */
  lemma NonContributingPicksIgnored(players: seq<Player>, s: DraftState)
    requires s.teams.Some?
    ensures
      var kept := Filter(PickList(s.picks), Contributes(players, TeamIds(s.teams.value)));
      ComputeRosters(players, Some(s.(picks := Some(kept)))) == ComputeRosters(players, Some(s))
  {
    var seed := Seed(s.teams.value);
    var c := Contributes(players, seed.Keys);
    FilterSortCommute(PickList(s.picks), c);
    PlaceSkips(players, seed, SortByPickNo(PickList(s.picks)));
  }

  /**
   * With duplicate ids in the catalog, an id reference resolves to the last
   * player carrying that id.
   */
  lemma ResolveLastById(players: seq<Player>, ref: string, i: nat)
    requires i < |players| && players[i].id == Trim(ref)
    requires LastWithKey(players, IdOf, i)
    ensures Resolve(players, ref) == Some(players[i])
  {
    assert IdOf(players[i]) == Trim(ref);
  }

  /**
   * When no id matches, a name reference resolves to the last player whose
   * trimmed lower-cased display name equals the trimmed lower-cased reference.
   */
  lemma ResolveLastByName(players: seq<Player>, ref: string, i: nat)
    requires forall p :: p in players ==> p.id != Trim(ref)
    requires i < |players| && Normalize(players[i].displayName) == Normalize(ref)
    requires LastWithKey(players, NameKeyOf, i)
    ensures Resolve(players, ref) == Some(players[i])
  {
    assert Trim(ref) !in IndexBy(players, IdOf) by {
      if Trim(ref) in IndexBy(players, IdOf) {
        IndexByValues(players, IdOf, Trim(ref));
        assert false;
      }
    }
    assert NameKeyOf(players[i]) == ToLower(Trim(ref));
  }

  /** The number of players over all lists of a roster map. */
  ghost function TotalSize(m: Rosters): nat
    decreases |m|
  {
    if m == map[] then 0
    else
      var k :| k in m;
      |m[k]| + TotalSize(m - {k})
  }

  lemma {:induction false} TotalSizeRemove(m: Rosters, k: string)
    requires k in m
    ensures TotalSize(m) == |m[k]| + TotalSize(m - {k})
    decreases |m|
  {
    var k' :| k' in m && TotalSize(m) == |m[k']| + TotalSize(m - {k'});
    if k' != k {
      TotalSizeRemove(m - {k'}, k);
      TotalSizeRemove(m - {k}, k');
      assert m - {k'} - {k} == m - {k} - {k'};
    }
  }

  lemma {:induction false} TotalSizeEmpty(m: Rosters)
    requires forall k :: k in m ==> m[k] == []
    ensures TotalSize(m) == 0
    decreases |m|
  {
    if m != map[] {
      var k :| k in m && TotalSize(m) == |m[k]| + TotalSize(m - {k});
      TotalSizeEmpty(m - {k});
    }
  }

  lemma TotalSizeGrow(m: Rosters, k: string, extra: seq<Player>)
    requires k in m
    ensures TotalSize(m[k := m[k] + extra]) == TotalSize(m) + |extra|
  {
    var m' := m[k := m[k] + extra];
    TotalSizeRemove(m, k);
    TotalSizeRemove(m', k);
    assert m' - {k} == m - {k};
  }

  lemma {:induction false} PlaceTotal(players: seq<Player>, acc: Rosters, picks: seq<Pick>)
    ensures TotalSize(Place(players, acc, picks))
         == TotalSize(acc) + |Filter(picks, Contributes(players, acc.Keys))|
  {
    if picks != [] {
      var q := picks[0];
      var c := Contributes(players, acc.Keys);
      var next := Push(players, acc, q);
      PlaceTotal(players, next, picks[1..]);
      if c(q) {
        FilterKeep(picks, c);
        TotalSizeGrow(acc, q.teamId, Contribution(players, q));
      } else {
        FilterDrop(picks, c);
        PushIgnored(players, acc, q);
      }
    }
  }

  /**
   * The rosters hold exactly one entry per pick that names a known team and
   * resolves to a player, so never more entries than there are picks.
   */
  lemma RosterTotal(players: seq<Player>, s: DraftState)
    requires s.teams.Some?
    ensures
      var contributing := Filter(PickList(s.picks), Contributes(players, TeamIds(s.teams.value)));
      && TotalSize(ComputeRosters(players, Some(s)).value) == |contributing|
      && |contributing| <= |PickList(s.picks)|
  {
    var ps := PickList(s.picks);
    var seed := Seed(s.teams.value);
    var c := Contributes(players, seed.Keys);
    PlaceTotal(players, seed, SortByPickNo(ps));
    TotalSizeEmpty(seed);
    FilterSortCommute(ps, c);
    assert |SortByPickNo(Filter(ps, c))| == |multiset(SortByPickNo(Filter(ps, c)))| == |Filter(ps, c)|;
  }
}
