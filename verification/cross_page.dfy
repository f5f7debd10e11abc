/**
 * How the home page's available count and the teams page's rosters relate.
 * Both read the same pick references, but the home page compares the raw
 * reference with player ids while the teams page trims it first.
 */
module CrossPage {
  import opened Maybe
  import opened JsText
  import opened Seqs
  import opened Draft
  import opened PickOrder
  import opened HomeCounts
  import opened TeamRosters

  /** Every player in a resolved list is what some pick of the list resolves to. */
  lemma {:induction false} ResolvedFrom(players: seq<Player>, picks: seq<Pick>, p: Player)
    requires p in Resolved(players, picks)
    ensures exists q :: q in picks && Resolve(players, q.playerId) == Some(p)
  {
    var c := Contribution(players, picks[0]);
    assert Resolved(players, picks) == c + Resolved(players, picks[1..]);
    if p in c {
      ContributionResolves(players, picks[0], p);
      assert picks[0] in picks;
    } else {
      ResolvedFrom(players, picks[1..], p);
      var q :| q in picks[1..] && Resolve(players, q.playerId) == Some(p);
      assert q in picks;
    }
  }

  /** A reference resolves to a player through its trimmed id or its normalised name. */
  lemma ResolvedMeansClaimed(players: seq<Player>, ref: string, p: Player)
    requires Resolve(players, ref) == Some(p)
    ensures p.id == Trim(ref) || Normalize(p.displayName) == Normalize(ref)
  {
    if exists p' :: p' in players && p'.id == Trim(ref) {
      ResolveById(players, ref);
    } else {
      ResolveByName(players, ref);
    }
  }

  /**
   * When every pick reference is already trimmed, a player listed on any
   * team's roster is not counted as available on the home page.
   */
  lemma RosteredPlayersAreUnavailable(players: seq<Player>, s: DraftState, t: string, p: Player)
    requires s.teams.Some? && t in TeamIds(s.teams.value)
    requires forall q :: q in PickList(s.picks) ==> Trim(q.playerId) == q.playerId
    requires p in ComputeRosters(players, Some(s)).value[t]
    ensures p !in Available(players, s.picks)
  {
    RosterOfTeam(players, s, t);
    var tp := TeamPicks(s.picks, t);
    ResolvedFrom(players, tp, p);
    var q :| q in tp && Resolve(players, q.playerId) == Some(p);
    assert q in multiset(tp);
    assert q in Filter(PickList(s.picks), OnTeam(t));
    ResolvedMeansClaimed(players, q.playerId, p);
  }

  /** An id padded with one trimmable character on each side trims back to the id. */
  lemma TrimPadded(id: string, pad: char)
    requires id != [] && !IsTrimmable(id[0]) && !IsTrimmable(id[|id| - 1])
    requires IsTrimmable(pad)
    ensures Trim([pad] + id + [pad]) == id
  {
    var padded := [pad] + id + [pad];
    var right := id + [pad];
    assert padded[1..] == right;
    assert TrimStart(padded) == TrimStart(right);
    assert TrimStart(right) == right;
    assert right[..|right| - 1] == id;
    assert TrimEnd(right) == TrimEnd(id);
    assert TrimEnd(id) == id;
  }

  /** The reference " p1 " is the id "p1", already lower case, padded with spaces. */
  lemma PaddedReferenceShape(ref: string, id: string)
    requires ref == " p1 " && id == "p1"
    ensures ref == [' '] + id + [' ']
    ensures id != [] && !IsTrimmable(id[0]) && !IsTrimmable(id[|id| - 1])
    ensures ToLower(id) == id
  {
    assert LowerChar(id[0]) == id[0] && LowerChar(id[1]) == id[1];
  }

  /** The padded reference trims, and normalises, to the bare id. */
  lemma PaddedReferenceTrims(ref: string, id: string)
    requires ref == " p1 " && id == "p1"
    ensures Trim(ref) == id && Normalize(ref) == id && id != ref
  {
    PaddedReferenceShape(ref, id);
    TrimPadded(id, ' ');
    assert |ref| == |id| + 2;
  }

  /** A name starting with a capital letter normalises to something starting in lower case. */
  lemma NameNotReference(name: string, id: string)
    requires name == "Alice" && id == "p1"
    ensures Normalize(name) != id
  {
    assert TrimStart(name) == name by {
      assert !IsTrimmable(name[0]);
    }
    assert TrimEnd(name) == name by {
      assert !IsTrimmable(name[|name| - 1]);
    }
    assert Normalize(name)[0] == LowerChar(name[0]) == 'a' != id[0];
  }

  /** A player some pick of the list resolves to is in the resolved list. */
  lemma {:induction false} ResolvedIncludes(players: seq<Player>, picks: seq<Pick>, q: Pick, p: Player)
    requires q in picks && Resolve(players, q.playerId) == Some(p)
    ensures p in Resolved(players, picks)
  {
    var c := Contribution(players, picks[0]);
    assert Resolved(players, picks) == c + Resolved(players, picks[1..]);
    if picks[0] == q {
      assert c == [p];
    } else {
      assert q in picks[1..];
      ResolvedIncludes(players, picks[1..], q, p);
    }
  }

  /**
   * Without the trimmed-reference condition the two pages disagree. Take a
   * pick of team `t` whose trimmed reference is the id of `players[i]`, the
   * last player carrying that id. If no pick claims that player on the home
   * page's terms (so in particular the reference is not already trimmed),
   * the player is on `t`'s roster and still counted available.
   */
  lemma PaddedReferenceCountedTwice(players: seq<Player>, s: DraftState, t: string, q: Pick, i: nat)
    requires s.teams.Some? && t in TeamIds(s.teams.value)
    requires q in PickList(s.picks) && q.teamId == t
    requires i < |players| && players[i].id == Trim(q.playerId) && LastWithKey(players, IdOf, i)
    requires Unclaimed(s.picks, players[i])
    ensures players[i] in ComputeRosters(players, Some(s)).value[t]
    ensures players[i] in Available(players, s.picks)
  {
    ResolveLastById(players, q.playerId, i);
    RosterOfTeam(players, s, t);
    var tp := TeamPicks(s.picks, t);
    assert q in Filter(PickList(s.picks), OnTeam(t));
    assert q in multiset(tp);
    ResolvedIncludes(players, tp, q, players[i]);
  }

  lemma TeamListed(teams: seq<Team>, i: nat)
    requires i < |teams|
    ensures teams[i].id in TeamIds(teams)
  {
    assert teams[i] in teams;
  }

  /** The same disagreement on concrete values: the reference " p1 " for the player "p1". */
  lemma PaddedReferenceExample(ref: string, id: string, name: string, t: string)
    requires ref == " p1 " && id == "p1" && name == "Alice" && t == "t1"
    ensures
      var players := [Player(id, name)];
      var s := DraftState(Some([Team(t, "Tigers")]), Some([Pick(1, t, ref)]));
      && players[0] in ComputeRosters(players, Some(s)).value[t]
      && players[0] in Available(players, s.picks)
  {
    PaddedReferenceTrims(ref, id);
    NameNotReference(name, id);
    var teams := [Team(t, "Tigers")];
    TeamListed(teams, 0);
    var q := Pick(1, t, ref);
    var players := [Player(id, name)];
    var s := DraftState(Some(teams), Some([q]));
    assert Unclaimed(s.picks, players[0]) by {
      forall r | r in PickList(s.picks)
        ensures r.playerId != id && Normalize(r.playerId) != Normalize(name)
      {
        assert r == q;
      }
    }
    assert q in PickList(s.picks);
    PaddedReferenceCountedTwice(players, s, t, q, 0);
  }

  /** The reference "p1" is already trimmed and already lower case. */
  lemma PlainReferenceShape(ref: string)
    requires ref == "p1"
    ensures Trim(ref) == ref && Normalize(ref) == ref
  {
    assert TrimStart(ref) == ref by {
      assert !IsTrimmable(ref[0]);
    }
    assert TrimEnd(ref) == ref by {
      assert !IsTrimmable(ref[1]);
    }
    assert ToLower(ref) == ref by {
      assert LowerChar(ref[0]) == ref[0] && LowerChar(ref[1]) == ref[1];
    }
  }

  /**
   * The converse of `RosteredPlayersAreUnavailable` fails even for trimmed
   * references: the reference "p1" is the id of one player and the display
   * name of another. The home page counts both as picked, while the teams
   * page rosters only the player with that id.
   */
  lemma TrimmedReferenceConverseFails(players: seq<Player>, s: DraftState, ref: string, t: string)
    requires ref == "p1" && t == "t1"
    requires players == [Player(ref, "Alice"), Player("p2", ref)]
    requires s == DraftState(Some([Team(t, "Tigers")]), Some([Pick(1, t, ref)]))
    ensures Trim(ref) == ref
    ensures players[1] !in Available(players, s.picks)
    ensures s.teams.Some? && t in TeamIds(s.teams.value)
    ensures players[1] !in ComputeRosters(players, Some(s)).value[t]
  {
    PlainReferenceShape(ref);
    TeamListed(s.teams.value, 0);
    ClaimedByName(players, s.picks, ref);
    RosterOnlyById(players, s, ref, t);
    assert players[1] != players[0] by {
      assert players[1].id[1] != players[0].id[1];
    }
  }

  /** The pick "p1" claims the player named "p1" on the home page's terms. */
  lemma ClaimedByName(players: seq<Player>, picks: Option<seq<Pick>>, ref: string)
    requires |players| == 2 && players[1].displayName == ref && Normalize(ref) == ref
    requires picks.Some? && picks.value != [] && picks.value[0].playerId == ref
    ensures players[1] !in Available(players, picks)
  {
    assert picks.value[0] in PickList(picks);
    assert !Unclaimed(picks, players[1]);
  }

  /** In that draft the team's roster is the player with id "p1" alone. */
  lemma RosterOnlyById(players: seq<Player>, s: DraftState, ref: string, t: string)
    requires ref == "p1" && t == "t1" && Trim(ref) == ref
    requires players == [Player(ref, "Alice"), Player("p2", ref)]
    requires s == DraftState(Some([Team(t, "Tigers")]), Some([Pick(1, t, ref)]))
    requires t in TeamIds(s.teams.value)
    ensures ComputeRosters(players, Some(s)).value[t] == [players[0]]
  {
    var q := Pick(1, t, ref);
    assert LastWithKey(players, IdOf, 0) by {
      assert IdOf(players[1]) != IdOf(players[0]);
    }
    ResolveLastById(players, ref, 0);
    RosterOfTeam(players, s, t);
    FilterKeep([q], OnTeam(t));
    assert Filter([q], OnTeam(t)) == [q];
    assert SortByPickNo([q]) == [q];
    assert Resolved(players, [q]) == [players[0]];
  }
}
