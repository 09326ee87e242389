/** Rank-role reconciliation.  A member should hold exactly one rank role,
    the one matching the rank of their best rating; `update_member_rank_role`
    removes every other rank role (and Purgatory, for ranks above Expert) and
    adds the target if it is missing, and `_update_ranks` applies that to
    every linked member of a guild after checking that all needed roles
    exist. */
module RankRoles {
  import opened Common
  import opened Codeforces

  /** `constants.TLE_PURGATORY` (tle/constants.py is not part of this model). */
  const Purgatory: string := "Purgatory"

  /** Ranks whose role keeps Purgatory; every other target role removes it. */
  const LowTiers: set<string> := {"Newbie", "Pupil", "Specialist", "Expert"}

  /** The role edits of one call: the names removed and the name added. */
  datatype Mutation = Mutation(removed: set<string>, added: Option<string>)

  predicate NoOp(d: Mutation)
  {
    d.removed == {} && d.added.None?
  }

  /** `role_names_to_remove`: all rank titles but the target, plus Purgatory
      for a target above Expert. */
  function RemovalSet(t: seq<Tier>, target: Option<string>): set<string>
  {
    if target.None? then RankTitles(t)
    else (RankTitles(t) - {target.value}) + (if target.value !in LowTiers then {Purgatory} else {})
  }

  /** The edits `update_member_rank_role` makes to a member holding `roles`:
      remove the held roles of the removal set, add the target if not held. */
  function RankRoleDiff(t: seq<Tier>, roles: set<string>, target: Option<string>): Mutation
  {
    Mutation(roles * RemovalSet(t, target),
             if target.Some? && target.value !in roles then target else None)
  }

  /** Remove, then add. */
  function Apply(roles: set<string>, d: Mutation): set<string>
  {
    (roles - d.removed) + (if d.added.Some? then {d.added.value} else {})
  }

  /** After the edits the member holds no rank role but the target, holds the
      target, has lost Purgatory if the target is above Expert, and keeps every
      other role as it was. */
  lemma DiffConverges(t: seq<Tier>, roles: set<string>, target: Option<string>)
    requires Purgatory !in RankTitles(t)
    requires target != Some(Purgatory)
    ensures var after := Apply(roles, RankRoleDiff(t, roles, target));
      && after * RankTitles(t) == (if target.Some? then {target.value} * RankTitles(t) else {})
      && (target.Some? ==> target.value in after)
      && (target.Some? && target.value !in LowTiers ==> Purgatory !in after)
      && (target.None? || target.value in LowTiers ==> (Purgatory in after <==> Purgatory in roles))
      && forall x :: x !in RankTitles(t) && x != Purgatory && target != Some(x) ==> (x in after <==> x in roles)
  {
  }

  /** A member already reconciled to `target` needs no edit: no remove call
      and no add call. */
  lemma DiffIdempotent(t: seq<Tier>, roles: set<string>, target: Option<string>)
    requires target != Some(Purgatory)
    ensures NoOp(RankRoleDiff(t, Apply(roles, RankRoleDiff(t, roles, target)), target))
  {
  }

  /** No edit is needed exactly when the member holds no role of the removal
      set and holds the target, if any. */
  lemma DiffNoOpIff(t: seq<Tier>, roles: set<string>, target: Option<string>)
    ensures NoOp(RankRoleDiff(t, roles, target)) <==>
              (roles * RemovalSet(t, target) == {} && (target.Some? ==> target.value in roles))
  {
  }

  /** The rating a member's role is chosen by: `maxRating` when truthy,
      otherwise the current rating. */
  function RoleRating(u: User): Option<int>
  {
    if u.maxRating.Some? && u.maxRating.value != 0 then u.maxRating else u.rating
  }

  /** The title of the role a user should hold, or None for no rank role. */
  function RoleTarget(t: seq<Tier>, u: User): (r: Option<string>)
    ensures r.Some? ==> r.value in RankTitles(t)
  {
    var rating := RoleRating(u);
    if rating.None? then None
    else
      var rank := RatingToRank(t, rating.value);
      if rank.Unrated? then None else Some(Title(t, rank))
  }

  /** Against a well-formed rank table: a user has a target exactly when their
      role rating (`maxRating` if truthy, else `rating`) exists and reaches the
      lowest bound, and the target is the title of the tier whose range holds
      that rating. */
  lemma RoleTargetIsRankTitle(t: seq<Tier>, u: User)
    requires ValidTable(t)
    ensures RoleTarget(t, u).Some? <==> RoleRating(u).Some? && t[0].lowerBound <= RoleRating(u).value
    ensures RoleTarget(t, u).Some? ==>
              exists i :: 0 <= i < |t| && RoleTarget(t, u).value == t[i].title
                && t[i].lowerBound <= RoleRating(u).value
                && (i + 1 < |t| ==> RoleRating(u).value < t[i + 1].lowerBound)
  {
    var rating := RoleRating(u);
    if rating.Some? {
      var rank := RatingToRank(t, rating.value);
      if rank.Rated? {
        var i := rank.index;
        assert t[0].lowerBound <= t[i].lowerBound;
        assert RoleTarget(t, u).value == t[i].title;
        assert i + 1 < |t| ==> rating.value < t[i + 1].lowerBound;
      } else {
        assert rating.value < t[0].lowerBound;
      }
    }
  }

  /** `required_roles`: the targets of all users, as the loop of
      `_update_ranks` collects them. */
  function RequiredRoles(t: seq<Tier>, users: seq<User>): (s: set<string>)
    ensures forall x :: x in s <==> exists i :: 0 <= i < |users| && RoleTarget(t, users[i]) == Some(x)
    decreases |users|
  {
    if users == [] then {}
    else
      var rest := RequiredRoles(t, users[..|users| - 1]);
      var target := RoleTarget(t, users[|users| - 1]);
      assert forall i :: 0 <= i < |users| - 1 ==> users[..|users| - 1][i] == users[i];
      rest + (if target.Some? then {target.value} else {})
  }

  // ---------------------------------------------------------------------------
  // The guild-wide pass as a function of the role state

  datatype RanksError = NoHandlesSet | HandleNotFound | MissingRoles(names: set<string>) | Forbidden(member: MemberId)

  /** Role state of a guild during a pass, and the outcome so far. */
  datatype RoleState = RoleState(members: map<MemberId, set<string>>, outcome: Result<seq<Mutation>, RanksError>)


  type Pair = (MemberId, Option<string>)

  /** One call of `update_member_rank_role`.  Discord rejects edits of a member
      the bot may not manage (Forbidden); the exception ends the pass. */
  function MemberStep(t: seq<Tier>, unmanageable: set<MemberId>, s: RoleState, pair: Pair): (r: RoleState)
    ensures r.members.Keys == s.members.Keys
    ensures s.outcome.Failure? ==> r == s
  {
    var (m, target) := pair;
    if s.outcome.Failure? || m !in s.members then s
    else
      var d := RankRoleDiff(t, s.members[m], target);
      if m in unmanageable && !NoOp(d) then RoleState(s.members, Failure(Forbidden(m)))
      else RoleState(s.members[m := Apply(s.members[m], d)], Success(s.outcome.value + [d]))
  }

  /** The member loop of `_update_ranks` from state `s`: it keeps the member
      set, and a failed pass stays as it failed. */
  function MembersRun(t: seq<Tier>, unmanageable: set<MemberId>, s: RoleState, pairs: seq<Pair>): (r: RoleState)
    ensures r.members.Keys == s.members.Keys
    ensures s.outcome.Failure? ==> r == s
    decreases |pairs|
  {
    if pairs == [] then s
    else MemberStep(t, unmanageable, MembersRun(t, unmanageable, s, pairs[..|pairs| - 1]), pairs[|pairs| - 1])
  }

  /** The linked pairs whose member is still in the guild, in order. */
  function PresentLinks(links: seq<Link>, present: set<MemberId>): (r: seq<Link>)
    ensures forall l :: l in r <==> l in links && l.0 in present
    ensures |r| <= |links|
  {
    if links == [] then []
    else
      var rest := PresentLinks(links[..|links| - 1], present);
      var last := links[|links| - 1];
      assert forall l :: l in links <==> l in links[..|links| - 1] || l == last;
      if last.0 in present then rest + [last] else rest
  }

  /** Each present link with the role its user should hold. */
  function Targets(t: seq<Tier>, pl: seq<Link>, info: map<Handle, User>): (r: seq<Pair>)
    requires forall i :: 0 <= i < |pl| ==> pl[i].1 in info
    ensures |r| == |pl|
    ensures forall i :: 0 <= i < |pl| ==> r[i] == (pl[i].0, RoleTarget(t, info[pl[i].1]))
  {
    seq(|pl|, i requires 0 <= i < |pl| => (pl[i].0, RoleTarget(t, info[pl[i].1])))
  }

  function UsersOf(pl: seq<Link>, info: map<Handle, User>): (r: seq<User>)
    requires forall i :: 0 <= i < |pl| ==> pl[i].1 in info
    ensures |r| == |pl|
    ensures forall i :: 0 <= i < |pl| ==> r[i] == info[pl[i].1]
  {
    seq(|pl|, i requires 0 <= i < |pl| => info[pl[i].1])
  }

  /** `cf.user.info` knows every handle of `pl`. */
  predicate KnownHandles(pl: seq<Link>, info: map<Handle, User>)
  {
    forall i :: 0 <= i < |pl| ==> pl[i].1 in info
  }

  /** The checks `_update_ranks` makes before editing anything: some linked
      member is present, `cf.user.info` (the map `info`) knows every handle,
      and every needed role exists; on success, the member/target pairs. */
  function Prepare(t: seq<Tier>, present: set<MemberId>, roleNames: set<string>,
                   links: seq<Link>, info: map<Handle, User>): (r: Result<seq<Pair>, RanksError>)
  {
    var pl := PresentLinks(links, present);
    if pl == [] then Failure(NoHandlesSet)
    else if !KnownHandles(pl, info) then Failure(HandleNotFound)
    else
      var missing := RequiredRoles(t, UsersOf(pl, info)) - roleNames;
      if missing != {} then Failure(MissingRoles(missing))
      else Success(Targets(t, pl, info))
  }

  /** `_update_ranks` as a function of the guild's role state. */
  function UpdateRanksSpec(t: seq<Tier>, members: map<MemberId, set<string>>, roleNames: set<string>,
                           unmanageable: set<MemberId>, links: seq<Link>, info: map<Handle, User>): (r: RoleState)
    ensures r.members.Keys == members.Keys
  {
    match Prepare(t, members.Keys, roleNames, links, info)
    case Failure(e) => RoleState(members, Failure(e))
    case Success(pairs) => MembersRun(t, unmanageable, RoleState(members, Success([])), pairs)
  }

  // ---------------------------------------------------------------------------
  // Lemmas about the pass

  ghost predicate DistinctPairs(pairs: seq<Pair>)
  {
    forall i, j :: 0 <= i < j < |pairs| ==> pairs[i].0 != pairs[j].0
  }

  /** Splitting the member list splits the loop. */
  lemma {:induction false} MembersRunAppend(t: seq<Tier>, u: set<MemberId>, s: RoleState, a: seq<Pair>, b: seq<Pair>)
    ensures MembersRun(t, u, s, a + b) == MembersRun(t, u, MembersRun(t, u, s, a), b)
    decreases |b|
  {
    if b == [] {
      assert a + b == a;
    } else {
      assert (a + b)[..|a + b| - 1] == a + b[..|b| - 1];
      assert (a + b)[|a + b| - 1] == b[|b| - 1];
      MembersRunAppend(t, u, s, a, b[..|b| - 1]);
    }
  }

  /** The loop leaves every member it does not visit as it was. */
  lemma {:induction false} MembersRunFrame(t: seq<Tier>, u: set<MemberId>, s: RoleState, pairs: seq<Pair>, m: MemberId)
    requires m in s.members
    requires forall i :: 0 <= i < |pairs| ==> pairs[i].0 != m
    ensures MembersRun(t, u, s, pairs).members[m] == s.members[m]
    decreases |pairs|
  {
    if pairs != [] {
      MembersRunFrame(t, u, s, pairs[..|pairs| - 1], m);
    }
  }

  /** A completed loop completed every prefix of itself. */
  lemma MembersRunPrefix(t: seq<Tier>, u: set<MemberId>, s: RoleState, pairs: seq<Pair>, k: nat)
    requires k <= |pairs|
    requires MembersRun(t, u, s, pairs).outcome.Success?
    ensures MembersRun(t, u, s, pairs[..k]).outcome.Success?
  {
    assert pairs == pairs[..k] + pairs[k..];
    MembersRunAppend(t, u, s, pairs[..k], pairs[k..]);
  }

  /** Members edited before the loop stopped keep their edits: when the first
      `k + 1` pairs went through, the member of pair `k` ends with its own diff
      applied, whatever happens to the pairs after it. */
  lemma MembersRunUpTo(t: seq<Tier>, u: set<MemberId>, s: RoleState, pairs: seq<Pair>, k: nat)
    requires DistinctPairs(pairs)
    requires k < |pairs| && pairs[k].0 in s.members
    requires MembersRun(t, u, s, pairs[..k + 1]).outcome.Success?
    ensures MembersRun(t, u, s, pairs).members[pairs[k].0]
              == Apply(s.members[pairs[k].0], RankRoleDiff(t, s.members[pairs[k].0], pairs[k].1))
  {
    var m := pairs[k].0;
    var q := pairs[..k + 1];
    var rest := pairs[k + 1..];
    MembersRunFirstVisit(t, u, s, pairs, k);
    var after := MembersRun(t, u, s, q);
    assert pairs == q + rest by {
      assert |q + rest| == |pairs|;
      forall i | 0 <= i < |pairs| ensures (q + rest)[i] == pairs[i] {
      }
    }
    MembersRunAppend(t, u, s, q, rest);
    forall i | 0 <= i < |rest| ensures rest[i].0 != m {
      assert rest[i] == pairs[k + 1 + i];
    }
    MembersRunFrame(t, u, after, rest, m);
  }

  /** A completed loop has made one edit per member. */
  lemma {:induction false} MembersRunLength(t: seq<Tier>, u: set<MemberId>, s: RoleState, pairs: seq<Pair>)
    requires forall i :: 0 <= i < |pairs| ==> pairs[i].0 in s.members
    requires MembersRun(t, u, s, pairs).outcome.Success?
    ensures |MembersRun(t, u, s, pairs).outcome.value| == |s.outcome.value| + |pairs|
    decreases |pairs|
  {
    if pairs != [] {
      MembersRunLength(t, u, s, pairs[..|pairs| - 1]);
    }
  }

  /** A member met for the first time at position `k` ends that step with its
      own diff applied, when the step succeeds. */
  lemma MembersRunFirstVisit(t: seq<Tier>, u: set<MemberId>, s: RoleState, pairs: seq<Pair>, k: nat)
    requires k < |pairs| && pairs[k].0 in s.members
    requires forall i :: 0 <= i < k ==> pairs[i].0 != pairs[k].0
    requires MembersRun(t, u, s, pairs[..k + 1]).outcome.Success?
    ensures MembersRun(t, u, s, pairs[..k + 1]).members[pairs[k].0]
              == Apply(s.members[pairs[k].0], RankRoleDiff(t, s.members[pairs[k].0], pairs[k].1))
  {
    var m := pairs[k].0;
    var q := pairs[..k + 1];
    assert q[..|q| - 1] == pairs[..k] && q[|q| - 1] == pairs[k];
    var before := MembersRun(t, u, s, pairs[..k]);
    assert MembersRun(t, u, s, q) == MemberStep(t, u, before, pairs[k]);
    forall i | 0 <= i < k ensures pairs[..k][i].0 != m {
      assert pairs[..k][i] == pairs[i];
    }
    MembersRunFrame(t, u, s, pairs[..k], m);
  }

  /** In a completed loop over distinct members, each visited member ends with
      its own diff applied to the roles it started with. */
  lemma MembersRunAt(t: seq<Tier>, u: set<MemberId>, s: RoleState, pairs: seq<Pair>, k: nat)
    requires DistinctPairs(pairs)
    requires k < |pairs| && pairs[k].0 in s.members
    requires MembersRun(t, u, s, pairs).outcome.Success?
    ensures MembersRun(t, u, s, pairs).members[pairs[k].0]
              == Apply(s.members[pairs[k].0], RankRoleDiff(t, s.members[pairs[k].0], pairs[k].1))
  {
    MembersRunPrefix(t, u, s, pairs, k + 1);
    MembersRunUpTo(t, u, s, pairs, k);
  }

  /** Convergence: after a completed loop over distinct members, each visited
      member holds its target and no other rank role. */
  lemma MembersRunConverges(t: seq<Tier>, u: set<MemberId>, s: RoleState, pairs: seq<Pair>, k: nat)
    requires Purgatory !in RankTitles(t)
    requires DistinctPairs(pairs)
    requires k < |pairs| && pairs[k].0 in s.members && pairs[k].1 != Some(Purgatory)
    requires MembersRun(t, u, s, pairs).outcome.Success?
    ensures var e := MembersRun(t, u, s, pairs).members;
      var (m, target) := pairs[k];
      && e[m] * RankTitles(t) == (if target.Some? then {target.value} * RankTitles(t) else {})
      && (target.Some? ==> target.value in e[m])
  {
    MembersRunAt(t, u, s, pairs, k);
    DiffConverges(t, s.members[pairs[k].0], pairs[k].1);
  }

  predicate AllNoOp(ds: seq<Mutation>)
  {
    forall i :: 0 <= i < |ds| ==> NoOp(ds[i])
  }

  /** A step whose edit is empty leaves the roles as they are and records
      the empty edit. */
  lemma NoOpStep(t: seq<Tier>, u: set<MemberId>, s: RoleState, m: MemberId, target: Option<string>)
    requires s.outcome.Success? && m in s.members
    requires NoOp(RankRoleDiff(t, s.members[m], target))
    ensures MemberStep(t, u, s, (m, target))
         == RoleState(s.members, Success(s.outcome.value + [RankRoleDiff(t, s.members[m], target)]))
  {
    var d := RankRoleDiff(t, s.members[m], target);
    assert Apply(s.members[m], d) == s.members[m];
    assert s.members[m := Apply(s.members[m], d)] == s.members;
  }

  /** The first `k` steps of a second run over a completed loop's result. */
  lemma {:induction false} SecondRunPrefix(t: seq<Tier>, u: set<MemberId>, s: RoleState, pairs: seq<Pair>, k: nat)
    requires DistinctPairs(pairs)
    requires forall i :: 0 <= i < |pairs| ==> pairs[i].0 in s.members && pairs[i].1 != Some(Purgatory)
    requires MembersRun(t, u, s, pairs).outcome.Success?
    requires k <= |pairs|
    ensures var first := MembersRun(t, u, s, pairs).members;
      var a := MembersRun(t, u, RoleState(first, Success([])), pairs[..k]);
      a.members == first && a.outcome.Success? && |a.outcome.value| == k && AllNoOp(a.outcome.value)
    decreases k
  {
    var first := MembersRun(t, u, s, pairs).members;
    var s1 := RoleState(first, Success([]));
    if k > 0 {
      SecondRunPrefix(t, u, s, pairs, k - 1);
      var mid := MembersRun(t, u, s1, pairs[..k - 1]);
      var (m, target) := pairs[k - 1];
      var q := pairs[..k];
      assert q[..|q| - 1] == pairs[..k - 1] && q[|q| - 1] == pairs[k - 1];
      MembersRunAt(t, u, s, pairs, k - 1);
      DiffIdempotent(t, s.members[m], target);
      var d := RankRoleDiff(t, first[m], target);
      NoOpStep(t, u, mid, m, target);
      var ds := mid.outcome.value + [d];
      assert MembersRun(t, u, s1, q) == RoleState(first, Success(ds));
      assert AllNoOp(ds) by {
        forall i | 0 <= i < |ds| ensures NoOp(ds[i]) {
          if i < |ds| - 1 {
            assert ds[i] == mid.outcome.value[i];
          }
        }
      }
    } else {
      assert pairs[..0] == [];
    }
  }

  /** Idempotence: running the loop again from the state a completed loop left
      behind succeeds and makes no edit at all. */
  lemma MembersRunIdempotent(t: seq<Tier>, u: set<MemberId>, s: RoleState, pairs: seq<Pair>)
    requires DistinctPairs(pairs)
    requires forall i :: 0 <= i < |pairs| ==> pairs[i].0 in s.members && pairs[i].1 != Some(Purgatory)
    requires MembersRun(t, u, s, pairs).outcome.Success?
    ensures var first := MembersRun(t, u, s, pairs).members;
      var again := MembersRun(t, u, RoleState(first, Success([])), pairs);
      && again.members == first
      && again.outcome.Success?
      && |again.outcome.value| == |pairs|
      && AllNoOp(again.outcome.value)
  {
    SecondRunPrefix(t, u, s, pairs, |pairs|);
    assert pairs[..|pairs|] == pairs;
  }

  ghost predicate DistinctLinks(links: seq<Link>)
  {
    forall i, j :: 0 <= i < j < |links| ==> links[i].0 != links[j].0
  }

  lemma {:induction false} PresentLinksDistinct(links: seq<Link>, present: set<MemberId>)
    requires DistinctLinks(links)
    ensures DistinctLinks(PresentLinks(links, present))
    decreases |links|
  {
    if links != [] {
      var prefix := links[..|links| - 1];
      PresentLinksDistinct(prefix, present);
      var rest := PresentLinks(prefix, present);
      var last := links[|links| - 1];
      forall i | 0 <= i < |rest| ensures rest[i].0 != last.0 {
        assert rest[i] in prefix;
        var j :| 0 <= j < |prefix| && prefix[j] == rest[i];
        assert links[j] == prefix[j];
      }
      if last.0 in present {
        var r := rest + [last];
        forall i, j | 0 <= i < j < |r| ensures r[i].0 != r[j].0 {
          if j < |rest| {
            assert r[i] == rest[i] && r[j] == rest[j];
          } else {
            assert r[i] == rest[i] && r[j] == last;
            assert rest[i].0 != last.0;
          }
        }
        assert PresentLinks(links, present) == r;
      }
    }
  }

  /** The roles needed by the users of the present links are the targets of
      those links. */
  lemma RequiredRolesOfLinks(t: seq<Tier>, pl: seq<Link>, info: map<Handle, User>)
    requires forall i :: 0 <= i < |pl| ==> pl[i].1 in info
    ensures forall x :: x in RequiredRoles(t, UsersOf(pl, info)) <==>
              exists l :: l in pl && l.1 in info && RoleTarget(t, info[l.1]) == Some(x)
  {
    var users := UsersOf(pl, info);
    forall x ensures x in RequiredRoles(t, users) <==> exists l :: l in pl && l.1 in info && RoleTarget(t, info[l.1]) == Some(x) {
      if x in RequiredRoles(t, users) {
        var i :| 0 <= i < |users| && RoleTarget(t, users[i]) == Some(x);
        assert pl[i] in pl;
      }
      if exists l :: l in pl && l.1 in info && RoleTarget(t, info[l.1]) == Some(x) {
        var l :| l in pl && l.1 in info && RoleTarget(t, info[l.1]) == Some(x);
        var i :| 0 <= i < |pl| && pl[i] == l;
        assert users[i] == info[l.1];
      }
    }
  }

  /** The checks before any edit: no present link, an unknown handle, or
      missing roles (exactly those needed and absent). */
  lemma PrepareFailures(t: seq<Tier>, present: set<MemberId>, roleNames: set<string>,
                        links: seq<Link>, info: map<Handle, User>)
    ensures var r := Prepare(t, present, roleNames, links, info);
      var pl := PresentLinks(links, present);
      && (r == Failure(NoHandlesSet) <==> pl == [])
      && (r == Failure(HandleNotFound) <==> pl != [] && exists l :: l in pl && l.1 !in info)
      && (r.Failure? ==> !r.error.Forbidden?)
      && (r.Failure? && r.error.MissingRoles? ==>
            forall x :: x in r.error.names <==>
              x !in roleNames && exists l :: l in pl && l.1 in info && RoleTarget(t, info[l.1]) == Some(x))
  {
    var pl := PresentLinks(links, present);
    if pl != [] && KnownHandles(pl, info) {
      RequiredRolesOfLinks(t, pl, info);
    } else if pl != [] {
      var i :| 0 <= i < |pl| && pl[i].1 !in info;
      assert pl[i] in pl;
    }
  }

  /** When the checks pass there is one pair per present link, each with the
      link's target, which is an existing role. */
  lemma PrepareSuccess(t: seq<Tier>, present: set<MemberId>, roleNames: set<string>,
                       links: seq<Link>, info: map<Handle, User>)
    requires Prepare(t, present, roleNames, links, info).Success?
    ensures var pairs := Prepare(t, present, roleNames, links, info).value;
      var pl := PresentLinks(links, present);
      && |pairs| == |pl|
      && forall i :: 0 <= i < |pl| ==>
           && pl[i].1 in info
           && pairs[i] == (pl[i].0, RoleTarget(t, info[pl[i].1]))
           && (pairs[i].1.Some? ==> pairs[i].1.value in roleNames)
  {
    var pl := PresentLinks(links, present);
    assert pl != [] && KnownHandles(pl, info);
    var users := UsersOf(pl, info);
    var required := RequiredRoles(t, users);
    assert required - roleNames == {};
    assert required <= roleNames by {
      forall x | x in required ensures x in roleNames {
        assert x !in required - roleNames;
      }
    }
    var pairs := Targets(t, pl, info);
    assert Prepare(t, present, roleNames, links, info) == Success(pairs);
    forall i | 0 <= i < |pl| && pairs[i].1.Some?
      ensures pairs[i].1.value in roleNames
    {
      assert users[i] == info[pl[i].1];
      assert RoleTarget(t, users[i]) == Some(pairs[i].1.value);
      assert pairs[i].1.value in required;
    }
  }

  /** `_update_ranks` fails with no edit when no linked member is present, when
      a handle is unknown, or when a needed role is missing; a Forbidden edit
      ends the pass on a member the bot may not manage (the members before it
      keep their edits, by `MembersRunUpTo`); a completed pass made one edit
      per present link. */
  lemma UpdateRanksErrors(t: seq<Tier>, members: map<MemberId, set<string>>, roleNames: set<string>,
                          unmanageable: set<MemberId>, links: seq<Link>, info: map<Handle, User>)
    ensures var e := UpdateRanksSpec(t, members, roleNames, unmanageable, links, info);
      var pl := PresentLinks(links, members.Keys);
      && (pl == [] <==> e.outcome == Failure(NoHandlesSet))
      && (e.outcome == Failure(HandleNotFound) <==> pl != [] && exists l :: l in pl && l.1 !in info)
      && (e.outcome.Failure? && !e.outcome.error.Forbidden? ==> e.members == members)
      && (e.outcome.Failure? && e.outcome.error.Forbidden? ==> e.outcome.error.member in unmanageable)
      && (e.outcome.Success? ==> |e.outcome.value| == |pl|)
  {
    PrepareFailures(t, members.Keys, roleNames, links, info);
    var p := Prepare(t, members.Keys, roleNames, links, info);
    if p.Success? {
      PrepareSuccess(t, members.Keys, roleNames, links, info);
      var s0 := RoleState(members, Success([]));
      var pl := PresentLinks(links, members.Keys);
      ForbiddenIsUnmanageable(t, unmanageable, s0, p.value);
      forall i | 0 <= i < |p.value| ensures p.value[i].0 in s0.members {
        assert pl[i] in pl;
      }
      if MembersRun(t, unmanageable, s0, p.value).outcome.Success? {
        MembersRunLength(t, unmanageable, s0, p.value);
      }
    }
  }

  lemma {:induction false} ForbiddenIsUnmanageable(t: seq<Tier>, u: set<MemberId>, s: RoleState, pairs: seq<Pair>)
    requires s.outcome.Success?
    ensures var e := MembersRun(t, u, s, pairs);
      e.outcome.Failure? ==> e.outcome.error.Forbidden? && e.outcome.error.member in u
    decreases |pairs|
  {
    if pairs != [] {
      ForbiddenIsUnmanageable(t, u, s, pairs[..|pairs| - 1]);
    }
  }

  /** The pairs of a pass name distinct present members (when each is
      linked once) and never target Purgatory. */
  lemma TargetPairs(t: seq<Tier>, links: seq<Link>, present: set<MemberId>, info: map<Handle, User>)
    requires Purgatory !in RankTitles(t)
    requires DistinctLinks(links)
    requires KnownHandles(PresentLinks(links, present), info)
    ensures var pairs := Targets(t, PresentLinks(links, present), info);
      && DistinctPairs(pairs)
      && forall i :: 0 <= i < |pairs| ==> pairs[i].0 in present && pairs[i].1 != Some(Purgatory)
  {
    var pl := PresentLinks(links, present);
    var pairs := Targets(t, pl, info);
    PresentLinksDistinct(links, present);
    forall i, j | 0 <= i < j < |pairs| ensures pairs[i].0 != pairs[j].0 {
      assert pairs[i].0 == pl[i].0 && pairs[j].0 == pl[j].0;
    }
    forall i | 0 <= i < |pairs| ensures pairs[i].0 in present && pairs[i].1 != Some(Purgatory) {
      assert pl[i] in pl;
    }
  }

  /** After a completed loop over the present links, each present linked
      member holds the role of their best rating and no other rank role. */
  lemma LinksConverge(t: seq<Tier>, u: set<MemberId>, members: map<MemberId, set<string>>,
                      links: seq<Link>, info: map<Handle, User>)
    requires Purgatory !in RankTitles(t)
    requires DistinctLinks(links)
    requires KnownHandles(PresentLinks(links, members.Keys), info)
    requires MembersRun(t, u, RoleState(members, Success([])),
                        Targets(t, PresentLinks(links, members.Keys), info)).outcome.Success?
    ensures var e := MembersRun(t, u, RoleState(members, Success([])),
                                Targets(t, PresentLinks(links, members.Keys), info)).members;
      forall l :: l in links && l.0 in members ==>
        && l.1 in info
        && var target := RoleTarget(t, info[l.1]);
        && e[l.0] * RankTitles(t) == (if target.Some? then {target.value} else {})
        && (target.Some? ==> target.value in e[l.0])
  {
    var pl := PresentLinks(links, members.Keys);
    var pairs := Targets(t, pl, info);
    var s0 := RoleState(members, Success([]));
    var e := MembersRun(t, u, s0, pairs).members;
    TargetPairs(t, links, members.Keys, info);
    forall l | l in links && l.0 in members
      ensures l.1 in info
      ensures var target := RoleTarget(t, info[l.1]);
            && e[l.0] * RankTitles(t) == (if target.Some? then {target.value} else {})
            && (target.Some? ==> target.value in e[l.0])
    {
      assert l in pl;
      var k :| 0 <= k < |pl| && pl[k] == l;
      var target := RoleTarget(t, info[l.1]);
      assert pairs[k] == (l.0, target);
      MembersRunConverges(t, u, s0, pairs, k);
      if target.Some? {
        assert {target.value} * RankTitles(t) == {target.value};
      }
    }
  }

  /** A successful pass is the member loop over the targets of the present
      links, and depends on the members only through who is present. */
  lemma SuccessfulPass(t: seq<Tier>, members: map<MemberId, set<string>>, roleNames: set<string>,
                       unmanageable: set<MemberId>, links: seq<Link>, info: map<Handle, User>)
    requires UpdateRanksSpec(t, members, roleNames, unmanageable, links, info).outcome.Success?
    ensures var pl := PresentLinks(links, members.Keys);
      && KnownHandles(pl, info)
      && Prepare(t, members.Keys, roleNames, links, info) == Success(Targets(t, pl, info))
      && UpdateRanksSpec(t, members, roleNames, unmanageable, links, info)
           == MembersRun(t, unmanageable, RoleState(members, Success([])), Targets(t, pl, info))
  {
  }

  /** After a successful `_update_ranks` every present linked member (each
      linked once) holds the role of their best rating and no other rank
      role; a second run then succeeds and edits nothing. */
  lemma UpdateRanksConverges(t: seq<Tier>, members: map<MemberId, set<string>>, roleNames: set<string>,
                             unmanageable: set<MemberId>, links: seq<Link>, info: map<Handle, User>)
    requires Purgatory !in RankTitles(t)
    requires DistinctLinks(links)
    requires UpdateRanksSpec(t, members, roleNames, unmanageable, links, info).outcome.Success?
    ensures var e := UpdateRanksSpec(t, members, roleNames, unmanageable, links, info);
      && (forall l :: l in links && l.0 in members ==>
            && l.1 in info
            && var target := RoleTarget(t, info[l.1]);
            && e.members[l.0] * RankTitles(t) == (if target.Some? then {target.value} else {})
            && (target.Some? ==> target.value in e.members[l.0]))
      && var again := UpdateRanksSpec(t, e.members, roleNames, unmanageable, links, info);
         again.members == e.members && again.outcome.Success? && AllNoOp(again.outcome.value)
  {
    var pl := PresentLinks(links, members.Keys);
    SuccessfulPass(t, members, roleNames, unmanageable, links, info);
    var pairs := Targets(t, pl, info);
    var s0 := RoleState(members, Success([]));
    var e := MembersRun(t, unmanageable, s0, pairs);
    TargetPairs(t, links, members.Keys, info);
    LinksConverge(t, unmanageable, members, links, info);
    MembersRunIdempotent(t, unmanageable, s0, pairs);
    assert e.members.Keys == members.Keys;
    assert UpdateRanksSpec(t, e.members, roleNames, unmanageable, links, info)
        == MembersRun(t, unmanageable, RoleState(e.members, Success([])), pairs);
  }

  /** `required_roles`, collected by the loop of `_update_ranks`. */
  method CollectRequiredRoles(t: seq<Tier>, users: seq<User>) returns (requiredRoles: set<string>)
    ensures requiredRoles == RequiredRoles(t, users)
  {
    requiredRoles := {};
    for i := 0 to |users|
      invariant requiredRoles == RequiredRoles(t, users[..i])
    {
      var target := RoleTarget(t, users[i]);
      if target.Some? {
        requiredRoles := requiredRoles + {target.value};
      }
      assert users[..i + 1] == users[..i] + [users[i]];
    }
    assert users[..|users|] == users;
  }

  // ---------------------------------------------------------------------------
  // The guild's role state

  /** A guild's members and their role names, the role names that exist, and
      the members whose roles the bot is not permitted to edit. */
  class Guild {
    const id: GuildId
    var members: map<MemberId, set<string>>
    var roleNames: set<string>
    var unmanageable: set<MemberId>

    constructor (id: GuildId, members: map<MemberId, set<string>>, roleNames: set<string>, unmanageable: set<MemberId>)
      ensures this.id == id && this.members == members
      ensures this.roleNames == roleNames && this.unmanageable == unmanageable
    {
      this.id := id;
      this.members := members;
      this.roleNames := roleNames;
      this.unmanageable := unmanageable;
    }

    /** `update_member_rank_role(member, role_to_assign)`: one remove call for
        the held roles of the removal set, one add call for a missing target;
        either call on a member the bot may not manage raises Forbidden. */
    method UpdateMemberRankRole(t: seq<Tier>, m: MemberId, target: Option<string>)
      returns (r: Result<Mutation, RanksError>)
      requires m in members
      modifies this`members
      ensures var d := RankRoleDiff(t, old(members)[m], target);
        if m in unmanageable && !NoOp(d) then r == Failure(Forbidden(m)) && members == old(members)
        else r == Success(d) && members == old(members)[m := Apply(old(members)[m], d)]
    {
      var roleNamesToRemove := RankTitles(t);
      if target.Some? {
        roleNamesToRemove := roleNamesToRemove - {target.value};
        if target.value !in LowTiers {
          roleNamesToRemove := roleNamesToRemove + {Purgatory};
        }
      }
      assert roleNamesToRemove == RemovalSet(t, target);
      var held := members[m];
      var toRemove := set x | x in held && x in roleNamesToRemove;
      assert toRemove == held * RemovalSet(t, target);
      if toRemove != {} {
        if m in unmanageable {
          return Failure(Forbidden(m));
        }
        members := members[m := held - toRemove];
      }
      var added: Option<string> := None;
      if target.Some? && target.value !in held {
        if m in unmanageable {
          return Failure(Forbidden(m));
        }
        members := members[m := members[m] + {target.value}];
        added := target;
      }
      assert members[m] == Apply(held, Mutation(toRemove, added));
      assert members == old(members)[m := members[m]];
      r := Success(Mutation(toRemove, added));
    }

    /** `_update_ranks(guild, res)` over the user table's pairs `links`, with
        `info` standing for `cf.user.info`. */
    method UpdateRanks(t: seq<Tier>, links: seq<Link>, info: map<Handle, User>)
      returns (r: Result<seq<Mutation>, RanksError>)
      modifies this`members
      ensures RoleState(members, r) == UpdateRanksSpec(t, old(members), roleNames, unmanageable, links, info)
    {
      var memberHandles := PresentLinks(links, members.Keys);
      if memberHandles == [] {
        return Failure(NoHandlesSet);
      }
      if exists i :: 0 <= i < |memberHandles| && memberHandles[i].1 !in info {
        assert !KnownHandles(memberHandles, info);
        return Failure(HandleNotFound);
      }
      var users := UsersOf(memberHandles, info);
      var requiredRoles := CollectRequiredRoles(t, users);
      var missing := requiredRoles - roleNames;
      if missing != {} {
        return Failure(MissingRoles(missing));
      }
      ghost var pairs := Targets(t, memberHandles, info);
      assert Prepare(t, members.Keys, roleNames, links, info) == Success(pairs);
      r := RankAll(t, memberHandles, users, pairs);
    }

    /** The member loop of `_update_ranks`. */
    method RankAll(t: seq<Tier>, memberHandles: seq<Link>, users: seq<User>, ghost pairs: seq<Pair>)
      returns (r: Result<seq<Mutation>, RanksError>)
      requires |users| == |memberHandles| == |pairs|
      requires forall i :: 0 <= i < |pairs| ==> pairs[i] == (memberHandles[i].0, RoleTarget(t, users[i]))
      requires forall i :: 0 <= i < |pairs| ==> pairs[i].0 in members
      modifies this`members
      ensures RoleState(members, r) == MembersRun(t, unmanageable, RoleState(old(members), Success([])), pairs)
    {
      ghost var s0 := RoleState(members, Success([]));
      var done: seq<Mutation> := [];
      for i := 0 to |memberHandles|
        invariant members.Keys == s0.members.Keys
        invariant MembersRun(t, unmanageable, s0, pairs[..i]) == RoleState(members, Success(done))
      {
        ghost var before := RoleState(members, Success(done));
        assert pairs[..i + 1][..i] == pairs[..i];
        assert MembersRun(t, unmanageable, s0, pairs[..i + 1]) == MemberStep(t, unmanageable, before, pairs[i]);
        var res := UpdateMemberRankRole(t, memberHandles[i].0, RoleTarget(t, users[i]));
        if res.Failure? {
          assert MembersRun(t, unmanageable, s0, pairs[..i + 1]) == RoleState(members, Failure(res.error));
          assert pairs == pairs[..i + 1] + pairs[i + 1..];
          MembersRunAppend(t, unmanageable, s0, pairs[..i + 1], pairs[i + 1..]);
          return Failure(res.error);
        }
        done := done + [res.value];
      }
      assert pairs[..|pairs|] == pairs;
      r := Success(done);
    }
  }
}
