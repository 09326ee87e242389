/** `sync_achievements`: rebuild the achievement ledger of a guild's linked
    members from their rating histories, and reconcile each present member's
    rank role with their best rating on the way. */
module Sync {
  import opened Common
  import opened Codeforces
  import opened Achievements
  import opened RankRoles

  /** What the command reports: no handle for the requested member, no linked
      user at all, the four counters of a completed run, or the member whose
      role edit raised Forbidden (the exception ends the command). */
  datatype SyncOutcome =
    | NoHandleRegistered
    | NoUsers
    | Complete(synced: nat, rolesUpdated: nat, skipped: nat, failed: nat)
    | Aborted(member: MemberId)

  /** The ledger entry written for a member whose user record and history were
      fetched: the history's maximum and highest rank; with an empty history,
      the profile's best rating and its rank, when that is positive and rated. */
  function SyncRecord(t: seq<Tier>, handle: Handle, user: User, history: seq<RatingChange>): (r: Option<Record>)
    ensures r.Some? ==> r.value.handle == handle
    ensures |history| > 0 ==> r == Some(SeedFromHistory(t, handle, history))
    ensures |history| == 0 ==>
              (r.Some? <==> user.maxRating.Some? && user.maxRating.value > 0 && RatingToRank(t, user.maxRating.value).Rated?)
    ensures |history| == 0 && r.Some? ==> r.value.maxRating == user.maxRating.value
  {
    if |history| > 0 then Some(SeedFromHistory(t, handle, history))
    else if user.maxRating.Some? && user.maxRating.value > 0 then
      var rank := RatingToRank(t, user.maxRating.value);
      if rank.Rated? then Some(Record(handle, user.maxRating.value, Title(t, rank))) else None
    else None
  }

  /** Every entry the sync writes names the rank of its own maximum rating. */
  lemma SyncRecordConsistent(t: seq<Tier>, handle: Handle, user: User, history: seq<RatingChange>)
    requires ValidTable(t)
    ensures var r := SyncRecord(t, handle, user, history);
      r.Some? ==> r.value.highestRank == Title(t, RatingToRank(t, r.value.maxRating))
  {
  }

  /** The role the sync assigns: the role target, when a role of that name
      exists in the guild. */
  function SyncTarget(t: seq<Tier>, user: User, roleNames: set<string>): (r: Option<string>)
    ensures r.Some? ==> r.value in roleNames && r == RoleTarget(t, user)
    ensures r.None? ==> RoleTarget(t, user).None? || RoleTarget(t, user).value !in roleNames
  {
    var target := RoleTarget(t, user);
    if target.Some? && target.value in roleNames then target else None
  }

  /** The sync edits a member's roles only when there is a role to assign or
      the member holds some rank role. */
  predicate NeedsRoleUpdate(t: seq<Tier>, roles: set<string>, target: Option<string>)
  {
    target.Some? || roles * RankTitles(t) != {}
  }

  /** The ledger, the guild's roles, the counters, and the member whose edit
      was refused, if any. */
  datatype SyncState = SyncState(records: map<LedgerKey, Record>, members: map<MemberId, set<string>>,
                                 synced: nat, rolesUpdated: nat, skipped: nat, failed: nat,
                                 aborted: Option<MemberId>)

  /** The ledger half of an iteration for a fetched pair: write the computed
      entry and count the pair as synced, or count it as skipped. */
  function LedgerStep(t: seq<Tier>, guild: GuildId, user: User, history: seq<RatingChange>,
                      s: SyncState, link: Link): (r: SyncState)
    ensures r.members == s.members && r.aborted == s.aborted && r.rolesUpdated == s.rolesUpdated
    ensures r.failed == s.failed && r.synced + r.skipped == s.synced + s.skipped + 1
  {
    var rec := SyncRecord(t, link.1, user, history);
    if rec.Some? then s.(records := s.records[(link.0, guild) := rec.value], synced := s.synced + 1)
    else s.(skipped := s.skipped + 1)
  }

  /** What the role half of an iteration does to the guild's roles. */
  datatype RoleEdit = Unchanged | Updated(members: map<MemberId, set<string>>) | Refused

  /** The role half of an iteration: reconcile a present member when there
      is a role to assign or a rank role to take away; the edit is refused for
      a member the bot may not manage. */
  function SyncRoleEdit(t: seq<Tier>, roleNames: set<string>, unmanageable: set<MemberId>, user: User,
                        members: map<MemberId, set<string>>, m: MemberId): (r: RoleEdit)
    ensures r.Updated? ==> r.members.Keys == members.Keys
    ensures r.Refused? ==> m in unmanageable
    ensures r.Updated? ==> m in members && r.members == members[m := Apply(members[m], RankRoleDiff(t, members[m], SyncTarget(t, user, roleNames)))]
  {
    if m !in members then Unchanged
    else
      var target := SyncTarget(t, user, roleNames);
      if !NeedsRoleUpdate(t, members[m], target) then Unchanged
      else
        var e := MemberStep(t, unmanageable, RoleState(members, Success([])), (m, target));
        if e.outcome.Failure? then Refused else Updated(e.members)
  }

  function RoleStep(t: seq<Tier>, roleNames: set<string>, unmanageable: set<MemberId>, user: User,
                    s: SyncState, m: MemberId): (r: SyncState)
    ensures r.records == s.records && r.members.Keys == s.members.Keys
    ensures r.synced == s.synced && r.skipped == s.skipped && r.failed == s.failed
    ensures s.rolesUpdated <= r.rolesUpdated <= s.rolesUpdated + 1
    ensures r.aborted.Some? ==> s.aborted.Some? || (r.aborted == Some(m) && m in unmanageable)
  {
    match SyncRoleEdit(t, roleNames, unmanageable, user, s.members, m)
    case Unchanged => s
    case Updated(ms) => s.(members := ms, rolesUpdated := s.rolesUpdated + 1)
    case Refused => s.(aborted := Some(m))
  }

  /** Whether both API calls for a handle succeed. */
  predicate Fetched(info: map<Handle, User>, ratings: map<Handle, seq<RatingChange>>, h: Handle)
  {
    h in info && h in ratings
  }

  /** One iteration of the loop.  `info` and `ratings` stand for `cf.user.info`
      and `cf.user.rating`; a handle missing from either is an API error, which
      counts as failed and changes nothing. */
  function SyncStep(t: seq<Tier>, guild: GuildId, roleNames: set<string>, unmanageable: set<MemberId>,
                    info: map<Handle, User>, ratings: map<Handle, seq<RatingChange>>,
                    s: SyncState, link: Link): (r: SyncState)
    ensures r.members.Keys == s.members.Keys
    ensures s.aborted.Some? ==> r == s
  {
    if s.aborted.Some? then s
    else if !Fetched(info, ratings, link.1) then s.(failed := s.failed + 1)
    else
      var user := info[link.1];
      RoleStep(t, roleNames, unmanageable, user, LedgerStep(t, guild, user, ratings[link.1], s, link), link.0)
  }

  function SyncRun(t: seq<Tier>, guild: GuildId, roleNames: set<string>, unmanageable: set<MemberId>,
                   info: map<Handle, User>, ratings: map<Handle, seq<RatingChange>>,
                   s: SyncState, links: seq<Link>): (r: SyncState)
    ensures r.members.Keys == s.members.Keys
    ensures s.aborted.Some? ==> r == s
    decreases |links|
  {
    if links == [] then s
    else SyncStep(t, guild, roleNames, unmanageable, info, ratings,
                  SyncRun(t, guild, roleNames, unmanageable, info, ratings, s, links[..|links| - 1]),
                  links[|links| - 1])
  }

  /** `get_handle(member, guild)`: the handle stored for a member, if any. */
  function HandleOf(links: seq<Link>, m: MemberId): (r: Option<Handle>)
    ensures r.Some? ==> (m, r.value) in links
    ensures r.None? <==> forall i :: 0 <= i < |links| ==> links[i].0 != m
  {
    if links == [] then None
    else if links[0].0 == m then Some(links[0].1)
    else
      var r := HandleOf(links[1..], m);
      assert forall i :: 1 <= i < |links| ==> links[i] == links[1..][i - 1];
      r
  }

  /** The pairs the command works on: the requested member's, or the guild's. */
  function SyncPairs(links: seq<Link>, only: Option<MemberId>): Result<seq<Link>, SyncOutcome>
  {
    if only.Some? then
      var h := HandleOf(links, only.value);
      if h.None? || h.value == "" then Failure(NoHandleRegistered) else Success([(only.value, h.value)])
    else if links == [] then Failure(NoUsers)
    else Success(links)
  }

  datatype SyncResult = SyncResult(records: map<LedgerKey, Record>, members: map<MemberId, set<string>>, outcome: SyncOutcome)

  /** `sync_achievements` as a function of the ledger and the guild's roles. */
  function SyncSpec(t: seq<Tier>, guild: GuildId, roleNames: set<string>, unmanageable: set<MemberId>,
                    records: map<LedgerKey, Record>, members: map<MemberId, set<string>>,
                    links: seq<Link>, only: Option<MemberId>,
                    info: map<Handle, User>, ratings: map<Handle, seq<RatingChange>>): SyncResult
  {
    match SyncPairs(links, only)
    case Failure(o) => SyncResult(records, members, o)
    case Success(pairs) =>
      var e := SyncRun(t, guild, roleNames, unmanageable, info, ratings,
                       SyncState(records, members, 0, 0, 0, 0, None), pairs);
      SyncResult(e.records, e.members,
                 if e.aborted.Some? then Aborted(e.aborted.value)
                 else Complete(e.synced, e.rolesUpdated, e.skipped, e.failed))
  }

  // ---------------------------------------------------------------------------
  // Lemmas

  /** The number of pairs whose API calls fail. */
  function Unfetched(info: map<Handle, User>, ratings: map<Handle, seq<RatingChange>>, links: seq<Link>): (n: nat)
    ensures n <= |links|
    decreases |links|
  {
    if links == [] then 0
    else Unfetched(info, ratings, links[..|links| - 1]) + (if Fetched(info, ratings, links[|links| - 1].1) then 0 else 1)
  }

  /** Splitting the pairs splits the loop. */
  lemma {:induction false} SyncRunAppend(t: seq<Tier>, guild: GuildId, roleNames: set<string>, unmanageable: set<MemberId>,
                                         info: map<Handle, User>, ratings: map<Handle, seq<RatingChange>>,
                                         s: SyncState, a: seq<Link>, b: seq<Link>)
    ensures SyncRun(t, guild, roleNames, unmanageable, info, ratings, s, a + b)
              == SyncRun(t, guild, roleNames, unmanageable, info, ratings,
                         SyncRun(t, guild, roleNames, unmanageable, info, ratings, s, a), b)
    decreases |b|
  {
    if b == [] {
      assert a + b == a;
    } else {
      assert (a + b)[..|a + b| - 1] == a + b[..|b| - 1];
      assert (a + b)[|a + b| - 1] == b[|b| - 1];
      SyncRunAppend(t, guild, roleNames, unmanageable, info, ratings, s, a, b[..|b| - 1]);
    }
  }

  /** Every pair is counted once, as synced, skipped or failed; failed are
      exactly the pairs whose API calls fail, and only the others can have had
      their roles updated. */
  lemma {:induction false} SyncRunCounts(t: seq<Tier>, guild: GuildId, roleNames: set<string>, unmanageable: set<MemberId>,
                                         info: map<Handle, User>, ratings: map<Handle, seq<RatingChange>>,
                                         s: SyncState, links: seq<Link>)
    requires s.aborted.None?
    ensures var e := SyncRun(t, guild, roleNames, unmanageable, info, ratings, s, links);
      e.aborted.None? ==>
        && e.synced + e.skipped + e.failed == s.synced + s.skipped + s.failed + |links|
        && e.failed == s.failed + Unfetched(info, ratings, links)
        && e.rolesUpdated - s.rolesUpdated <= (e.synced - s.synced) + (e.skipped - s.skipped)
    decreases |links|
  {
    if links != [] {
      SyncRunCounts(t, guild, roleNames, unmanageable, info, ratings, s, links[..|links| - 1]);
    }
  }

  /** The sync writes only the ledger keys of this guild's listed members. */
  lemma {:induction false} SyncRunFrame(t: seq<Tier>, guild: GuildId, roleNames: set<string>, unmanageable: set<MemberId>,
                                        info: map<Handle, User>, ratings: map<Handle, seq<RatingChange>>,
                                        s: SyncState, links: seq<Link>, k: LedgerKey)
    requires k.1 != guild || forall i :: 0 <= i < |links| ==> links[i].0 != k.0
    ensures var e := SyncRun(t, guild, roleNames, unmanageable, info, ratings, s, links);
      Lookup(e.records, k) == Lookup(s.records, k)
    decreases |links|
  {
    if links != [] {
      SyncRunFrame(t, guild, roleNames, unmanageable, info, ratings, s, links[..|links| - 1], k);
      assert links[|links| - 1].0 != k.0 || k.1 != guild;
    }
  }

  /** The sync edits only the roles of listed members: everyone else keeps
      their role set. */
  lemma {:induction false} SyncRunRolesFrame(t: seq<Tier>, guild: GuildId, roleNames: set<string>, unmanageable: set<MemberId>,
                                             info: map<Handle, User>, ratings: map<Handle, seq<RatingChange>>,
                                             s: SyncState, links: seq<Link>, m: MemberId)
    requires m in s.members
    requires forall i :: 0 <= i < |links| ==> links[i].0 != m
    ensures SyncRun(t, guild, roleNames, unmanageable, info, ratings, s, links).members[m] == s.members[m]
    decreases |links|
  {
    if links != [] {
      SyncRunRolesFrame(t, guild, roleNames, unmanageable, info, ratings, s, links[..|links| - 1], m);
      assert links[|links| - 1].0 != m;
    }
  }

  /** Under a well-formed rank table, every entry the sync leaves behind for
      the listed members names the rank of its maximum rating, if every entry
      did before. */
  ghost predicate ConsistentLedger(t: seq<Tier>, records: map<LedgerKey, Record>)
    requires ValidTable(t)
  {
    forall k :: k in records ==> records[k].highestRank == Title(t, RatingToRank(t, records[k].maxRating))
  }

  lemma {:induction false} SyncRunConsistent(t: seq<Tier>, guild: GuildId, roleNames: set<string>, unmanageable: set<MemberId>,
                                             info: map<Handle, User>, ratings: map<Handle, seq<RatingChange>>,
                                             s: SyncState, links: seq<Link>)
    requires ValidTable(t)
    requires ConsistentLedger(t, s.records)
    ensures ConsistentLedger(t, SyncRun(t, guild, roleNames, unmanageable, info, ratings, s, links).records)
    decreases |links|
  {
    if links != [] {
      var mid := SyncRun(t, guild, roleNames, unmanageable, info, ratings, s, links[..|links| - 1]);
      SyncRunConsistent(t, guild, roleNames, unmanageable, info, ratings, s, links[..|links| - 1]);
      var (m, h) := links[|links| - 1];
      if mid.aborted.None? && h in info && h in ratings {
        SyncRecordConsistent(t, h, info[h], ratings[h]);
      }
    }
  }

  /** A member fetched without error ends with the entry the sync computed
      from their data, and, when present and not refused, with the role edits
      of `update_member_rank_role`. */
  lemma SyncStepWrites(t: seq<Tier>, guild: GuildId, roleNames: set<string>, unmanageable: set<MemberId>,
                       info: map<Handle, User>, ratings: map<Handle, seq<RatingChange>>,
                       s: SyncState, m: MemberId, h: Handle)
    requires s.aborted.None? && h in info && h in ratings
    ensures var e := SyncStep(t, guild, roleNames, unmanageable, info, ratings, s, (m, h));
      var rec := SyncRecord(t, h, info[h], ratings[h]);
      && Lookup(e.records, (m, guild)) == (if rec.Some? then rec else Lookup(s.records, (m, guild)))
      && (e.aborted.None? && m in s.members && NeedsRoleUpdate(t, s.members[m], SyncTarget(t, info[h], roleNames)) ==>
            var target := SyncTarget(t, info[h], roleNames);
            e.members[m] == Apply(s.members[m], RankRoleDiff(t, s.members[m], target)))
      && (e.aborted.Some? ==> e.aborted == Some(m) && m in unmanageable)
  {
  }

  /** Over the whole run, with each member listed once: unless the run
      aborts, every pair whose API calls succeed ends with the ledger entry the
      sync computed from its data, or keeps the entry it had before the run
      when nothing is computed. */
  lemma SyncRunWrites(t: seq<Tier>, guild: GuildId, roleNames: set<string>, unmanageable: set<MemberId>,
                      info: map<Handle, User>, ratings: map<Handle, seq<RatingChange>>,
                      s: SyncState, links: seq<Link>, k: nat)
    requires s.aborted.None?
    requires DistinctMembers(links)
    requires k < |links| && Fetched(info, ratings, links[k].1)
    ensures var e := SyncRun(t, guild, roleNames, unmanageable, info, ratings, s, links);
      var (m, h) := links[k];
      var rec := SyncRecord(t, h, info[h], ratings[h]);
      e.aborted.None? ==>
        Lookup(e.records, (m, guild)) == (if rec.Some? then rec else Lookup(s.records, (m, guild)))
  {
    var (m, h) := links[k];
    var q := links[..k];
    var rest := links[k + 1..];
    var mid := SyncRun(t, guild, roleNames, unmanageable, info, ratings, s, q);
    var step := SyncStep(t, guild, roleNames, unmanageable, info, ratings, mid, links[k]);
    forall i | 0 <= i < |q| ensures q[i].0 != m {
      assert q[i] == links[i];
    }
    SyncRunFrame(t, guild, roleNames, unmanageable, info, ratings, s, q, (m, guild));
    assert links[..k + 1][..k] == q;
    assert SyncRun(t, guild, roleNames, unmanageable, info, ratings, s, links[..k + 1]) == step;
    assert links == links[..k + 1] + rest;
    SyncRunAppend(t, guild, roleNames, unmanageable, info, ratings, s, links[..k + 1], rest);
    forall i | 0 <= i < |rest| ensures rest[i].0 != m {
      assert rest[i] == links[k + 1 + i];
    }
    SyncRunFrame(t, guild, roleNames, unmanageable, info, ratings, step, rest, (m, guild));
    if mid.aborted.None? {
      SyncStepWrites(t, guild, roleNames, unmanageable, info, ratings, mid, m, h);
    }
  }

  /** The outcome of the command: a requested member without a handle, an
      empty table, or a run; a completed run counts every pair once. */
  lemma SyncOutcomes(t: seq<Tier>, guild: GuildId, roleNames: set<string>, unmanageable: set<MemberId>,
                     records: map<LedgerKey, Record>, members: map<MemberId, set<string>>,
                     links: seq<Link>, only: Option<MemberId>,
                     info: map<Handle, User>, ratings: map<Handle, seq<RatingChange>>)
    ensures var r := SyncSpec(t, guild, roleNames, unmanageable, records, members, links, only, info, ratings);
      && (r.outcome == NoHandleRegistered <==>
            only.Some? && (HandleOf(links, only.value).None? || HandleOf(links, only.value).value == ""))
      && (r.outcome == NoUsers <==> only.None? && links == [])
      && (r.outcome.NoHandleRegistered? || r.outcome.NoUsers? ==> r.records == records && r.members == members)
      && (r.outcome.Complete? && only.None? ==> r.outcome.synced + r.outcome.skipped + r.outcome.failed == |links|)
      && (r.outcome.Complete? && only.Some? ==> r.outcome.synced + r.outcome.skipped + r.outcome.failed == 1)
      && r.members.Keys == members.Keys
  {
    var p := SyncPairs(links, only);
    if p.Success? {
      SyncRunCounts(t, guild, roleNames, unmanageable, info, ratings, SyncState(records, members, 0, 0, 0, 0, None), p.value);
    }
  }

  /** `sync_achievements(ctx, member)` on the guild's user table `links`;
      `only` is the member argument. */
  method SyncAchievements(t: seq<Tier>, store: AchievementStore, guild: Guild, links: seq<Link>, only: Option<MemberId>,
                          info: map<Handle, User>, ratings: map<Handle, seq<RatingChange>>)
    returns (outcome: SyncOutcome)
    modifies store, guild`members
    ensures SyncResult(store.records, guild.members, outcome)
              == SyncSpec(t, guild.id, guild.roleNames, guild.unmanageable, old(store.records), old(guild.members),
                          links, only, info, ratings)
  {
    var pairs: seq<Link>;
    if only.Some? {
      var handle := HandleOf(links, only.value);
      if handle.None? || handle.value == "" {
        return NoHandleRegistered;
      }
      pairs := [(only.value, handle.value)];
    } else {
      pairs := links;
    }
    if pairs == [] {
      return NoUsers;
    }
    outcome := SyncLoop(t, store, guild, pairs, info, ratings);
  }

  /** The loop of `sync_achievements` over `pairs`. */
  method SyncLoop(t: seq<Tier>, store: AchievementStore, guild: Guild, pairs: seq<Link>,
                  info: map<Handle, User>, ratings: map<Handle, seq<RatingChange>>)
    returns (outcome: SyncOutcome)
    modifies store, guild`members
    ensures var e := SyncRun(t, guild.id, guild.roleNames, guild.unmanageable, info, ratings,
                             SyncState(old(store.records), old(guild.members), 0, 0, 0, 0, None), pairs);
      && store.records == e.records && guild.members == e.members
      && outcome == if e.aborted.Some? then Aborted(e.aborted.value) else Complete(e.synced, e.rolesUpdated, e.skipped, e.failed)
  {
    ghost var s0 := SyncState(store.records, guild.members, 0, 0, 0, 0, None);
    ghost var g, roleNames, unmanageable := guild.id, guild.roleNames, guild.unmanageable;
    var synced: nat, failed: nat, skipped: nat, rolesUpdated: nat := 0, 0, 0, 0;
    ghost var st := s0;
    for i := 0 to |pairs|
      invariant guild.roleNames == roleNames && guild.unmanageable == unmanageable
      invariant st == SyncRun(t, g, roleNames, unmanageable, info, ratings, s0, pairs[..i])
      invariant st == SyncState(store.records, guild.members, synced, rolesUpdated, skipped, failed, None)
    {
      assert pairs[..i + 1][..i] == pairs[..i];
      var aborted;
      synced, rolesUpdated, skipped, failed, aborted :=
        SyncPair(t, store, guild, pairs[i], info, ratings, synced, rolesUpdated, skipped, failed);
      st := SyncStep(t, g, roleNames, unmanageable, info, ratings, st, pairs[i]);
      if aborted {
        SyncRunStopsAt(t, g, roleNames, unmanageable, info, ratings, s0, pairs, i + 1);
        return Aborted(pairs[i].0);
      }
    }
    assert pairs[..|pairs|] == pairs;
    outcome := Complete(synced, rolesUpdated, skipped, failed);
  }

  /** Once the loop has aborted after the first `k` pairs, the rest change
      nothing. */
  lemma SyncRunStopsAt(t: seq<Tier>, guild: GuildId, roleNames: set<string>, unmanageable: set<MemberId>,
                       info: map<Handle, User>, ratings: map<Handle, seq<RatingChange>>,
                       s: SyncState, links: seq<Link>, k: nat)
    requires k <= |links|
    requires SyncRun(t, guild, roleNames, unmanageable, info, ratings, s, links[..k]).aborted.Some?
    ensures SyncRun(t, guild, roleNames, unmanageable, info, ratings, s, links)
         == SyncRun(t, guild, roleNames, unmanageable, info, ratings, s, links[..k])
  {
    assert links == links[..k] + links[k..];
    SyncRunAppend(t, guild, roleNames, unmanageable, info, ratings, s, links[..k], links[k..]);
  }

  /** The loop body for one (member, handle) pair: count an API failure, or
      write the ledger entry and reconcile the member's role; `aborted` is
      set when the role edit is refused. */
  method SyncPair(t: seq<Tier>, store: AchievementStore, guild: Guild, pair: Link,
                  info: map<Handle, User>, ratings: map<Handle, seq<RatingChange>>,
                  synced: nat, rolesUpdated: nat, skipped: nat, failed: nat)
    returns (synced': nat, rolesUpdated': nat, skipped': nat, failed': nat, aborted: bool)
    modifies store, guild`members
    ensures SyncStep(t, guild.id, guild.roleNames, guild.unmanageable, info, ratings,
                     SyncState(old(store.records), old(guild.members), synced, rolesUpdated, skipped, failed, None), pair)
         == SyncState(store.records, guild.members, synced', rolesUpdated', skipped', failed', if aborted then Some(pair.0) else None)
  {
    ghost var before := SyncState(store.records, guild.members, synced, rolesUpdated, skipped, failed, None);
    synced', rolesUpdated', skipped', failed', aborted := synced, rolesUpdated, skipped, failed, false;
    var (m, handle) := pair;
    if handle !in info || handle !in ratings {
      failed' := failed + 1;
      return;
    }
    var user := info[handle];
    var wrote := SyncLedger(t, store, guild.id, m, handle, user, ratings[handle]);
    if wrote {
      synced' := synced + 1;
    } else {
      skipped' := skipped + 1;
    }
    ghost var mid := LedgerStep(t, guild.id, user, ratings[handle], before, pair);
    assert mid == SyncState(store.records, guild.members, synced', rolesUpdated', skipped', failed', None);
    var edit := SyncMemberRole(t, guild, m, user);
    if edit.Refused? {
      aborted := true;
    } else if edit.Updated? {
      rolesUpdated' := rolesUpdated + 1;
    }
    assert SyncStep(t, guild.id, guild.roleNames, guild.unmanageable, info, ratings, before, pair)
        == RoleStep(t, guild.roleNames, guild.unmanageable, user, mid, m);
  }

  /** The ledger half of the loop body: write the entry computed from the
      history, or from the profile when the history is empty. */
  method SyncLedger(t: seq<Tier>, store: AchievementStore, guild: GuildId, m: MemberId, handle: Handle,
                    user: User, ratingChanges: seq<RatingChange>)
    returns (wrote: bool)
    modifies store
    ensures var rec := SyncRecord(t, handle, user, ratingChanges);
      && (wrote <==> rec.Some?)
      && store.records == if rec.Some? then old(store.records)[(m, guild) := rec.value] else old(store.records)
  {
    wrote := false;
    if |ratingChanges| > 0 {
      var maxRating := HistoryMax(ratingChanges);
      var highestRank := HighestRank(t, ratingChanges);
      store.UpdateUserAchievement(m, guild, handle, maxRating, Title(t, highestRank));
      wrote := true;
    } else if user.maxRating.Some? && user.maxRating.value > 0 {
      var rank := RatingToRank(t, user.maxRating.value);
      if rank.Rated? {
        store.UpdateUserAchievement(m, guild, handle, user.maxRating.value, Title(t, rank));
        wrote := true;
      }
    }
  }

  /** The role half of the loop body: pick the role of the member's best
      rating when the guild has it, and reconcile when there is a role to
      assign or a rank role to take away. */
  method SyncMemberRole(t: seq<Tier>, guild: Guild, m: MemberId, user: User) returns (edit: RoleEdit)
    modifies guild`members
    ensures edit == SyncRoleEdit(t, guild.roleNames, guild.unmanageable, user, old(guild.members), m)
    ensures guild.members == if edit.Updated? then edit.members else old(guild.members)
  {
    edit := Unchanged;
    if m in guild.members {
      var roleToAssign: Option<string> := None;
      var maxRating := RoleRating(user);
      if maxRating.Some? {
        var rank := RatingToRank(t, maxRating.value);
        if rank.Rated? && Title(t, rank) in guild.roleNames {
          roleToAssign := Some(Title(t, rank));
        }
      }
      assert roleToAssign == SyncTarget(t, user, guild.roleNames);
      if roleToAssign.Some? || guild.members[m] * RankTitles(t) != {} {
        var res := guild.UpdateMemberRankRole(t, m, roleToAssign);
        if res.Failure? {
          return Refused;
        }
        edit := Updated(guild.members);
      }
    }
  }
}
