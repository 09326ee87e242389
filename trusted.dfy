/** The Trusted role: the eligibility rule checked when a member reaches a
    rank above Expert (`maybe_add_trusted_role`), and the one-off
    `;handle grandfather` pass that grants the role to every long-standing
    member outside Purgatory. */
module Trusted {
  import opened Common
  import opened Codeforces
  import opened RankRoles

  /** `constants.TLE_TRUSTED` (tle/constants.py is not part of this model). */
  const Trusted: string := "Trusted"

  // ---------------------------------------------------------------------------
  // Eligibility from the rating history

  /** 2024-09-11 00:00 UTC as a Unix timestamp: the day before o1's release. */
  const TrustedCutoff: int := 1726012800

  /** The rating a change must reach to make its owner eligible. */
  const TrustedRating: int := 1900

  /** One change that makes its owner eligible: a new rating of 1900 or more,
      set before the cutoff. */
  predicate QualifyingChange(c: RatingChange)
  {
    c.newRating >= TrustedRating && c.updateTime < TrustedCutoff
  }

  /** The `any(...)` over the rating history. */
  function AnyQualifying(history: seq<RatingChange>): (b: bool)
    ensures b <==> exists i :: 0 <= i < |history| && QualifyingChange(history[i])
    decreases |history|
  {
    if history == [] then false
    else
      var last := history[|history| - 1];
      assert forall i :: 0 <= i < |history| - 1 ==> history[..|history| - 1][i] == history[i];
      AnyQualifying(history[..|history| - 1]) || QualifyingChange(last)
  }

  /** Only the changes set before the cutoff matter: appending later changes
      never makes or unmakes a member eligible. */
  lemma {:induction false} LateChangesIgnored(history: seq<RatingChange>, later: seq<RatingChange>)
    requires forall i :: 0 <= i < |later| ==> later[i].updateTime >= TrustedCutoff
    ensures AnyQualifying(history + later) == AnyQualifying(history)
  {
    var h := history + later;
    if AnyQualifying(h) {
      var i :| 0 <= i < |h| && QualifyingChange(h[i]);
      assert forall k :: |history| <= k < |h| ==> !QualifyingChange(h[k]) by {
        forall k | |history| <= k < |h| ensures !QualifyingChange(h[k]) {
          assert h[k] == later[k - |history|];
        }
      }
      assert history[i] == h[i];
    }
    if AnyQualifying(history) {
      var i :| 0 <= i < |history| && QualifyingChange(history[i]);
      assert h[i] == history[i];
    }
  }

  /** What `maybe_add_trusted_role` did: which early return it took, or
      whether the grant went through. */
  datatype TrustedCheck =
    | NoHandle            // no stored handle (or an empty one)
    | NoRole              // the guild has no Trusted role
    | AlreadyTrusted
    | HistoryUnavailable  // the rating-history request failed
    | NotEligible
    | Granted
    | GrantFailed         // Forbidden or another HTTP error, logged and swallowed

  /** `maybe_add_trusted_role(member)`: the step taken and the member's roles
      afterwards.  `history` is None when the request failed (NotFoundError or
      another API error); `editable` is false when the role edit raises. */
  function MaybeAddTrusted(handle: Option<Handle>, roleNames: set<string>, roles: set<string>,
                           history: Option<seq<RatingChange>>, editable: bool): (set<string>, TrustedCheck)
  {
    if handle.None? || handle.value == "" then (roles, NoHandle)
    else if Trusted !in roleNames then (roles, NoRole)
    else if Trusted in roles then (roles, AlreadyTrusted)
    else if history.None? then (roles, HistoryUnavailable)
    else if !AnyQualifying(history.value) then (roles, NotEligible)
    else if !editable then (roles, GrantFailed)
    else (roles + {Trusted}, Granted)
  }

  /** The role is granted exactly to a member with a non-empty handle who
      lacks it, in a guild that has it, whose history could be read and
      holds a change to 1900 or more before the cutoff, and whose roles the
      bot may edit; nothing else ever changes. */
  lemma MaybeAddTrustedSpec(handle: Option<Handle>, roleNames: set<string>, roles: set<string>,
                            history: Option<seq<RatingChange>>, editable: bool)
    ensures var (after, check) := MaybeAddTrusted(handle, roleNames, roles, history, editable);
      && (after == roles || after == roles + {Trusted})
      && (check == Granted <==> after != roles)
      && (check == Granted <==>
            && handle.Some? && handle.value != ""
            && Trusted in roleNames && Trusted !in roles
            && history.Some?
            && (exists i :: 0 <= i < |history.value| && QualifyingChange(history.value[i]))
            && editable)
  {
  }

  // ---------------------------------------------------------------------------
  // `;handle grandfather`

  /** 2025-04-21 00:00 UTC as a Unix timestamp: the day after o3's first
      contest. */
  const GrandfatherCutoff: int := 1745193600

  /** A member of the roster being processed, with their join time if known. */
  datatype Joined = Joined(member: MemberId, joinedAt: Option<int>)

  /** The counters of the summary message. */
  datatype Tally = Tally(processed: nat, added: nat, skippedPurgatory: nat, skippedJoinDate: nat,
                         skippedAlreadyTrusted: nat, httpFailures: nat)

  const NoCounts: Tally := Tally(0, 0, 0, 0, 0, 0)

  /** The guild's role sets while the roster is processed, the counters, and
      the member whose edit was refused (Forbidden), which stops the pass. */
  datatype GrandState = GrandState(members: map<MemberId, set<string>>, tally: Tally, stopped: Option<MemberId>)

  /** The roles a member is taken to hold.  Every roster entry is present in
      the guild; an absent one would be taken to hold no role. */
  function RolesOf(members: map<MemberId, set<string>>, m: MemberId): set<string>
  {
    if m in members then members[m] else {}
  }

  /** Joined strictly before the cutoff. */
  predicate JoinedEarly(j: Joined)
  {
    j.joinedAt.Some? && j.joinedAt.value < GrandfatherCutoff
  }

  /** One iteration of the member loop.  `failing` holds the members whose
      role edit fails with an HTTP error other than Forbidden. */
  function GrandStep(roleNames: set<string>, unmanageable: set<MemberId>, failing: set<MemberId>,
                     s: GrandState, j: Joined): (r: GrandState)
    ensures s.stopped.Some? ==> r == s
    ensures r.members.Keys == s.members.Keys
  {
    if s.stopped.Some? then s
    else
      var c := s.tally;
      var c1 := c.(processed := c.processed + 1);
      var roles := RolesOf(s.members, j.member);
      if Purgatory in roleNames && Purgatory in roles then s.(tally := c1.(skippedPurgatory := c.skippedPurgatory + 1))
      else if !JoinedEarly(j) then s.(tally := c1.(skippedJoinDate := c.skippedJoinDate + 1))
      else if Trusted in roles then s.(tally := c1.(skippedAlreadyTrusted := c.skippedAlreadyTrusted + 1))
      else if j.member in unmanageable then GrandState(s.members, c1, Some(j.member))
      else if j.member in failing then s.(tally := c1.(httpFailures := c.httpFailures + 1))
      else
        var members := if j.member in s.members then s.members[j.member := roles + {Trusted}] else s.members;
        GrandState(members, c1.(added := c.added + 1), None)
  }

  /** The member loop over a roster. */
  function GrandRun(roleNames: set<string>, unmanageable: set<MemberId>, failing: set<MemberId>,
                    s: GrandState, roster: seq<Joined>): (r: GrandState)
    ensures s.stopped.Some? ==> r == s
    ensures r.members.Keys == s.members.Keys
    decreases |roster|
  {
    if roster == [] then s
    else GrandStep(roleNames, unmanageable, failing,
                   GrandRun(roleNames, unmanageable, failing, s, roster[..|roster| - 1]), roster[|roster| - 1])
  }

  /** What the command reports: the missing-role error, the stop on a
      refused edit, or the summary (with the Purgatory line only when the
      guild has that role). */
  datatype GrandOutcome = NoTrustedRole | Stopped(member: MemberId) | Summary(tally: Tally, showsPurgatory: bool)

  function GrandfatherSpec(roleNames: set<string>, unmanageable: set<MemberId>, failing: set<MemberId>,
                           members: map<MemberId, set<string>>, roster: seq<Joined>)
    : (r: (GrandOutcome, map<MemberId, set<string>>))
    ensures r.1.Keys == members.Keys
  {
    if Trusted !in roleNames then (NoTrustedRole, members)
    else
      var s := GrandRun(roleNames, unmanageable, failing, GrandState(members, NoCounts, None), roster);
      (if s.stopped.Some? then Stopped(s.stopped.value) else Summary(s.tally, Purgatory in roleNames), s.members)
  }

  lemma {:induction false} GrandRunAppend(roleNames: set<string>, unmanageable: set<MemberId>, failing: set<MemberId>,
                                         s: GrandState, xs: seq<Joined>, ys: seq<Joined>)
    ensures GrandRun(roleNames, unmanageable, failing, s, xs + ys)
         == GrandRun(roleNames, unmanageable, failing, GrandRun(roleNames, unmanageable, failing, s, xs), ys)
    decreases |ys|
  {
    if ys == [] {
      assert xs + ys == xs;
    } else {
      assert (xs + ys)[..|xs + ys| - 1] == xs + ys[..|ys| - 1];
      assert (xs + ys)[|xs + ys| - 1] == ys[|ys| - 1];
      GrandRunAppend(roleNames, unmanageable, failing, s, xs, ys[..|ys| - 1]);
    }
  }

  /** The counters add up: each member processed lands in exactly one of
      granted, skipped for Purgatory, skipped for the join date, skipped as
      already trusted, and failed; without the Purgatory role nobody is
      skipped for it; and until the pass stops every roster entry is
      processed. */
  lemma {:induction false} GrandRunCounts(roleNames: set<string>, unmanageable: set<MemberId>, failing: set<MemberId>,
                                         members: map<MemberId, set<string>>, roster: seq<Joined>)
    ensures var s := GrandRun(roleNames, unmanageable, failing, GrandState(members, NoCounts, None), roster);
      && (s.stopped.None? ==> s.tally.processed == |roster|)
      && (s.stopped.None? ==>
            s.tally.processed == s.tally.added + s.tally.skippedPurgatory + s.tally.skippedJoinDate
                                 + s.tally.skippedAlreadyTrusted + s.tally.httpFailures)
      && s.tally.processed <= |roster|
      && (Purgatory !in roleNames ==> s.tally.skippedPurgatory == 0)
    decreases |roster|
  {
    if roster != [] {
      GrandRunCounts(roleNames, unmanageable, failing, members, roster[..|roster| - 1]);
    }
  }

  /** The pass only ever adds Trusted: each member ends with the roles they
      had, or those plus Trusted. */
  lemma {:induction false} GrandRunOnlyAddsTrusted(roleNames: set<string>, unmanageable: set<MemberId>,
                                                  failing: set<MemberId>, s: GrandState, roster: seq<Joined>, m: MemberId)
    requires m in s.members
    ensures var r := GrandRun(roleNames, unmanageable, failing, s, roster);
      r.members[m] == s.members[m] || r.members[m] == s.members[m] + {Trusted}
    decreases |roster|
  {
    if roster != [] {
      GrandRunOnlyAddsTrusted(roleNames, unmanageable, failing, s, roster[..|roster| - 1], m);
    }
  }

  /** A member whose roles changed is on the roster, joined before the
      cutoff, did not hold Trusted, and (when the guild has the role) was
      not in Purgatory. */
  lemma {:induction false} GrandRunGrantsEligible(roleNames: set<string>, unmanageable: set<MemberId>,
                                                 failing: set<MemberId>, s: GrandState, roster: seq<Joined>, m: MemberId)
    requires m in s.members
    ensures var r := GrandRun(roleNames, unmanageable, failing, s, roster);
      r.members[m] != s.members[m] ==>
        && Trusted !in s.members[m]
        && (Purgatory in roleNames ==> Purgatory !in s.members[m])
        && m !in unmanageable && m !in failing
        && exists i :: 0 <= i < |roster| && roster[i].member == m && JoinedEarly(roster[i])
    decreases |roster|
  {
    if roster != [] {
      var prefix := roster[..|roster| - 1];
      var j := roster[|roster| - 1];
      GrandRunGrantsEligible(roleNames, unmanageable, failing, s, prefix, m);
      GrandRunOnlyAddsTrusted(roleNames, unmanageable, failing, s, prefix, m);
      var mid := GrandRun(roleNames, unmanageable, failing, s, prefix);
      var r := GrandStep(roleNames, unmanageable, failing, mid, j);
      if r.members[m] != s.members[m] {
        if mid.members[m] != s.members[m] {
          var i :| 0 <= i < |prefix| && prefix[i].member == m && JoinedEarly(prefix[i]);
          assert roster[i] == prefix[i];
        } else {
          assert roster[|roster| - 1] == j;
        }
      }
    }
  }

  /** A roster entry that the pass must grant: the member joined before the
      cutoff, held neither Trusted nor (when the guild has the role)
      Purgatory before the pass, and the bot may edit their roles. */
  ghost predicate DueTrusted(roleNames: set<string>, unmanageable: set<MemberId>, failing: set<MemberId>,
                             members: map<MemberId, set<string>>, j: Joined)
  {
    && j.member in members
    && JoinedEarly(j)
    && Trusted !in members[j.member]
    && !(Purgatory in roleNames && Purgatory in members[j.member])
    && j.member !in unmanageable && j.member !in failing
  }

  /** The converse of `GrandRunGrantsEligible`: unless the pass stops, every
      roster entry due the role ends with Trusted. */
  lemma {:induction false} GrandRunGrantsAllDue(roleNames: set<string>, unmanageable: set<MemberId>,
                                               failing: set<MemberId>, members: map<MemberId, set<string>>,
                                               roster: seq<Joined>, i: nat)
    requires i < |roster|
    requires DueTrusted(roleNames, unmanageable, failing, members, roster[i])
    ensures var r := GrandRun(roleNames, unmanageable, failing, GrandState(members, NoCounts, None), roster);
      r.stopped.None? ==> Trusted in r.members[roster[i].member]
    decreases |roster|
  {
    var s0 := GrandState(members, NoCounts, None);
    var prefix := roster[..|roster| - 1];
    var m := roster[i].member;
    var mid := GrandRun(roleNames, unmanageable, failing, s0, prefix);
    GrandRunOnlyAddsTrusted(roleNames, unmanageable, failing, s0, prefix, m);
    if i < |prefix| {
      assert prefix[i] == roster[i];
      GrandRunGrantsAllDue(roleNames, unmanageable, failing, members, prefix, i);
    }
  }

  /** The members whose roles differ between two role maps. */
  ghost function ChangedMembers(before: map<MemberId, set<string>>, after: map<MemberId, set<string>>): set<MemberId>
  {
    set m | m in before && m in after && after[m] != before[m]
  }

  /** With every roster entry a member of the guild, `added` is the number of
      members whose roles the pass changed. */
  lemma {:induction false} GrandRunAdded(roleNames: set<string>, unmanageable: set<MemberId>, failing: set<MemberId>,
                                        members: map<MemberId, set<string>>, roster: seq<Joined>)
    requires forall i :: 0 <= i < |roster| ==> roster[i].member in members
    ensures var r := GrandRun(roleNames, unmanageable, failing, GrandState(members, NoCounts, None), roster);
      r.tally.added == |ChangedMembers(members, r.members)|
    decreases |roster|
  {
    var s0 := GrandState(members, NoCounts, None);
    if roster == [] {
      assert ChangedMembers(members, members) == {};
    } else {
      var prefix := roster[..|roster| - 1];
      var j := roster[|roster| - 1];
      assert forall i :: 0 <= i < |prefix| ==> prefix[i] == roster[i];
      GrandRunAdded(roleNames, unmanageable, failing, members, prefix);
      var mid := GrandRun(roleNames, unmanageable, failing, s0, prefix);
      var r := GrandStep(roleNames, unmanageable, failing, mid, j);
      var before := ChangedMembers(members, mid.members);
      if r.tally.added != mid.tally.added {
        GrandRunOnlyAddsTrusted(roleNames, unmanageable, failing, s0, prefix, j.member);
        assert ChangedMembers(members, r.members) == before + {j.member};
        assert j.member !in before;
      } else {
        assert r.members == mid.members;
      }
    }
  }

  /** The pass stops only at a roster member the bot may not edit. */
  lemma {:induction false} GrandRunStops(roleNames: set<string>, unmanageable: set<MemberId>, failing: set<MemberId>,
                                        members: map<MemberId, set<string>>, roster: seq<Joined>)
    ensures var s := GrandRun(roleNames, unmanageable, failing, GrandState(members, NoCounts, None), roster);
      s.stopped.Some? ==>
        s.stopped.value in unmanageable && exists i :: 0 <= i < |roster| && roster[i].member == s.stopped.value
    decreases |roster|
  {
    if roster != [] {
      var prefix := roster[..|roster| - 1];
      GrandRunStops(roleNames, unmanageable, failing, members, prefix);
      var mid := GrandRun(roleNames, unmanageable, failing, GrandState(members, NoCounts, None), prefix);
      if mid.stopped.Some? {
        var i :| 0 <= i < |prefix| && prefix[i].member == mid.stopped.value;
        assert roster[i] == prefix[i];
      }
    }
  }

  /** `grandfather`: grants Trusted to every roster member who joined before
      the cutoff, holds neither Purgatory nor Trusted, and whose edit
      succeeds (`GrandRunGrantsAllDue`, and its converse
      `GrandRunGrantsEligible`); a refused edit (Forbidden) stops the pass
      without a summary, keeping the grants made so far.  `roster` is `list(guild.members)` with
      the join times; `failing` the members whose edit fails with another
      HTTP error. */
  method Grandfather(guild: Guild, roster: seq<Joined>, failing: set<MemberId>) returns (r: GrandOutcome)
    modifies guild`members
    ensures (r, guild.members) == GrandfatherSpec(guild.roleNames, guild.unmanageable, failing, old(guild.members), roster)
  {
    if Trusted !in guild.roleNames {
      return NoTrustedRole;
    }
    var hasPurgatory := Purgatory in guild.roleNames;
    var added, skippedPurgatory, skippedAlreadyTrusted, skippedJoinDate, processed, httpFailures := 0, 0, 0, 0, 0, 0;
    ghost var s0 := GrandState(guild.members, NoCounts, None);
    for i := 0 to |roster|
      invariant GrandState(guild.members, Tally(processed, added, skippedPurgatory, skippedJoinDate,
                                                skippedAlreadyTrusted, httpFailures), None)
             == GrandRun(guild.roleNames, guild.unmanageable, failing, s0, roster[..i])
    {
      ghost var before := GrandState(guild.members, Tally(processed, added, skippedPurgatory, skippedJoinDate,
                                                          skippedAlreadyTrusted, httpFailures), None);
      assert roster[..i + 1][..i] == roster[..i];
      assert GrandRun(guild.roleNames, guild.unmanageable, failing, s0, roster[..i + 1])
          == GrandStep(guild.roleNames, guild.unmanageable, failing, before, roster[i]);
      var member := roster[i].member;
      processed := processed + 1;
      var roles := RolesOf(guild.members, member);
      if hasPurgatory && Purgatory in roles {
        skippedPurgatory := skippedPurgatory + 1;
      } else if roster[i].joinedAt.None? {
        skippedJoinDate := skippedJoinDate + 1;
      } else if roster[i].joinedAt.value >= GrandfatherCutoff {
        skippedJoinDate := skippedJoinDate + 1;
      } else if Trusted in roles {
        skippedAlreadyTrusted := skippedAlreadyTrusted + 1;
      } else if member in guild.unmanageable {
        GrandRunAppend(guild.roleNames, guild.unmanageable, failing, s0, roster[..i + 1], roster[i + 1..]);
        assert roster[..i + 1] + roster[i + 1..] == roster;
        return Stopped(member);
      } else if member in failing {
        httpFailures := httpFailures + 1;
      } else {
        if member in guild.members {
          guild.members := guild.members[member := roles + {Trusted}];
        }
        added := added + 1;
      }
    }
    assert roster[..|roster|] == roster;
    r := Summary(Tally(processed, added, skippedPurgatory, skippedJoinDate, skippedAlreadyTrusted, httpFailures),
                 hasPurgatory);
  }
}
