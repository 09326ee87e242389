/** The achievement ledger: one stored record per (member, guild) holding the
    best rating and the highest rank title seen.  A batch of rating changes
    for one contest is checked member by member; a record is rewritten only
    when it gains a new maximum or a new rank, and that news is announced
    when the new rating is at least 1200.  The ledger can also be seeded from
    a user's whole rating history when a handle is linked or synchronised. */
module Achievements {
  import opened Common
  import opened Codeforces

  /** A stored achievement record. */
  datatype Record = Record(handle: Handle, maxRating: int, highestRank: string)

  type LedgerKey = (MemberId, GuildId)

  /** Ratings below this are never announced. */
  const AnnounceThreshold: int := 1200

  function Lookup(records: map<LedgerKey, Record>, k: LedgerKey): Option<Record>
  {
    if k in records then Some(records[k]) else None
  }

  /** `{change.handle: change for change in changes}`: one entry per handle
      that occurs in the batch. */
  function ChangeByHandle(changes: seq<RatingChange>): (m: map<Handle, RatingChange>)
    ensures m.Keys == set i | 0 <= i < |changes| :: changes[i].handle
  {
    if changes == [] then map[]
    else
      var last := changes[|changes| - 1];
      var m := ChangeByHandle(changes[..|changes| - 1]);
      assert forall i :: 0 <= i < |changes| - 1 ==> changes[..|changes| - 1][i] == changes[i];
      m[last.handle := last]
  }

  /** A handle's entry is its last change in the batch (later entries win). */
  lemma {:induction false} ChangeByHandleLast(changes: seq<RatingChange>, i: nat)
    requires i < |changes|
    requires forall j :: i < j < |changes| ==> changes[j].handle != changes[i].handle
    ensures ChangeByHandle(changes)[changes[i].handle] == changes[i]
  {
    var n := |changes| - 1;
    if i < n {
      var prefix := changes[..n];
      forall j | i < j < |prefix| ensures prefix[j].handle != prefix[i].handle {
        assert prefix[j] == changes[j];
      }
      ChangeByHandleLast(prefix, i);
    }
  }

  // ---------------------------------------------------------------------------
  // The rule for one member

  /** What one new rating means for a member's stored record: the two flags,
      the old values shown in the announcement, and the record written, if any. */
  datatype Assessment = Assessment(
    isNewMax: bool,
    isNewRank: bool,
    shownOldMax: int,
    newRank: string,
    shownOldRank: string,
    written: Option<Record>)

  /** The per-member step of `_check_and_update_achievements`, including the
      Python truthiness tests on the stored maximum (`old_max or new_rating`,
      `... if old_max else new_rating`), under which a stored 0 counts as absent. */
  function Assess(t: seq<Tier>, stored: Option<Record>, handle: Handle, newRating: int): Assessment
  {
    var newRank := Title(t, RatingToRank(t, newRating));
    var isNewMax := stored.None? || newRating > stored.value.maxRating;
    var shownOldMax :=
      if stored.None? || (isNewMax && stored.value.maxRating == 0) then newRating
      else stored.value.maxRating;
    var oldIdx := if stored.Some? then IndexOfTitle(t, stored.value.highestRank) else None;
    var newIdx := IndexOfTitle(t, newRank);
    var isNewRank := stored.None? || (oldIdx.Some? && newIdx.Some? && newIdx.value > oldIdx.value);
    var shownOldRank :=
      if stored.None? then UnratedTitle
      else if oldIdx.Some? && newIdx.Some? then stored.value.highestRank
      else if stored.value.highestRank != "" then stored.value.highestRank
      else UnratedTitle;
    var currentMax := if shownOldMax != 0 then Max(newRating, shownOldMax) else newRating;
    var currentRank := if isNewRank then newRank else stored.value.highestRank;
    Assessment(isNewMax, isNewRank, shownOldMax, newRank, shownOldRank,
               if isNewMax || isNewRank then Some(Record(handle, currentMax, currentRank)) else None)
  }

  /** The stored record after the step: the written one, or the old one kept. */
  function AfterAssess(stored: Option<Record>, a: Assessment): Option<Record>
  {
    if a.written.Some? then a.written else stored
  }

  /** `r2` is at least as good as `r1`: no lower maximum, and a rank that was in
      the table stays in it at no lower position. */
  predicate NoRegress(t: seq<Tier>, r1: Record, r2: Record)
  {
    && r1.maxRating <= r2.maxRating
    && (IndexOfTitle(t, r1.highestRank).Some? ==>
          IndexOfTitle(t, r2.highestRank).Some? &&
          IndexOfTitle(t, r1.highestRank).value <= IndexOfTitle(t, r2.highestRank).value)
  }

  /** The flags in terms of ranks: a new maximum exactly when nothing is stored
      or the rating beats the stored maximum; a new rank exactly when nothing is
      stored, or the stored title is in the table and the new rating's rank is
      strictly above it.  A record is written exactly when one flag is set. */
  lemma AssessFlags(t: seq<Tier>, stored: Option<Record>, handle: Handle, newRating: int)
    requires ValidTable(t)
    ensures var a := Assess(t, stored, handle, newRating);
      && (a.isNewMax <==> stored.None? || newRating > stored.value.maxRating)
      && (a.isNewRank <==>
            (stored.None? ||
             (IndexOfTitle(t, stored.value.highestRank).Some? &&
              Ordinal(RatingToRank(t, newRating)) > IndexOfTitle(t, stored.value.highestRank).value)))
      && (a.written.Some? <==> a.isNewMax || a.isNewRank)
      && a.newRank == Title(t, RatingToRank(t, newRating))
  {
    IndexOfRankTitle(t, RatingToRank(t, newRating));
  }

  /** What is written: the larger of the stored and the new rating (the new one
      when the stored maximum is 0 or absent), and the new rank title exactly
      when the rank is new, the stored title otherwise. */
  lemma AssessWritten(t: seq<Tier>, stored: Option<Record>, handle: Handle, newRating: int)
    ensures var a := Assess(t, stored, handle, newRating);
      a.written.Some? ==>
        && a.written.value.handle == handle
        && a.written.value.maxRating ==
             (if stored.None? || stored.value.maxRating == 0 then newRating
              else Max(stored.value.maxRating, newRating))
        && a.written.value.highestRank ==
             (if a.isNewRank then a.newRank else stored.value.highestRank)
  {
  }

  /** A stored record never regresses, provided the new rating is not negative
      (a stored maximum of 0 is falsy in the source, so a negative rating with
      a rank increase would overwrite it). */
  lemma AssessNoRegress(t: seq<Tier>, stored: Record, handle: Handle, newRating: int)
    requires newRating >= 0 || stored.maxRating != 0
    ensures var a := Assess(t, Some(stored), handle, newRating);
      NoRegress(t, stored, AfterAssess(Some(stored), a).value)
  {
  }

  /** Seeing the same rating again changes nothing and announces nothing. */
  lemma AssessIdempotent(t: seq<Tier>, stored: Option<Record>, handle: Handle, handle2: Handle, newRating: int)
    ensures var after := AfterAssess(stored, Assess(t, stored, handle, newRating));
      && after.Some?
      && var b := Assess(t, after, handle2, newRating);
      !b.isNewMax && !b.isNewRank && b.written.None?
  {
  }

  // ---------------------------------------------------------------------------
  // The pass over a guild's linked members

  /** One announcement queued for the rank-up channel. */
  datatype Achievement = Achievement(
    member: MemberId, handle: Handle, newRating: int, oldMax: int,
    newRank: string, oldRank: string, isNewMax: bool, isNewRank: bool)

  datatype PassState = PassState(records: map<LedgerKey, Record>, announced: seq<Achievement>)

  /** One iteration of the member loop: skip absent members and handles not in
      the batch, write when there is news, announce from 1200 up. */
  function Step(t: seq<Tier>, guild: GuildId, present: set<MemberId>, changes: map<Handle, RatingChange>,
                s: PassState, link: Link): PassState
  {
    var (m, h) := link;
    if m !in present || h !in changes then s
    else
      var r := changes[h].newRating;
      var a := Assess(t, Lookup(s.records, (m, guild)), h, r);
      if a.written.None? then s
      else
        PassState(
          s.records[(m, guild) := a.written.value],
          if r >= AnnounceThreshold
          then s.announced + [Achievement(m, h, r, a.shownOldMax, a.newRank, a.shownOldRank, a.isNewMax, a.isNewRank)]
          else s.announced)
  }

  /** The member loop from state `s` over `links`, in order. */
  function Run(t: seq<Tier>, guild: GuildId, present: set<MemberId>, changes: map<Handle, RatingChange>,
               s: PassState, links: seq<Link>): PassState
    decreases |links|
  {
    if links == [] then s
    else Step(t, guild, present, changes, Run(t, guild, present, changes, s, links[..|links| - 1]), links[|links| - 1])
  }

  /** `_check_and_update_achievements` as a function of the stored records. */
  function Pass(t: seq<Tier>, guild: GuildId, present: set<MemberId>, changes: map<Handle, RatingChange>,
                records: map<LedgerKey, Record>, links: seq<Link>): PassState
  {
    Run(t, guild, present, changes, PassState(records, []), links)
  }

  /** An announcement that the source may make for this batch: a present,
      linked member whose handle is in the batch, with news, at 1200 or more. */
  ghost predicate Announceable(present: set<MemberId>, changes: map<Handle, RatingChange>,
                               links: seq<Link>, a: Achievement)
  {
    && a.member in present
    && (a.member, a.handle) in links
    && a.handle in changes
    && a.newRating == changes[a.handle].newRating
    && a.newRating >= AnnounceThreshold
    && (a.isNewMax || a.isNewRank)
  }

  /** The record of key `k` can change only for a present member of this guild
      who is linked to a handle in the batch. */
  ghost predicate Touches(guild: GuildId, present: set<MemberId>, changes: map<Handle, RatingChange>,
                          links: seq<Link>, k: LedgerKey)
  {
    && k.1 == guild
    && k.0 in present
    && exists i :: 0 <= i < |links| && links[i].0 == k.0 && links[i].1 in changes
  }

  ghost predicate DistinctMembers(links: seq<Link>)
  {
    forall i, j :: 0 <= i < j < |links| ==> links[i].0 != links[j].0
  }

  ghost predicate NonNegativeRatings(changes: map<Handle, RatingChange>)
  {
    forall h :: h in changes ==> changes[h].newRating >= 0
  }

  /** Every record of `before` is still there in `after`, and has not regressed. */
  ghost predicate Dominates(t: seq<Tier>, before: map<LedgerKey, Record>, after: map<LedgerKey, Record>)
  {
    forall k :: k in before ==> k in after && NoRegress(t, before[k], after[k])
  }

  /** Announcements are only ever appended, and each new one is announceable. */
  lemma {:induction false} RunAnnouncements(t: seq<Tier>, guild: GuildId, present: set<MemberId>,
                                            changes: map<Handle, RatingChange>, s: PassState, links: seq<Link>)
    ensures var e := Run(t, guild, present, changes, s, links).announced;
      && |s.announced| <= |e| <= |s.announced| + |links|
      && e[..|s.announced|] == s.announced
      && forall i :: |s.announced| <= i < |e| ==> Announceable(present, changes, links, e[i])
    decreases |links|
  {
    if links != [] {
      var prefix := links[..|links| - 1];
      RunAnnouncements(t, guild, present, changes, s, prefix);
      var mid := Run(t, guild, present, changes, s, prefix);
      var e0 := mid.announced;
      forall i | |s.announced| <= i < |e0|
        ensures Announceable(present, changes, links, e0[i])
      {
        var a := e0[i];
        assert Announceable(present, changes, prefix, a);
        var k :| 0 <= k < |prefix| && prefix[k] == (a.member, a.handle);
        assert links[k] == (a.member, a.handle);
      }
      var (m, h) := links[|links| - 1];
      assert links[|links| - 1] in links;
      if m in present && h in changes {
        var r := changes[h].newRating;
        var a := Assess(t, Lookup(mid.records, (m, guild)), h, r);
        if a.written.Some? && r >= AnnounceThreshold {
          var x := Achievement(m, h, r, a.shownOldMax, a.newRank, a.shownOldRank, a.isNewMax, a.isNewRank);
          assert Run(t, guild, present, changes, s, links).announced == e0 + [x];
          assert Announceable(present, changes, links, x);
        }
      }
    }
  }

  /** Every announcement of a pass is announceable, and there are no more
      announcements than links. */
  lemma PassAnnouncements(t: seq<Tier>, guild: GuildId, present: set<MemberId>,
                          changes: map<Handle, RatingChange>, records: map<LedgerKey, Record>, links: seq<Link>)
    ensures var e := Pass(t, guild, present, changes, records, links).announced;
      && |e| <= |links|
      && forall a :: a in e ==> Announceable(present, changes, links, a)
  {
    RunAnnouncements(t, guild, present, changes, PassState(records, []), links);
  }

  /** The announcement the member of `link` earns from the ledger as it was
      before the pass: their handle is in the batch, the rating is 1200 or
      more, and `Assess` on their stored record writes; the figures are those
      `Assess` computes. */
  ghost predicate AnnouncedFor(t: seq<Tier>, guild: GuildId, present: set<MemberId>,
                               changes: map<Handle, RatingChange>, records: map<LedgerKey, Record>,
                               link: Link, a: Achievement)
  {
    var (m, h) := link;
    && m in present && h in changes
    && changes[h].newRating >= AnnounceThreshold
    && var x := Assess(t, Lookup(records, (m, guild)), h, changes[h].newRating);
       && x.written.Some?
       && a == Achievement(m, h, changes[h].newRating, x.shownOldMax, x.newRank, x.shownOldRank, x.isNewMax, x.isNewRank)
  }

  /** The announcement the member of `link` earns, if any. */
  ghost function EarnedBy(t: seq<Tier>, guild: GuildId, present: set<MemberId>,
                          changes: map<Handle, RatingChange>, records: map<LedgerKey, Record>, link: Link)
    : (e: seq<Achievement>)
    ensures |e| <= 1
    ensures forall a :: a in e <==> AnnouncedFor(t, guild, present, changes, records, link, a)
    ensures forall a :: a in e ==> a.member == link.0
  {
    var (m, h) := link;
    if m in present && h in changes && changes[h].newRating >= AnnounceThreshold then
      var x := Assess(t, Lookup(records, (m, guild)), h, changes[h].newRating);
      if x.written.Some?
      then [Achievement(m, h, changes[h].newRating, x.shownOldMax, x.newRank, x.shownOldRank, x.isNewMax, x.isNewRank)]
      else []
    else []
  }

  /** The announcements earned by `links` against the records before the
      pass, in link order. */
  ghost function Earned(t: seq<Tier>, guild: GuildId, present: set<MemberId>,
                        changes: map<Handle, RatingChange>, records: map<LedgerKey, Record>, links: seq<Link>)
    : seq<Achievement>
    decreases |links|
  {
    if links == [] then []
    else Earned(t, guild, present, changes, records, links[..|links| - 1])
         + EarnedBy(t, guild, present, changes, records, links[|links| - 1])
  }

  /** With each member linked once, the loop's announcements are the earned
      ones: an earlier iteration never touches a later member's record. */
  lemma {:induction false} PassEarned(t: seq<Tier>, guild: GuildId, present: set<MemberId>,
                                      changes: map<Handle, RatingChange>, records: map<LedgerKey, Record>, links: seq<Link>)
    requires DistinctMembers(links)
    ensures Pass(t, guild, present, changes, records, links).announced == Earned(t, guild, present, changes, records, links)
    decreases |links|
  {
    if links != [] {
      var prefix := links[..|links| - 1];
      var (m, h) := links[|links| - 1];
      PassEarned(t, guild, present, changes, records, prefix);
      var s0 := PassState(records, []);
      RunFrame(t, guild, present, changes, s0, prefix);
      assert !Touches(guild, present, changes, prefix, (m, guild)) by {
        forall i | 0 <= i < |prefix| ensures prefix[i].0 != m {
          assert prefix[i] == links[i];
        }
      }
    }
  }

  /** What `Earned` holds: for each member, at most one announcement, and
      exactly the ones `AnnouncedFor` describes. */
  lemma {:induction false} EarnedExact(t: seq<Tier>, guild: GuildId, present: set<MemberId>,
                                       changes: map<Handle, RatingChange>, records: map<LedgerKey, Record>, links: seq<Link>)
    requires DistinctMembers(links)
    ensures forall a :: a in Earned(t, guild, present, changes, records, links) <==>
              exists i :: 0 <= i < |links| && AnnouncedFor(t, guild, present, changes, records, links[i], a)
    ensures forall i, j :: 0 <= i < j < |Earned(t, guild, present, changes, records, links)| ==>
              Earned(t, guild, present, changes, records, links)[i].member
                != Earned(t, guild, present, changes, records, links)[j].member
    decreases |links|
  {
    if links != [] {
      var prefix := links[..|links| - 1];
      var last := links[|links| - 1];
      EarnedExact(t, guild, present, changes, records, prefix);
      var rest := Earned(t, guild, present, changes, records, prefix);
      var mine := EarnedBy(t, guild, present, changes, records, last);
      var e := Earned(t, guild, present, changes, records, links);
      assert e == rest + mine;
      assert forall i :: 0 <= i < |prefix| ==> prefix[i] == links[i];
      forall a | a in rest ensures a.member != last.0 {
        var i :| 0 <= i < |prefix| && AnnouncedFor(t, guild, present, changes, records, prefix[i], a);
      }
      forall a ensures a in e <==> exists i :: 0 <= i < |links| && AnnouncedFor(t, guild, present, changes, records, links[i], a) {
        if exists i :: 0 <= i < |links| && AnnouncedFor(t, guild, present, changes, records, links[i], a) {
          var i :| 0 <= i < |links| && AnnouncedFor(t, guild, present, changes, records, links[i], a);
          if i < |prefix| {
            assert AnnouncedFor(t, guild, present, changes, records, prefix[i], a);
          }
        }
      }
      forall i, j | 0 <= i < j < |e| ensures e[i].member != e[j].member {
        if j >= |rest| {
          assert e[i] in rest && e[j] in mine;
        } else {
          assert e[i] == rest[i] && e[j] == rest[j];
        }
      }
    }
  }

  /** With each member linked once, as the user table guarantees: an
      announcement is made exactly for a present linked member whose handle
      is in the batch, whose new rating is at least 1200, and whose stored
      record gains a new maximum or rank; it carries their handle, rating, old
      maximum and rank and flags as `Assess` computes them from the record
      stored before the pass; and no member is announced twice. */
  lemma PassAnnouncementsExact(t: seq<Tier>, guild: GuildId, present: set<MemberId>,
                               changes: map<Handle, RatingChange>, records: map<LedgerKey, Record>, links: seq<Link>)
    requires DistinctMembers(links)
    ensures var e := Pass(t, guild, present, changes, records, links).announced;
      && (forall a :: a in e <==>
            exists i :: 0 <= i < |links| && AnnouncedFor(t, guild, present, changes, records, links[i], a))
      && (forall i, j :: 0 <= i < j < |e| ==> e[i].member != e[j].member)
  {
    PassEarned(t, guild, present, changes, records, links);
    EarnedExact(t, guild, present, changes, records, links);
  }

  /** Records change only for members the batch touches; no record is removed. */
  lemma {:induction false} RunFrame(t: seq<Tier>, guild: GuildId, present: set<MemberId>,
                                    changes: map<Handle, RatingChange>, s: PassState, links: seq<Link>)
    ensures var e := Run(t, guild, present, changes, s, links).records;
      && s.records.Keys <= e.Keys
      && forall k :: !Touches(guild, present, changes, links, k) ==> Lookup(e, k) == Lookup(s.records, k)
    decreases |links|
  {
    if links != [] {
      var prefix := links[..|links| - 1];
      RunFrame(t, guild, present, changes, s, prefix);
      var last := links[|links| - 1];
      assert last.0 in present && last.1 in changes ==> Touches(guild, present, changes, links, (last.0, guild));
    }
  }

  /** Under non-negative ratings, a pass never lowers a stored maximum or rank. */
  lemma {:induction false} RunMonotone(t: seq<Tier>, guild: GuildId, present: set<MemberId>,
                                       changes: map<Handle, RatingChange>, s: PassState, links: seq<Link>)
    requires NonNegativeRatings(changes)
    ensures Dominates(t, s.records, Run(t, guild, present, changes, s, links).records)
    decreases |links|
  {
    if links != [] {
      var prefix := links[..|links| - 1];
      RunMonotone(t, guild, present, changes, s, prefix);
      var mid := Run(t, guild, present, changes, s, prefix);
      var (m, h) := links[|links| - 1];
      if m in present && h in changes && (m, guild) in mid.records {
        AssessNoRegress(t, mid.records[(m, guild)], h, changes[h].newRating);
      }
    }
  }

  /** Splitting the member list splits the loop. */
  lemma {:induction false} RunAppend(t: seq<Tier>, guild: GuildId, present: set<MemberId>,
                                     changes: map<Handle, RatingChange>, s: PassState, a: seq<Link>, b: seq<Link>)
    ensures Run(t, guild, present, changes, s, a + b)
         == Run(t, guild, present, changes, Run(t, guild, present, changes, s, a), b)
    decreases |b|
  {
    if b == [] {
      assert a + b == a;
    } else {
      assert (a + b)[..|a + b| - 1] == a + b[..|b| - 1];
      assert (a + b)[|a + b| - 1] == b[|b| - 1];
      RunAppend(t, guild, present, changes, s, a, b[..|b| - 1]);
    }
  }

  /** Re-delivering the same batch to the same linked members (each member
      linked once, as the user table guarantees) writes nothing and announces
      nothing. */
  lemma PassReplay(t: seq<Tier>, guild: GuildId, present: set<MemberId>,
                   changes: map<Handle, RatingChange>, records: map<LedgerKey, Record>, links: seq<Link>)
    requires DistinctMembers(links)
    ensures var first := Pass(t, guild, present, changes, records, links).records;
      Pass(t, guild, present, changes, first, links) == PassState(first, [])
  {
    var s0 := PassState(records, []);
    var first := Run(t, guild, present, changes, s0, links).records;
    var k := 0;
    while k < |links|
      invariant 0 <= k <= |links|
      invariant Run(t, guild, present, changes, PassState(first, []), links[..k]) == PassState(first, [])
    {
      var (m, h) := links[k];
      var here := Run(t, guild, present, changes, s0, links[..k]);
      var next := Run(t, guild, present, changes, s0, links[..k + 1]);
      assert links[..k + 1][..k] == links[..k];
      assert next == Step(t, guild, present, changes, here, links[k]);
      if m in present && h in changes {
        var r := changes[h].newRating;
        var stored := Lookup(here.records, (m, guild));
        var a := Assess(t, stored, h, r);
        assert Lookup(next.records, (m, guild)) == AfterAssess(stored, a);
        // The rest of the list does not mention member m, so its record stays.
        var rest := links[k + 1..];
        assert links == links[..k + 1] + rest;
        RunAppend(t, guild, present, changes, s0, links[..k + 1], rest);
        RunFrame(t, guild, present, changes, next, rest);
        assert !Touches(guild, present, changes, rest, (m, guild)) by {
          forall i | 0 <= i < |rest| ensures rest[i].0 != m {
            assert rest[i] == links[k + 1 + i];
          }
        }
        assert Lookup(first, (m, guild)) == AfterAssess(stored, a);
        AssessIdempotent(t, stored, h, h, r);
      }
      assert links[..k + 1] == links[..k] + [links[k]];
      k := k + 1;
    }
    assert links[..|links|] == links;
  }

  // ---------------------------------------------------------------------------
  // Seeding from a rating history

  /** `max(change.newRating for change in history)`. */
  function HistoryMax(history: seq<RatingChange>): (m: int)
    requires |history| > 0
    ensures exists i :: 0 <= i < |history| && history[i].newRating == m
    ensures forall i :: 0 <= i < |history| ==> history[i].newRating <= m
  {
    if |history| == 1 then history[0].newRating
    else Max(HistoryMax(history[..|history| - 1]), history[|history| - 1].newRating)
  }

  /** `[cf.rating2rank(change.newRating) for change in history]`. */
  function RanksAchieved(t: seq<Tier>, history: seq<RatingChange>): (rs: seq<Rank>)
    ensures |rs| == |history|
    ensures forall i :: 0 <= i < |history| ==> rs[i] == RatingToRank(t, history[i].newRating)
  {
    seq(|history|, i requires 0 <= i < |history| => RatingToRank(t, history[i].newRating))
  }

  /** `max(ranks, key=index-or-minus-one)`: Python's max keeps the first of
      equal keys, so a later rank replaces the best only when strictly higher. */
  function HighestOf(rs: seq<Rank>): (r: Rank)
    requires |rs| > 0
    ensures r in rs
    ensures forall i :: 0 <= i < |rs| ==> Ordinal(rs[i]) <= Ordinal(r)
  {
    if |rs| == 1 then rs[0]
    else
      var best := HighestOf(rs[..|rs| - 1]);
      assert forall i :: 0 <= i < |rs| - 1 ==> rs[..|rs| - 1][i] == rs[i];
      if Ordinal(rs[|rs| - 1]) > Ordinal(best) then rs[|rs| - 1] else best
  }

  function HighestRank(t: seq<Tier>, history: seq<RatingChange>): Rank
    requires |history| > 0
  {
    HighestOf(RanksAchieved(t, history))
  }

  /** The highest rank of a history is the rank of its highest rating, so a
      seeded record is consistent with itself. */
  lemma HighestRankIsRankOfMax(t: seq<Tier>, history: seq<RatingChange>)
    requires ValidTable(t)
    requires |history| > 0
    ensures HighestRank(t, history) == RatingToRank(t, HistoryMax(history))
  {
    var rs := RanksAchieved(t, history);
    var r := HighestOf(rs);
    var m := HistoryMax(history);
    var i :| 0 <= i < |history| && history[i].newRating == m;
    var j :| 0 <= j < |rs| && rs[j] == r;
    assert Ordinal(rs[i]) <= Ordinal(r);
    RankMonotone(t, history[j].newRating, m);
  }

  /** The record `sync_achievements` writes from a non-empty history. */
  function SeedFromHistory(t: seq<Tier>, handle: Handle, history: seq<RatingChange>): (r: Record)
    requires |history| > 0
    ensures forall i :: 0 <= i < |history| ==> history[i].newRating <= r.maxRating
    ensures exists i :: 0 <= i < |history| && history[i].newRating == r.maxRating
    ensures ValidTable(t) ==> r.highestRank == Title(t, RatingToRank(t, r.maxRating))
  {
    var r := Record(handle, HistoryMax(history), Title(t, HighestRank(t, history)));
    if ValidTable(t) then HighestRankIsRankOfMax(t, history); r else r
  }

  /** The record `_set` writes when a handle is linked, if any.  With a
      non-empty history (`history` is None when the API call failed) it is the
      history's maximum and highest rank; otherwise the user's best rating
      (or current rating, or 0) with the rank of the current rating.  Nothing
      is written when that rating is 0 or no title is known. */
  function SeedOnLink(t: seq<Tier>, user: User, history: Option<seq<RatingChange>>): (r: Option<Record>)
    ensures r.Some? ==> r.value.handle == user.handle && r.value.maxRating != 0 && r.value.highestRank != ""
    ensures history.Some? && |history.value| > 0 && ValidTable(t) && HistoryMax(history.value) != 0 ==>
              r == Some(SeedFromHistory(t, user.handle, history.value))
    ensures history.Some? && |history.value| > 0 && HistoryMax(history.value) == 0 ==> r.None?
    ensures (history.None? || |history.value| == 0) && ValidTable(t) ==>
              (r.Some? <==> UserRank(t, user).Rated? && FallbackMax(user) != 0)
    ensures (history.None? || |history.value| == 0) && r.Some? ==>
              r.value == Record(user.handle, FallbackMax(user), Title(t, UserRank(t, user)))
  {
    if history.Some? && |history.value| > 0 then
      var rec := SeedFromHistory(t, user.handle, history.value);
      if rec.maxRating != 0 && rec.highestRank != "" then Some(rec) else None
    else
      var m := FallbackMax(user);
      var rank := UserRank(t, user);
      var title := if rank.Rated? then Some(Title(t, rank)) else None;
      if m != 0 && title.Some? && title.value != "" then Some(Record(user.handle, m, title.value)) else None
  }

  /** `user.maxRating if user.maxRating else (user.rating if user.rating else 0)`. */
  function FallbackMax(user: User): int
  {
    if user.maxRating.Some? && user.maxRating.value != 0 then user.maxRating.value
    else if user.rating.Some? && user.rating.value != 0 then user.rating.value
    else 0
  }

  // ---------------------------------------------------------------------------
  // The stored ledger

  /** The `user_achievement` table of the user database. */
  class AchievementStore {
    var records: map<LedgerKey, Record>

    constructor ()
      ensures records == map[]
    {
      records := map[];
    }

    /** `update_user_achievement`: insert or replace the record of one member. */
    method UpdateUserAchievement(m: MemberId, g: GuildId, handle: Handle, maxRating: int, highestRank: string)
      modifies this
      ensures records == old(records)[(m, g) := Record(handle, maxRating, highestRank)]
    {
      records := records[(m, g) := Record(handle, maxRating, highestRank)];
    }

    /** `_check_and_update_achievements` for one guild: `present` are the
        guild's current members, `links` the user table's (member, handle)
        pairs for the guild, `changes` the batch keyed by handle. */
    method CheckAndUpdateAchievements(t: seq<Tier>, guild: GuildId, present: set<MemberId>,
                                      links: seq<Link>, changes: map<Handle, RatingChange>)
      returns (achievements: seq<Achievement>)
      modifies this
      ensures PassState(records, achievements) == Pass(t, guild, present, changes, old(records), links)
    {
      achievements := [];
      for i := 0 to |links|
        invariant PassState(records, achievements) == Run(t, guild, present, changes, PassState(old(records), []), links[..i])
      {
        assert links[..i + 1][..i] == links[..i];
        ghost var before := PassState(records, achievements);
        var (m, h) := links[i];
        if m !in present || h !in changes {
          continue;
        }
        ghost var a := Assess(t, Lookup(records, (m, guild)), h, changes[h].newRating);
        var newRating := changes[h].newRating;
        var newRank := Title(t, RatingToRank(t, newRating));
        var stored := Lookup(records, (m, guild));
        var oldMax: Option<int> := if stored.Some? then Some(stored.value.maxRating) else None;
        var oldHighest: Option<string> := if stored.Some? then Some(stored.value.highestRank) else None;
        var isNewMax, isNewRank := false, false;
        if oldMax.None? || newRating > oldMax.value {
          isNewMax := true;
          oldMax := if oldMax.Some? && oldMax.value != 0 then oldMax else Some(newRating);
        }
        var oldRank: string;
        if oldHighest.None? {
          isNewRank := true;
          oldRank := UnratedTitle;
        } else {
          var oldIdx := IndexOfTitle(t, oldHighest.value);
          var newIdx := IndexOfTitle(t, newRank);
          if oldIdx.Some? && newIdx.Some? {
            if newIdx.value > oldIdx.value {
              isNewRank := true;
            }
            oldRank := oldHighest.value;
          } else {
            oldRank := if oldHighest.value != "" then oldHighest.value else UnratedTitle;
          }
        }
        if isNewMax || isNewRank {
          var currentMax := if oldMax.Some? && oldMax.value != 0 then Max(newRating, oldMax.value) else newRating;
          var currentHighest := if isNewRank || oldHighest.None? then newRank else oldHighest.value;
          records := records[(m, guild) := Record(h, currentMax, currentHighest)];
          if newRating >= AnnounceThreshold {
            achievements := achievements + [Achievement(m, h, newRating, oldMax.value, newRank, oldRank, isNewMax, isNewRank)];
          }
        }
        assert isNewMax == a.isNewMax && isNewRank == a.isNewRank;
        assert PassState(records, achievements) == Step(t, guild, present, changes, before, links[i]);
      }
      assert links[..|links|] == links;
    }
  }
}
