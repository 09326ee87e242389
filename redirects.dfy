/** `_fix_and_report`: the summary after resolving handle redirects.  Each
    linked handle either resolved to a current Codeforces user, and is listed
    as fixed with its new handle, or did not, and is listed as failed. */
module Redirects {
  import opened Common
  import opened Codeforces

  /** One entry of the redirect mapping: the member, the stored handle, and
      the user it resolved to (None when it did not resolve). */
  datatype Redirection = Redirection(member: MemberId, handle: Handle, resolved: Option<User>)

  /** The summary embed: "No handles updated", or the fixed pairs (old handle,
      new handle) and the failed handles, each in mapping order. */
  datatype Report = NoHandlesUpdated | Summary(fixed: seq<(Handle, Handle)>, failed: seq<Handle>)

  /** The fixed pairs, in mapping order. */
  function FixedOf(rs: seq<Redirection>): (r: seq<(Handle, Handle)>)
    decreases |rs|
  {
    if rs == [] then []
    else
      var x := rs[|rs| - 1];
      FixedOf(rs[..|rs| - 1]) + (if x.resolved.Some? then [(x.handle, x.resolved.value.handle)] else [])
  }

  /** The failed handles, in mapping order. */
  function FailedOf(rs: seq<Redirection>): (r: seq<Handle>)
    decreases |rs|
  {
    if rs == [] then []
    else
      var x := rs[|rs| - 1];
      FailedOf(rs[..|rs| - 1]) + (if x.resolved.None? then [x.handle] else [])
  }

  function ReportOf(rs: seq<Redirection>): Report
  {
    if FixedOf(rs) == [] && FailedOf(rs) == [] then NoHandlesUpdated
    else Summary(FixedOf(rs), FailedOf(rs))
  }

  /** Every entry is listed exactly once: as fixed or as failed. */
  lemma {:induction false} PartitionCounts(rs: seq<Redirection>)
    ensures |FixedOf(rs)| + |FailedOf(rs)| == |rs|
    decreases |rs|
  {
    if rs != [] {
      PartitionCounts(rs[..|rs| - 1]);
    }
  }

  /** "No handles updated" exactly for an empty mapping. */
  lemma NoHandlesIffEmpty(rs: seq<Redirection>)
    ensures ReportOf(rs) == NoHandlesUpdated <==> rs == []
  {
    PartitionCounts(rs);
  }

  /** A pair is listed as fixed exactly when some entry of that handle
      resolved to a user of that new handle. */
  lemma {:induction false} FixedExact(rs: seq<Redirection>, before: Handle, after: Handle)
    ensures (before, after) in FixedOf(rs) <==>
              exists i :: 0 <= i < |rs| && rs[i].handle == before && rs[i].resolved.Some? && rs[i].resolved.value.handle == after
    decreases |rs|
  {
    if rs != [] {
      var prefix := rs[..|rs| - 1];
      FixedExact(prefix, before, after);
      assert forall i :: 0 <= i < |prefix| ==> rs[i] == prefix[i];
    }
  }

  /** A handle is listed as failed exactly when some entry of that handle did
      not resolve. */
  lemma {:induction false} FailedExact(rs: seq<Redirection>, h: Handle)
    ensures h in FailedOf(rs) <==> exists i :: 0 <= i < |rs| && rs[i].handle == h && rs[i].resolved.None?
    decreases |rs|
  {
    if rs != [] {
      var prefix := rs[..|rs| - 1];
      FailedExact(prefix, h);
      assert forall i :: 0 <= i < |prefix| ==> rs[i] == prefix[i];
    }
  }

  /** `_fix_and_report(redirections)`: the loop that sorts the entries into
      the two lists, then the summary. */
  method FixAndReport(rs: seq<Redirection>) returns (report: Report)
    ensures report == ReportOf(rs)
  {
    var fixed: seq<(Handle, Handle)> := [];
    var failed: seq<Handle> := [];
    for i := 0 to |rs|
      invariant fixed == FixedOf(rs[..i]) && failed == FailedOf(rs[..i])
    {
      assert rs[..i + 1][..i] == rs[..i];
      if rs[i].resolved.None? {
        failed := failed + [rs[i].handle];
      } else {
        fixed := fixed + [(rs[i].handle, rs[i].resolved.value.handle)];
      }
    }
    assert rs[..|rs|] == rs;
    if fixed == [] && failed == [] {
      return NoHandlesUpdated;
    }
    report := Summary(fixed, failed);
  }
}
