/**
 * `AuditTrail` (server/utils/auditTrail.js): an append-only collection of
 * audit records with two newest-first queries. The free-form `details`
 * object is kept as a string-keyed map; `user` and `resourceId` are optional
 * because the schema does not require them.
 */
module AuditTrail {
  import opened Types
  import opened Collections

  /** The `data` object a caller hands to `AuditTrail.log`. */
  datatype AuditInput = AuditInput(
    user: Option<Id>,
    action: string,
    resource: string,
    resourceId: Option<Id>,
    details: map<string, string>,
    ipAddress: string,
    userAgent: string)

  /** One saved `Audit` document; `timestamp` is the schema default `Date.now`. */
  datatype AuditRecord = AuditRecord(
    user: Option<Id>,
    action: string,
    resource: string,
    resourceId: Option<Id>,
    details: map<string, string>,
    ipAddress: string,
    userAgent: string,
    timestamp: nat)

  function Stamp(data: AuditInput, now: nat): AuditRecord {
    AuditRecord(data.user, data.action, data.resource, data.resourceId,
                data.details, data.ipAddress, data.userAgent, now)
  }

  /**
   * `AuditTrail.log(data)`. `saved` is the outcome of `audit.save()`; a failed
   * save is caught and reported on the console, so the function is total and
   * the trail is simply left as it was.
   */
  function Log(trail: seq<AuditRecord>, data: AuditInput, now: nat, saved: bool): (r: seq<AuditRecord>)
    ensures |trail| <= |r| <= |trail| + 1
    ensures r[..|trail|] == trail
    ensures |r| == |trail| + 1 <==> saved
    ensures saved ==> r[|trail|] == Stamp(data, now)
  {
    if saved then trail + [Stamp(data, now)] else trail
  }

  function Timestamp(a: AuditRecord): int { a.timestamp }

  function ConcernsResource(resourceId: Id): AuditRecord -> bool {
    (a: AuditRecord) => a.resourceId == Some(resourceId)
  }

  function ByUser(userId: Id): AuditRecord -> bool {
    (a: AuditRecord) => a.user == Some(userId)
  }

  /** `getResourceHistory(resourceId)`: `find({ resourceId }).sort('-timestamp')`. */
  function GetResourceHistory(trail: seq<AuditRecord>, resourceId: Id): (r: seq<AuditRecord>)
    ensures SortedDesc(r, Timestamp)
    ensures forall i :: 0 <= i < |r| ==> r[i].resourceId == Some(resourceId)
    ensures forall a :: multiset(r)[a] == if a.resourceId == Some(resourceId) then multiset(trail)[a] else 0
  {
    Select(trail, ConcernsResource(resourceId), Timestamp)
  }

  /** `getUserActivity(userId)`: `find({ user: userId }).sort('-timestamp')`. */
  function GetUserActivity(trail: seq<AuditRecord>, userId: Id): (r: seq<AuditRecord>)
    ensures SortedDesc(r, Timestamp)
    ensures forall i :: 0 <= i < |r| ==> r[i].user == Some(userId)
    ensures forall a :: multiset(r)[a] == if a.user == Some(userId) then multiset(trail)[a] else 0
  {
    Select(trail, ByUser(userId), Timestamp)
  }

  /** Logging against one resource leaves every other resource's history as it was. */
  lemma {:induction false} LogPreservesOtherHistories(trail: seq<AuditRecord>, data: AuditInput, now: nat, saved: bool, other: Id)
    requires data.resourceId != Some(other)
    ensures GetResourceHistory(Log(trail, data, now, saved), other) == GetResourceHistory(trail, other)
  {
    if saved {
      var p := ConcernsResource(other);
      var rec := Stamp(data, now);
      FilterConcat(trail, [rec], p);
      assert !p(rec);
      assert Filter([rec], p) == [];
      assert Filter(trail + [rec], p) == Filter(trail, p);
    }
  }

  /** A saved record joins its own resource's history exactly once; nothing else in it changes. */
  lemma LogExtendsOwnHistory(trail: seq<AuditRecord>, data: AuditInput, now: nat, resourceId: Id)
    requires data.resourceId == Some(resourceId)
    ensures multiset(GetResourceHistory(Log(trail, data, now, true), resourceId))
         == multiset(GetResourceHistory(trail, resourceId)) + multiset{Stamp(data, now)}
  {
    var p := ConcernsResource(resourceId);
    var rec := Stamp(data, now);
    FilterConcat(trail, [rec], p);
    assert Filter([rec], p) == [rec];
    assert Filter(trail + [rec], p) == Filter(trail, p) + [rec];
  }

  /** Logging never drops or rewrites an earlier record of any user's activity. */
  lemma LogPreservesActivity(trail: seq<AuditRecord>, data: AuditInput, now: nat, saved: bool, userId: Id)
    ensures multiset(GetUserActivity(trail, userId)) <= multiset(GetUserActivity(Log(trail, data, now, saved), userId))
  {
    var r := Log(trail, data, now, saved);
    assert r == trail || r == trail + [Stamp(data, now)];
    assert multiset(trail) <= multiset(r);
  }
}
