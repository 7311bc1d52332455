/** The audit trail: appending an entry, and the filtered, newest-first,
    paged query over it. */
module AuditService {
  import opened Wrappers
  import opened Models
  import opened Text
  import opened Queries
  import opened Data

  /** The entry `LogActivityAsync` writes: stamped `now`, with no project. */
  function Entry(
    action: AuditAction, userId: Option<Guid>, entityId: Option<Guid>, entityType: Option<string>,
    details: Option<string>, ipAddress: Option<string>, userAgent: Option<string>, now: Time): AuditLog
  {
    AuditLog(action, userId, entityId, entityType, details, ipAddress, userAgent, now, None)
  }

  /** Some entry names `userId` as its user. */
  predicate Referenced(logs: seq<AuditLog>, userId: Guid) {
    exists i :: 0 <= i < |logs| && logs[i].userId == Some(userId)
  }

  /** The foreign key from `AuditLog.UserId` to `Users`: every entry that
      names a user names one the store holds. */
  predicate UsersExist(users: map<Guid, User>, logs: seq<AuditLog>) {
    forall i :: 0 <= i < |logs| && logs[i].userId.Some? ==> logs[i].userId.value in users
  }

  /** `LogActivityAsync`: appends one entry stamped `now` and saves it. The
      entry's `ProjectId` is never filled in. The save checks the entry's
      foreign key and column widths: an entry naming a user the store does
      not hold, or with a string longer than its column, is refused
      (`DbUpdateException`, `saved` false) and the log is left as it was. */
  method LogActivity(
    db: ApplicationDbContext, action: AuditAction, userId: Option<Guid>, entityId: Option<Guid>,
    entityType: Option<string>, details: Option<string>, ipAddress: Option<string>,
    userAgent: Option<string>, now: Time)
    returns (saved: bool)
    requires db.Valid()
    modifies db`auditLogs
    ensures db.Valid()
    ensures saved <==> (userId.None? || userId.value in db.users)
                       && AuditLogFits(Entry(action, userId, entityId, entityType, details, ipAddress, userAgent, now))
    ensures saved ==>
      db.auditLogs == old(db.auditLogs) + [Entry(action, userId, entityId, entityType, details, ipAddress, userAgent, now)]
    ensures !saved ==> db.auditLogs == old(db.auditLogs)
    ensures UsersExist(db.users, old(db.auditLogs)) ==> UsersExist(db.users, db.auditLogs)
  {
    saved := (userId.None? || userId.value in db.users)
      && AuditLogFits(Entry(action, userId, entityId, entityType, details, ipAddress, userAgent, now));
    if saved {
      db.auditLogs := db.auditLogs + [Entry(action, userId, entityId, entityType, details, ipAddress, userAgent, now)];
    }
  }

  datatype AuditLogFilterRequest = AuditLogFilterRequest(
    action: Option<AuditAction>,
    userId: Option<Guid>,
    entityType: Option<string>,
    startDate: Option<Time>,
    endDate: Option<Time>,
    projectId: Option<string>,
    pageNumber: int,
    pageSize: int)

  datatype AuditLogListResponse = AuditLogListResponse(
    auditLogs: seq<AuditLog>, totalCount: nat, pageNumber: int, pageSize: int)

  /** The conjunction of the filters the request supplies: an absent filter,
      or an empty entity type or project id, imposes nothing. */
  predicate Matches(request: AuditLogFilterRequest, a: AuditLog) {
    && (request.action.Some? ==> a.action == request.action.value)
    && (request.userId.Some? ==> a.userId == request.userId)
    && (!IsNullOrEmpty(request.entityType) ==> a.entityType == request.entityType)
    && (request.startDate.Some? ==> request.startDate.value <= a.timestamp)
    && (request.endDate.Some? ==> a.timestamp <= request.endDate.value)
    && (!IsNullOrEmpty(request.projectId) ==> a.projectId == request.projectId)
  }

  /** The `OrderByDescending(a => a.Timestamp)` order: newer entries first. */
  predicate NewerOrSame(a: AuditLog, b: AuditLog) {
    a.timestamp >= b.timestamp
  }

  lemma NewerOrSameIsTotal()
    ensures Total(NewerOrSame)
  {
  }

  /** The entries that pass the request's filters, in log order. */
  function Filtered(logs: seq<AuditLog>, request: AuditLogFilterRequest): (r: seq<AuditLog>)
    ensures forall a :: multiset(r)[a] == if Matches(request, a) then multiset(logs)[a] else 0
  {
    Where(logs, a => Matches(request, a))
  }

  /** The filtered entries, newest first: a sorted permutation of `Filtered`. */
  function Ordered(logs: seq<AuditLog>, request: AuditLogFilterRequest): (r: seq<AuditLog>)
    ensures SortedBy(r, NewerOrSame)
    ensures multiset(r) == multiset(Filtered(logs, request))
  {
    NewerOrSameIsTotal();
    SortBy(Filtered(logs, request), NewerOrSame)
  }

  /** The ordered entries are exactly as many as the filtered ones, and each
      is an entry of the log that passes the filters. */
  lemma OrderedEntries(logs: seq<AuditLog>, request: AuditLogFilterRequest)
    ensures |Ordered(logs, request)| == |Filtered(logs, request)|
    ensures forall a :: a in Ordered(logs, request) ==> a in logs && Matches(request, a)
  {
    var ordered, matching := Ordered(logs, request), Filtered(logs, request);
    assert |ordered| == |multiset(ordered)| == |multiset(matching)| == |matching|;
    forall a | a in ordered ensures a in logs && Matches(request, a) {
      assert multiset(ordered)[a] > 0;
    }
  }

  /** `GetAuditLogsAsync`. The database leaves the order of entries with
      equal timestamps open; the model fixes one such order. A page the
      database refuses makes the call fail, count and all. */
  function GetAuditLogs(logs: seq<AuditLog>, request: AuditLogFilterRequest): (r: Result<AuditLogListResponse>)
    ensures !PageAccepted(request.pageNumber, request.pageSize) ==>
      r == Err(PageRefusal(request.pageNumber, request.pageSize))
    ensures PageAccepted(request.pageNumber, request.pageSize) ==>
      && r.Ok?
      && r.value.totalCount == |Filtered(logs, request)|
      && |r.value.auditLogs| <= request.pageSize
      && r.value.pageNumber == request.pageNumber && r.value.pageSize == request.pageSize
    ensures PageAccepted(request.pageNumber, request.pageSize) && r.Ok? ==>
      var start := PageStart(r.value.totalCount, request.pageNumber, request.pageSize);
      && (start + request.pageSize <= r.value.totalCount ==> |r.value.auditLogs| == request.pageSize)
      && (start + request.pageSize > r.value.totalCount ==> |r.value.auditLogs| == r.value.totalCount - start)
      && |Ordered(logs, request)| == r.value.totalCount && SliceAt(r.value.auditLogs, Ordered(logs, request), start)
  {
    if !PageAccepted(request.pageNumber, request.pageSize) then
      Err(PageRefusal(request.pageNumber, request.pageSize))
    else
      var ordered := Ordered(logs, request);
      OrderedEntries(logs, request);
      var page := Page(ordered, request.pageNumber, request.pageSize);
      Ok(AuditLogListResponse(page, |Filtered(logs, request)|, request.pageNumber, request.pageSize))
  }

  /** Every returned entry is an entry of the log that passes every supplied
      filter, and the page is newest first. */
  lemma ReturnedEntries(logs: seq<AuditLog>, request: AuditLogFilterRequest)
    ensures GetAuditLogs(logs, request).Ok? ==>
      forall a :: a in GetAuditLogs(logs, request).value.auditLogs ==> a in logs && Matches(request, a)
    ensures GetAuditLogs(logs, request).Ok? ==> SortedBy(GetAuditLogs(logs, request).value.auditLogs, NewerOrSame)
  {
    if PageAccepted(request.pageNumber, request.pageSize) {
      var ordered := Ordered(logs, request);
      OrderedEntries(logs, request);
      PageOfSorted(ordered, NewerOrSame, request.pageNumber, request.pageSize);
      PageWithin(ordered, request.pageNumber, request.pageSize);
      assert GetAuditLogs(logs, request).value.auditLogs == Page(ordered, request.pageNumber, request.pageSize);
    }
  }
}
