/** The idempotency ledger: domain writes, a ledger row and an audit row are committed in one transaction under
    unique indexes, and later calls replay the stored response. */
module CommandLedger {
  import opened Options
  import opened KeyOrder
  import opened CanonicalJson
  import opened JsonText

  datatype ActorType = Human | Agent | System | Import
  datatype Scope = Scope(tenant: string, actorType: ActorType, actor: string, command: string, key: string)

  /** What a command outcome carries into the ledger and the audit log. */
  datatype CommandOutcome = CommandOutcome(scope: Scope, requestHash: string, requestId: string, response: string,
        resourceVersion: int, details: string, approvalIsObject: bool, afterIsObject: bool)

  /** A domain query and whether the database accepts it. */
  datatype DomainQuery = DomainQuery(text: string, accepted: bool)

  /** One call of the commit operation, with the random ids it draws. */
  datatype CommitRequest = CommitRequest(queries: seq<DomainQuery>, outcome: CommandOutcome, idempotencyId: string,
        auditId: string)

  datatype LedgerRow = LedgerRow(id: string, scope: Scope, requestHash: string, requestId: string, response: string,
        resourceVersion: int)
  datatype AuditRow = AuditRow(id: string, tenant: string, idempotencyId: string, requestId: string, command: string,
                               actorType: ActorType, actor: string, details: string)
  datatype DomainWrite = DomainWrite(scope: Scope, requestId: string, text: string)

  datatype Database = Database(ledger: seq<LedgerRow>, audit: seq<AuditRow>, applied: seq<DomainWrite>)

  datatype Result = NotFound | Replayed(response: string, resourceVersion: int) | Conflict | Committed
        | DomainWriteRequired | RolledBack

  // ----- rows and constraints

  function LedgerRowOf(r: CommitRequest): LedgerRow {
    LedgerRow(r.idempotencyId, r.outcome.scope, r.outcome.requestHash, r.outcome.requestId, r.outcome.response,
        r.outcome.resourceVersion)
  }

  function AuditRowOf(r: CommitRequest): AuditRow {
    AuditRow(r.auditId, r.outcome.scope.tenant, r.idempotencyId, r.outcome.requestId, r.outcome.scope.command,
             r.outcome.scope.actorType, r.outcome.scope.actor, r.outcome.details)
  }

  function WriteOf(r: CommitRequest, q: DomainQuery): DomainWrite {
    DomainWrite(r.outcome.scope, r.outcome.requestId, q.text)
  }

  predicate IsSha256Hex(hash: string) { |hash| == 64 && forall c | c in hash :: '0' <= c <= '9' || 'a' <= c <= 'f' }

  /** The primary key, the two unique indexes and the checks of the ledger table. */
  predicate LedgerAccepts(ledger: seq<LedgerRow>, row: LedgerRow) {
    && row.resourceVersion > 0 && IsSha256Hex(row.requestHash)
    && forall x | x in ledger ::
         x.id != row.id && x.scope != row.scope && !(x.scope.tenant == row.scope.tenant && x.requestId == row.requestId)
  }

  /** The primary key, the unique index, the foreign key and the checks of the audit table. */
  predicate AuditAccepts(ledger: seq<LedgerRow>, audit: seq<AuditRow>, row: AuditRow, outcome: CommandOutcome) {
    && outcome.approvalIsObject && outcome.afterIsObject
    && (forall x | x in audit :: x.id != row.id && !(x.tenant == row.tenant && x.requestId == row.requestId))
    && exists x ::
         x in ledger && x.id == row.idempotencyId && x.scope.tenant == row.tenant && x.requestId == row.requestId
  }

  // ----- the operations on a database value

  predicate AllAccepted(queries: seq<DomainQuery>) { forall q | q in queries :: q.accepted }

  function Writes(r: CommitRequest): (w: seq<DomainWrite>)
    ensures |w| == |r.queries|
  {
    seq(|r.queries|, i requires 0 <= i < |r.queries| => WriteOf(r, r.queries[i]))
  }

  function Applied(db: Database, r: CommitRequest): Database {
    Database(db.ledger + [LedgerRowOf(r)], db.audit + [AuditRowOf(r)], db.applied + Writes(r))
  }

  predicate Commits(db: Database, r: CommitRequest) {
    && r.queries != [] && AllAccepted(r.queries)
    && LedgerAccepts(db.ledger, LedgerRowOf(r))
    && AuditAccepts(db.ledger + [LedgerRowOf(r)], db.audit, AuditRowOf(r), r.outcome)
  }

  function Commit(db: Database, r: CommitRequest): (Database, Result) {
    if r.queries == [] then (db, DomainWriteRequired)
    else if Commits(db, r) then (Applied(db, r), Committed)
    else (db, RolledBack)
  }

  function FindRow(ledger: seq<LedgerRow>, scope: Scope): (r: Option<LedgerRow>)
    ensures r.Some? ==> r.value in ledger && r.value.scope == scope
    ensures r.None? ==> forall x | x in ledger :: x.scope != scope
  {
    if ledger == [] then None else if ledger[0].scope == scope then Some(ledger[0]) else FindRow(ledger[1..], scope)
  }

  function FindReplay(db: Database, scope: Scope, requestHash: string): Result {
    match FindRow(db.ledger, scope)
    case None => NotFound
    case Some(row) => if row.requestHash != requestHash then Conflict else Replayed(row.response, row.resourceVersion)
  }

  /** The tables, written statement by statement inside a transaction. */
  class CommandStore {
    var ledger: seq<LedgerRow>
    var audit: seq<AuditRow>
    var applied: seq<DomainWrite>

    function Tables(): Database
      reads this
    {
      Database(ledger, audit, applied)
    }

    constructor ()
      ensures Tables() == Database([], [], [])
    {
      ledger, audit, applied := [], [], [];
    }

    method FindCommandReplay(scope: Scope, requestHash: string) returns (result: Result)
      ensures result == FindReplay(Tables(), scope, requestHash)
    {
      var row := FindRow(ledger, scope);
      if row.None? {
        return NotFound;
      }
      if row.value.requestHash != requestHash {
        return Conflict;
      }
      result := Replayed(row.value.response, row.value.resourceVersion);
    }

    /** Runs the domain queries, then both inserts; a statement that fails undoes everything before it. */
    method CommitCommandTransaction(r: CommitRequest) returns (result: Result)
      modifies this
      ensures (Tables(), result) == Commit(old(Tables()), r)
    {
      if r.queries == [] {
        return DomainWriteRequired;
      }
      var savedLedger, savedAudit, savedApplied := ledger, audit, applied;
      var n := 0;
      while n < |r.queries|
        invariant 0 <= n <= |r.queries|
        invariant ledger == savedLedger && audit == savedAudit
        invariant applied == savedApplied + Writes(r)[..n]
        invariant forall i | 0 <= i < n :: r.queries[i].accepted
      {
        if !r.queries[n].accepted {
          ledger, audit, applied := savedLedger, savedAudit, savedApplied;
          assert !AllAccepted(r.queries);
          return RolledBack;
        }
        applied := applied + [WriteOf(r, r.queries[n])];
        n := n + 1;
      }
      assert Writes(r)[..n] == Writes(r);
      if !LedgerAccepts(ledger, LedgerRowOf(r)) {
        ledger, audit, applied := savedLedger, savedAudit, savedApplied;
        return RolledBack;
      }
      ledger := ledger + [LedgerRowOf(r)];
      if !AuditAccepts(ledger, audit, AuditRowOf(r), r.outcome) {
        ledger, audit, applied := savedLedger, savedAudit, savedApplied;
        return RolledBack;
      }
      audit := audit + [AuditRowOf(r)];
      result := Committed;
    }
  }

  // ----- many clients

  /** One database step of some client. */
  datatype Event = Find(scope: Scope, requestHash: string) | TryCommit(request: CommitRequest)

  function Step(db: Database, e: Event): (Database, Result) {
    match e
    case Find(scope, requestHash) => (db, FindReplay(db, scope, requestHash))
    case TryCommit(request) => Commit(db, request)
  }

  const EMPTY := Database([], [], [])

  /** The state after an interleaving of steps. */
  function After(events: seq<Event>): Database {
    if events == [] then EMPTY else Step(After(events[..|events| - 1]), events[|events| - 1]).0
  }

  /** The commit requests that succeeded, in order. */
  function Succeeded(events: seq<Event>): seq<CommitRequest> {
    if events == [] then []
    else
      var before := Succeeded(events[..|events| - 1]);
      var e := events[|events| - 1];
      if Step(After(events[..|events| - 1]), e).1.Committed? then before + [e.request] else before
  }

  /** The tables hold the rows and writes of exactly these requests, one after the other. */
  ghost predicate Holds(db: Database, requests: seq<CommitRequest>) {
    && |db.ledger| == |db.audit| == |requests|
    && (forall i | 0 <= i < |requests| ::
         db.ledger[i] == LedgerRowOf(requests[i]) && db.audit[i] == AuditRowOf(requests[i]))
    && db.applied == AllWrites(requests)
  }

  function AllWrites(requests: seq<CommitRequest>): seq<DomainWrite> {
    if requests == [] then [] else AllWrites(requests[..|requests| - 1]) + Writes(requests[|requests| - 1])
  }

  ghost predicate OncePerScope(requests: seq<CommitRequest>) {
    forall i, j | 0 <= i < j < |requests| ::
      && requests[i].outcome.scope != requests[j].outcome.scope
      && requests[i].idempotencyId != requests[j].idempotencyId
      && requests[i].auditId != requests[j].auditId
  }

  /** Row `i` of both tables is that of request `i`, field by field, and the rows belong together. */
  ghost predicate RowsTell(db: Database, requests: seq<CommitRequest>, i: nat)
    requires i < |requests| && |db.ledger| == |db.audit| == |requests|
  {
    var r, l, a := requests[i], db.ledger[i], db.audit[i];
    && l.id == r.idempotencyId && l.scope == r.outcome.scope && l.requestId == r.outcome.requestId
    && l.requestHash == r.outcome.requestHash && l.response == r.outcome.response
    && l.resourceVersion == r.outcome.resourceVersion
    && a.id == r.auditId && a.idempotencyId == l.id && a.tenant == l.scope.tenant && a.requestId == l.requestId
    && a.command == l.scope.command && a.actorType == l.scope.actorType && a.actor == l.scope.actor
    && a.details == r.outcome.details
  }

  /** How many domain queries the first `i` requests have. */
  function QueriesBefore(requests: seq<CommitRequest>, i: nat): nat
    requires i <= |requests|
  {
    if i == 0 then 0 else QueriesBefore(requests, i - 1) + |requests[i - 1].queries|
  }

  /** Query `q` of request `i` was applied, in its place, for the scope and the id of its request. */
  ghost predicate WriteTells(db: Database, requests: seq<CommitRequest>, i: nat, q: nat)
    requires i < |requests| && q < |requests[i].queries|
  {
    var k := QueriesBefore(requests, i) + q;
    && k < |db.applied| && db.applied[k].text == requests[i].queries[q].text
    && db.applied[k].scope == requests[i].outcome.scope && db.applied[k].requestId == requests[i].outcome.requestId
  }

  /** What the tables hold, without the rows' constructors. */
  ghost predicate TablesTell(db: Database, requests: seq<CommitRequest>) {
    && |db.ledger| == |db.audit| == |requests| && |db.applied| == QueriesBefore(requests, |requests|)
    && (forall i: nat | i < |requests| :: RowsTell(db, requests, i))
    && (forall i: nat, q: nat | i < |requests| && q < |requests[i].queries| :: WriteTells(db, requests, i, q))
  }

  lemma {:induction false} QueriesOfPrefix(requests: seq<CommitRequest>, n: nat, i: nat)
    requires i <= n <= |requests|
    ensures QueriesBefore(requests[..n], i) == QueriesBefore(requests, i)
  {
    if i > 0 {
      QueriesOfPrefix(requests, n, i - 1);
    }
  }

  lemma {:induction false} WritesTell(requests: seq<CommitRequest>, db: Database)
    requires db.applied == AllWrites(requests)
    ensures |db.applied| == QueriesBefore(requests, |requests|)
    ensures forall i: nat, q: nat | i < |requests| && q < |requests[i].queries| :: WriteTells(db, requests, i, q)
  {
    if requests != [] {
      var n := |requests| - 1;
      var front := requests[..n];
      var before := db.(applied := AllWrites(front));
      WritesTell(front, before);
      QueriesOfPrefix(requests, n, n);
      forall i: nat, q: nat | i < |requests| && q < |requests[i].queries| ensures WriteTells(db, requests, i, q) {
        if i < n {
          QueriesOfPrefix(requests, n, i);
          assert WriteTells(before, front, i, q);
        } else {
          assert Writes(requests[n])[q] == WriteOf(requests[n], requests[n].queries[q]);
          assert db.applied[|before.applied| + q] == Writes(requests[n])[q];
        }
      }
    }
  }

  lemma HoldsTells(db: Database, requests: seq<CommitRequest>)
    requires Holds(db, requests)
    ensures TablesTell(db, requests)
  {
    hide AllWrites, QueriesBefore, WriteTells;
    WritesTell(requests, db);
  }

  lemma HoldsGrows(db: Database, done: seq<CommitRequest>, r: CommitRequest)
    requires Holds(db, done)
    ensures Holds(Applied(db, r), done + [r])
  {
    hide Writes, LedgerRowOf, AuditRowOf;
    assert (done + [r])[..|done|] == done;
  }

  lemma OnceGrows(db: Database, done: seq<CommitRequest>, r: CommitRequest)
    requires Holds(db, done) && OncePerScope(done) && Commits(db, r)
    ensures OncePerScope(done + [r])
  {
    hide AllWrites, IsSha256Hex, AllAccepted;
    var all := done + [r];
    forall i | 0 <= i < |done|
      ensures done[i].outcome.scope != r.outcome.scope && done[i].idempotencyId != r.idempotencyId
              && done[i].auditId != r.auditId
    {
      assert db.ledger[i] == LedgerRowOf(done[i]) && db.audit[i] == AuditRowOf(done[i]);
      assert db.ledger[i] in db.ledger && db.audit[i] in db.audit;
    }
  }

  /** The exactly-once theorem: under any interleaving, the tables are the effect of the successful commits alone,
      no two of which have the same scope; so each scope is applied at most once, ledger and audit rows correspond
      one to one, field by field, and every failed transaction left nothing behind. */
  lemma {:induction false} ExactlyOnce(events: seq<Event>)
    ensures Holds(After(events), Succeeded(events)) && TablesTell(After(events), Succeeded(events))
    ensures OncePerScope(Succeeded(events))
  {
    hide Holds, OncePerScope, Commits, Applied, FindReplay, TablesTell;
    if events == [] {
      EmptyHolds();
    } else {
      var n := |events| - 1;
      ExactlyOnce(events[..n]);
      var e := events[n];
      if e.TryCommit? && Commits(After(events[..n]), e.request) {
        HoldsGrows(After(events[..n]), Succeeded(events[..n]), e.request);
        OnceGrows(After(events[..n]), Succeeded(events[..n]), e.request);
      }
      FindNeverCommits(After(events[..n]), e);
    }
    HoldsTells(After(events), Succeeded(events));
  }

  lemma EmptyHolds()
    ensures Holds(EMPTY, []) && OncePerScope([])
  {
  }

  lemma FindNeverCommits(db: Database, e: Event)
    ensures e.Find? ==> !Step(db, e).1.Committed?
  {
  }

  /** Only requests that clients issued, with at least one domain query and all of them accepted, ever succeed. */
  lemma {:induction false} OnlyIssuedRequestsSucceed(events: seq<Event>, r: CommitRequest)
    requires r in Succeeded(events)
    ensures TryCommit(r) in events && r.queries != [] && AllAccepted(r.queries)
  {
    hide FindReplay, LedgerAccepts, AuditAccepts, Applied;
    var n := |events| - 1;
    FindNeverCommits(After(events[..n]), events[n]);
    if r in Succeeded(events[..n]) {
      OnlyIssuedRequestsSucceed(events[..n], r);
    } else {
      assert events[n] == TryCommit(r);
    }
  }

  lemma {:induction false} WritesOfScope(requests: seq<CommitRequest>, w: DomainWrite)
    requires w in AllWrites(requests)
    ensures exists i :: 0 <= i < |requests| && w in Writes(requests[i])
  {
    var n := |requests| - 1;
    if w in AllWrites(requests[..n]) {
      WritesOfScope(requests[..n], w);
      var i :| 0 <= i < n && w in Writes(requests[..n][i]);
      assert w in Writes(requests[i]);
    } else {
      assert w in Writes(requests[n]);
    }
  }

  /** All domain writes ever applied for one scope belong to one request. */
  lemma OneRequestPerScope(events: seq<Event>, v: DomainWrite, w: DomainWrite)
    requires v in After(events).applied && w in After(events).applied && v.scope == w.scope
    ensures v.requestId == w.requestId
    ensures exists r :: r in Succeeded(events) && v in Writes(r) && w in Writes(r)
  {
    hide After, Succeeded, LedgerRowOf, AuditRowOf, AllWrites;
    ExactlyOnce(events);
    var done := Succeeded(events);
    assert After(events).applied == AllWrites(done);
    WritesOfScope(done, v);
    WritesOfScope(done, w);
    var i :| 0 <= i < |done| && v in Writes(done[i]);
    var j :| 0 <= j < |done| && w in Writes(done[j]);
    assert v.scope == done[i].outcome.scope && w.scope == done[j].outcome.scope;
    assert i == j;
    assert done[i] in done;
  }

  lemma FindHeld(db: Database, done: seq<CommitRequest>, i: nat)
    requires Holds(db, done) && OncePerScope(done) && i < |done|
    ensures FindRow(db.ledger, done[i].outcome.scope) == Some(LedgerRowOf(done[i]))
  {
    hide AuditRowOf, AllWrites;
    assert db.ledger[i] == LedgerRowOf(done[i]) && db.ledger[i] in db.ledger;
    var row := FindRow(db.ledger, done[i].outcome.scope);
    var j :| 0 <= j < |db.ledger| && db.ledger[j] == row.value;
    assert db.ledger[j] == LedgerRowOf(done[j]);
  }

  lemma FoundIsHeld(db: Database, done: seq<CommitRequest>, scope: Scope)
    requires Holds(db, done) && FindRow(db.ledger, scope).Some?
    ensures exists r :: r in done && r.outcome.scope == scope
  {
    hide AuditRowOf, AllWrites;
    var j :| 0 <= j < |db.ledger| && db.ledger[j] == FindRow(db.ledger, scope).value;
    assert db.ledger[j] == LedgerRowOf(done[j]) && done[j] in done;
  }

  /** What a find answers is decided by the successful commits: nothing for a fresh scope, the stored response for
      an equal request hash, and a conflict for a different one. */
  lemma {:induction false} FindTellsWhatCommitted(events: seq<Event>, scope: Scope, requestHash: string)
    ensures var done, answer := Succeeded(events), FindReplay(After(events), scope, requestHash);
            && (answer.NotFound? <==> forall r | r in done :: r.outcome.scope != scope)
            && (forall r | r in done && r.outcome.scope == scope ::
                  answer == if r.outcome.requestHash == requestHash
                      then Replayed(r.outcome.response, r.outcome.resourceVersion)
                            else Conflict)
  {
    hide After, Succeeded, Holds, OncePerScope, FindRow;
    ExactlyOnce(events);
    var done, db := Succeeded(events), After(events);
    if FindRow(db.ledger, scope).Some? {
      FoundIsHeld(db, done, scope);
    }
    forall r | r in done && r.outcome.scope == scope ensures FindRow(db.ledger, scope) == Some(LedgerRowOf(r)) {
      var i: nat :| i < |done| && done[i] == r;
      FindHeld(db, done, i);
    }
  }

  /** Successful commits are never taken back: what a find answered with stays its answer. */
  lemma {:induction false} SucceededGrows(events: seq<Event>, more: seq<Event>)
    ensures Succeeded(events) <= Succeeded(events + more)
  {
    if more == [] {
      assert events + more == events;
    } else {
      SucceededGrows(events, more[..|more| - 1]);
      assert (events + more)[..|events + more| - 1] == events + more[..|more| - 1];
    }
  }

  lemma AnswersAreStable(events: seq<Event>, more: seq<Event>, scope: Scope, requestHash: string)
    requires !FindReplay(After(events), scope, requestHash).NotFound?
    ensures FindReplay(After(events + more), scope, requestHash) == FindReplay(After(events), scope, requestHash)
  {
    hide After, Succeeded, FindReplay;
    FindTellsWhatCommitted(events, scope, requestHash);
    FindTellsWhatCommitted(events + more, scope, requestHash);
    SucceededGrows(events, more);
    var r :| r in Succeeded(events) && r.outcome.scope == scope;
    assert r in Succeeded(events + more);
  }

  // ----- when a commit goes through

  /** The domain writes are accepted and the rows meet the checks of their tables. */
  ghost predicate IsAcceptable(r: CommitRequest) {
    && r.queries != [] && (forall i | 0 <= i < |r.queries| :: r.queries[i].accepted)
    && r.outcome.resourceVersion > 0
    && |r.outcome.requestHash| == 64 && (forall c | c in r.outcome.requestHash :: c in "0123456789abcdef")
    && r.outcome.approvalIsObject && r.outcome.afterIsObject
  }

  predicate SameRequestId(done: CommitRequest, r: CommitRequest) {
    done.outcome.scope.tenant == r.outcome.scope.tenant && done.outcome.requestId == r.outcome.requestId
  }

  predicate LedgerClash(done: CommitRequest, r: CommitRequest) {
    done.outcome.scope == r.outcome.scope || SameRequestId(done, r) || done.idempotencyId == r.idempotencyId
  }

  predicate AuditClash(done: CommitRequest, r: CommitRequest) { SameRequestId(done, r) || done.auditId == r.auditId }

  /** An earlier success that a unique index or a primary key holds against the request. */
  predicate Clashes(done: CommitRequest, r: CommitRequest) { LedgerClash(done, r) || AuditClash(done, r) }

  lemma LedgerHasRoom(db: Database, done: seq<CommitRequest>, r: CommitRequest)
    requires Holds(db, done)
    ensures LedgerAccepts(db.ledger, LedgerRowOf(r)) <==>
              && r.outcome.resourceVersion > 0 && IsSha256Hex(r.outcome.requestHash)
              && forall i | 0 <= i < |done| :: !LedgerClash(done[i], r)
  {
    hide AllWrites, IsSha256Hex, AuditRowOf;
    var row := LedgerRowOf(r);
    forall i | 0 <= i < |done| ensures db.ledger[i] in db.ledger && db.ledger[i] == LedgerRowOf(done[i]) {
    }
    if forall i | 0 <= i < |done| :: !LedgerClash(done[i], r) {
      forall x | x in db.ledger
        ensures x.id != row.id && x.scope != row.scope
                && !(x.scope.tenant == row.scope.tenant && x.requestId == row.requestId)
      {
        var i :| 0 <= i < |db.ledger| && db.ledger[i] == x;
        assert !LedgerClash(done[i], r);
      }
    }
  }

  lemma AuditHasRoom(db: Database, done: seq<CommitRequest>, r: CommitRequest)
    requires Holds(db, done)
    ensures AuditAccepts(db.ledger + [LedgerRowOf(r)], db.audit, AuditRowOf(r), r.outcome) <==>
              && r.outcome.approvalIsObject && r.outcome.afterIsObject
              && forall i | 0 <= i < |done| :: !AuditClash(done[i], r)
  {
    hide AllWrites;
    var row := AuditRowOf(r);
    assert LedgerRowOf(r) in db.ledger + [LedgerRowOf(r)];
    forall i | 0 <= i < |done| ensures db.audit[i] in db.audit && db.audit[i] == AuditRowOf(done[i]) {
    }
    if forall i | 0 <= i < |done| :: !AuditClash(done[i], r) {
      forall x | x in db.audit ensures x.id != row.id && !(x.tenant == row.tenant && x.requestId == row.requestId) {
        var i :| 0 <= i < |db.audit| && db.audit[i] == x;
        assert !AuditClash(done[i], r);
      }
    }
  }

  lemma HashDigits(hash: string)
    ensures IsSha256Hex(hash) <==> |hash| == 64 && forall c | c in hash :: c in "0123456789abcdef"
  {
  }

  lemma QueriesAccepted(queries: seq<DomainQuery>)
    ensures AllAccepted(queries) <==> forall i | 0 <= i < |queries| :: queries[i].accepted
  {
  }

  lemma RowsAccept(db: Database, done: seq<CommitRequest>, r: CommitRequest)
    requires Holds(db, done)
    ensures Commits(db, r) <==> IsAcceptable(r) && forall i | 0 <= i < |done| :: !Clashes(done[i], r)
  {
    hide Holds, LedgerAccepts, AuditAccepts, LedgerRowOf, AuditRowOf, LedgerClash, AuditClash, AllAccepted, IsSha256Hex;
    HashDigits(r.outcome.requestHash);
    QueriesAccepted(r.queries);
    LedgerHasRoom(db, done, r);
    AuditHasRoom(db, done, r);
  }

  /** The other half of exactly-once: under any interleaving a commit goes through if and only if the request is
      acceptable and no earlier success has its scope, its tenant and request id, or one of its row ids. */
  lemma CommitsExactlyWhen(events: seq<Event>, r: CommitRequest)
    ensures Step(After(events), TryCommit(r)).1.Committed? <==>
              IsAcceptable(r) && forall done | done in Succeeded(events) :: !Clashes(done, r)
  {
    hide After, Succeeded, Holds, IsAcceptable, Clashes, Commits, Applied;
    ExactlyOnce(events);
    var done := Succeeded(events);
    RowsAccept(After(events), done, r);
    assert forall i | 0 <= i < |done| :: done[i] in done;
    CommitAnswer(After(events), r);
  }

  lemma CommitAnswer(db: Database, r: CommitRequest)
    ensures Commit(db, r).1.Committed? <==> Commits(db, r)
  {
    hide LedgerAccepts, AuditAccepts;
  }

  // ----- with the canonical request hash

  /** A client that commits `v` and one that later asks for `w` under the same scope: an equivalent request gets the
      stored response; a different one gets a conflict, unless the digest collides. */
  lemma {:induction false} ReplayDecidesSameRequest(digest: Text -> string, events: seq<Event>, r: CommitRequest,
        v: Json, w: Json)
    requires r in Succeeded(events) && r.outcome.requestHash == digest(CanonicalText(v))
    requires IsJson(v) && IsJson(w) && WellKeyed(v) && WellKeyed(w)
    ensures var answer := FindReplay(After(events), r.outcome.scope, digest(CanonicalText(w)));
            && (Equivalent(v, w) ==> answer == Replayed(r.outcome.response, r.outcome.resourceVersion))
            && (!Equivalent(v, w) && (digest(CanonicalText(v)) == digest(CanonicalText(w)) ==>
                 CanonicalText(v) == CanonicalText(w)) ==>
                  answer == Conflict)
  {
    hide After, Succeeded, FindReplay, CanonicalText, Equivalent;
    CanonicalTextDecidesEquivalence(v, w);
    FindTellsWhatCommitted(events, r.outcome.scope, digest(CanonicalText(w)));
  }
}
