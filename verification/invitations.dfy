/** Organization invitations: many clients create and accept them, each request being a check on one connection and
    then one transaction under the unique indexes of the database. Tokens are represented by their hashes. */
module Invitations {
  import opened Options

  datatype Status = Pending | AcceptedBy(userId: string)
  datatype Invitation = Invitation(tenant: string, email: string, role: string, tokenHash: string, status: Status,
                                   invitedBy: Option<string>, expiresAt: int)
  datatype User = User(email: string, tenant: Option<string>)
  datatype Membership = Membership(role: string, active: bool, invitedBy: Option<string>)

  /** The authenticated caller; `tenant` is empty when the token carries none. */
  datatype Actor = Actor(id: string, email: string, tenant: string)

  datatype Database = Database(users: map<string, User>, invitations: map<string, Invitation>,
                               memberships: map<(string, string), Membership>)

  /** What a request answers, refusals with their HTTP status; `Idle` is a step of a client that has no request. */
  datatype Answer = Admitted | Created | Joined | Refused(status: int) | Idle

  // ----- text

  predicate IsSpace(c: char) { c == ' ' || '\t' <= c <= '\r' }

  function Strip(s: string): string {
    if s != "" && IsSpace(s[0]) then Strip(s[1..])
    else if s != "" && IsSpace(s[|s| - 1]) then Strip(s[..|s| - 1])
    else s
  }

  function Lower(s: string): string {
    seq(|s|, i requires 0 <= i < |s| => if 'A' <= s[i] <= 'Z' then s[i] + 32 as char else s[i])
  }

  function Normalised(email: string): string { Lower(Strip(email)) }

  /** An absent or blank id is no id. */
  function NonBlank(id: Option<string>): Option<string> {
    if id.None? || Strip(id.value) == "" then None else Some(Strip(id.value))
  }

  // ----- constraints of the tables

  predicate UsersAccept(users: map<string, User>, id: string, user: User) {
    forall x | x in users && x != id :: users[x].email != user.email
  }

  predicate InvitationsAccept(invitations: map<string, Invitation>, id: string, row: Invitation) {
    && id !in invitations
    && forall x | x in invitations ::
         && invitations[x].tokenHash != row.tokenHash
         && !(invitations[x].status.Pending? && invitations[x].tenant == row.tenant
              && invitations[x].email == row.email)
  }

  predicate IsCanonicalRole(role: string) { role == "viewer" || role == "member" || role == "admin" || role == "owner" }

  // ----- the transactions on a database value

  function HostedUser(users: map<string, User>, actor: Actor, tenant: string): User {
    var email :=
      if actor.email != "" then actor.email
      else if actor.id in users && users[actor.id].email != "" then users[actor.id].email
      else actor.id + "@hosted.local";
    User(Strip(email), Some(tenant))
  }

  /** An upserted membership is active and keeps a known inviter when no new one is given. */
  function ActiveMembership(memberships: map<(string, string), Membership>, key: (string, string), role: string,
                            invitedBy: Option<string>): Membership {
    Membership(role, true, if invitedBy.None? && key in memberships then memberships[key].invitedBy else invitedBy)
  }

  function GrantedRole(offer: Invitation): string { if offer.role == "" then "member" else offer.role }

  predicate CanJoin(db: Database, actor: Actor, id: string, offer: Invitation) {
    && UsersAccept(db.users, actor.id, HostedUser(db.users, actor, offer.tenant))
    && id in db.invitations && db.invitations[id].status.Pending?
    && IsCanonicalRole(GrantedRole(offer))
  }

  function AfterJoin(db: Database, actor: Actor, id: string, offer: Invitation): Database
    requires id in db.invitations
  {
    var key := (offer.tenant, actor.id);
    Database(db.users[actor.id := HostedUser(db.users, actor, offer.tenant)],
             db.invitations[id := db.invitations[id].(status := AcceptedBy(actor.id))],
             db.memberships[key := ActiveMembership(db.memberships, key, GrantedRole(offer),
                 NonBlank(offer.invitedBy))])
  }

  /** All three writes or none of them. */
  function Join(db: Database, actor: Actor, id: string, offer: Invitation): (Database, Answer) {
    if CanJoin(db, actor, id, offer) then (AfterJoin(db, actor, id, offer), Joined)
    else
      if UsersAccept(db.users, actor.id, HostedUser(db.users, actor, offer.tenant))
          && !(id in db.invitations && db.invitations[id].status.Pending?)
      then (db, Refused(409))
    else (db, Refused(502))
  }

  function Invite(db: Database, id: string, row: Invitation): (Database, Answer) {
    if InvitationsAccept(db.invitations, id, row) then (db.(invitations := db.invitations[id := row]), Created)
    else (db, Refused(409))
  }

  /** The tables, written statement by statement inside a transaction. */
  class InvitationStore {
    var users: map<string, User>
    var invitations: map<string, Invitation>
    var memberships: map<(string, string), Membership>

    function Tables(): Database
      reads this
    {
      Database(users, invitations, memberships)
    }

    constructor ()
      ensures Tables() == Database(map[], map[], map[])
    {
      users, invitations, memberships := map[], map[], map[];
    }

    method UpsertHostedUser(actor: Actor, tenant: string) returns (ok: bool)
      modifies this`users
      ensures ok <==> UsersAccept(old(users), actor.id, HostedUser(old(users), actor, tenant))
      ensures users == if ok then old(users)[actor.id := HostedUser(old(users), actor, tenant)] else old(users)
    {
      var user := HostedUser(users, actor, tenant);
      ok := UsersAccept(users, actor.id, user);
      if ok {
        users := users[actor.id := user];
      }
    }

    /** Updates the row only while it is pending. */
    method MarkAccepted(id: string, userId: string) returns (found: bool)
      modifies this`invitations
      ensures found <==> id in old(invitations) && old(invitations)[id].status.Pending?
      ensures invitations == if found then old(invitations)[id := old(invitations)[id].(status := AcceptedBy(userId))]
          else old(invitations)
    {
      found := id in invitations && invitations[id].status.Pending?;
      if found {
        invitations := invitations[id := invitations[id].(status := AcceptedBy(userId))];
      }
    }

    method UpsertMembership(tenant: string, userId: string, role: string, invitedBy: Option<string>) returns (ok: bool)
      modifies this`memberships
      ensures ok <==> IsCanonicalRole(role)
      ensures memberships ==
                if ok then old(memberships)[(tenant, userId) := ActiveMembership(old(memberships), (tenant, userId),
                    role, invitedBy)]
                else old(memberships)
    {
      ok := IsCanonicalRole(role);
      if ok {
        var inviter := invitedBy;
        if inviter.None? && (tenant, userId) in memberships {
          inviter := memberships[(tenant, userId)].invitedBy;
        }
        memberships := memberships[(tenant, userId) := Membership(role, true, inviter)];
      }
    }

    /** Upserts the user, claims the invitation, upserts the membership; whatever fails undoes what came before. */
    method AcceptInvitation(actor: Actor, id: string, offer: Invitation) returns (answer: Answer)
      modifies this
      ensures (Tables(), answer) == Join(old(Tables()), actor, id, offer)
    {
      var savedUsers, savedInvitations := users, invitations;
      var stored := UpsertHostedUser(actor, offer.tenant);
      if !stored {
        return Refused(502);
      }
      var claimed := MarkAccepted(id, actor.id);
      if !claimed {
        users := savedUsers;
        return Refused(409);
      }
      var granted := UpsertMembership(offer.tenant, actor.id, GrantedRole(offer), NonBlank(offer.invitedBy));
      if !granted {
        users, invitations := savedUsers, savedInvitations;
        return Refused(502);
      }
      answer := Joined;
    }

    method CreateInvitation(id: string, row: Invitation) returns (answer: Answer)
      modifies this`invitations
      ensures (Tables(), answer) == Invite(old(Tables()), id, row)
    {
      if !InvitationsAccept(invitations, id, row) {
        return Refused(409);
      }
      invitations := invitations[id := row];
      answer := Created;
    }
  }

  // ----- many clients

  /** What a client's checks have established for the transaction it will try next. */
  datatype Session =
    | MayInvite(inviter: string, tenant: string, email: string, role: string)
    | MayJoin(actor: Actor, id: string, offer: Invitation)

  /** One step of some client at some time: the checks of a request, or its transaction, which does not look at the
      time. */
  datatype Step =
    | CheckInvite(client: string, inviter: string, tenant: string, email: string, role: string)
    | CommitInvite(client: string, id: string, tokenHash: string, expiresAt: int)
    | CheckJoin(client: string, actor: Actor, tokenHash: string, now: int)
    | CommitJoin(client: string, now: int)

  datatype System = System(db: Database, sessions: map<string, Session>)

  predicate HasMembership(db: Database, actor: Actor) {
    exists key | key in db.memberships :: key.1 == actor.id && db.memberships[key].active
  }

  predicate HasUserTenant(db: Database, actor: Actor) { actor.id in db.users && db.users[actor.id].tenant.Some? }

  predicate HasOrganization(db: Database, actor: Actor) {
    actor.tenant != "" || HasMembership(db, actor) || HasUserTenant(db, actor)
  }

  ghost function FindByToken(invitations: map<string, Invitation>, tokenHash: string): (id: Option<string>)
    ensures id.Some? ==> id.value in invitations && invitations[id.value].tokenHash == tokenHash
    ensures id.None? ==> forall x | x in invitations :: invitations[x].tokenHash != tokenHash
  {
    if x :| x in invitations && invitations[x].tokenHash == tokenHash then Some(x) else None
  }

  /** An invitation for an address is for the caller with that address; one without an address is for anyone. */
  predicate IsFor(offer: Invitation, actor: Actor) {
    Normalised(offer.email) == "" || Normalised(offer.email) == Normalised(actor.email)
  }

  ghost function JoinCheck(db: Database, actor: Actor, tokenHash: string, now: int): (Answer, Option<Session>) {
    if HasOrganization(db, actor) then (Refused(409), None)
    else
      match FindByToken(db.invitations, tokenHash)
      case None => (Refused(404), None)
      case Some(id) =>
        var offer := db.invitations[id];
        if !offer.status.Pending? || offer.expiresAt < now then (Refused(404), None)
        else if !IsFor(offer, actor) then (Refused(403), None)
        else (Admitted, Some(MayJoin(actor, id, offer)))
  }

  function InviteCheck(db: Database, inviter: string, tenant: string, email: string,
        role: string): (Answer, Option<Session>)
  {
    var key := (tenant, inviter);
    if key in db.memberships && db.memberships[key].active && Normalised(db.memberships[key].role) == "admin"
      then (Admitted, Some(MayInvite(inviter, tenant, email, role)))
    else (Refused(403), None)
  }

  function NewInvitation(session: Session, tokenHash: string, expiresAt: int): Invitation
    requires session.MayInvite?
  {
    Invitation(session.tenant, Normalised(session.email), session.role, tokenHash, Pending, Some(session.inviter),
        expiresAt)
  }

  /** A check replaces whatever the client had in progress. */
  function Open(sys: System, client: string, check: (Answer, Option<Session>)): (System, Answer) {
    (sys.(sessions := if check.1.Some? then sys.sessions[client := check.1.value] else sys.sessions - {client}),
        check.0)
  }

  function Close(sys: System, client: string, result: (Database, Answer)): (System, Answer) {
    (System(result.0, sys.sessions - {client}), result.1)
  }

  ghost function Next(sys: System, step: Step): (System, Answer) {
    match step
    case CheckInvite(client, inviter, tenant, email, role) =>
        Open(sys, client, InviteCheck(sys.db, inviter, tenant, email, role))
    case CheckJoin(client, actor, tokenHash, now) => Open(sys, client, JoinCheck(sys.db, actor, tokenHash, now))
    case CommitInvite(client, id, tokenHash, expiresAt) =>
      if client in sys.sessions && sys.sessions[client].MayInvite?
        then Close(sys, client, Invite(sys.db, id, NewInvitation(sys.sessions[client], tokenHash, expiresAt)))
      else Close(sys, client, (sys.db, Idle))
    case CommitJoin(client, _) =>
      if client in sys.sessions && sys.sessions[client].MayJoin?
        then
          var session := sys.sessions[client];
          Close(sys, client, Join(sys.db, session.actor, session.id, session.offer))
      else Close(sys, client, (sys.db, Idle))
  }

  /** The state an interleaving of steps leads to. */
  ghost function After(start: Database, steps: seq<Step>): System {
    if steps == [] then System(start, map[]) else Next(After(start, steps[..|steps| - 1]), steps[|steps| - 1]).0
  }

  /** Step `i` is a transaction in which `actor` accepts invitation `id`. */
  ghost predicate JoinsAt(start: Database, steps: seq<Step>, i: nat, actor: Actor, id: string)
    requires i < |steps|
  {
    var sys := After(start, steps[..i]);
    && Next(sys, steps[i]).1 == Joined
    && steps[i].client in sys.sessions && sys.sessions[steps[i].client].MayJoin?
    && sys.sessions[steps[i].client].actor == actor && sys.sessions[steps[i].client].id == id
  }

  // ----- what every step keeps

  ghost predicate OnePending(invitations: map<string, Invitation>) {
    forall x, y | x in invitations && y in invitations && x != y ::
      && invitations[x].tokenHash != invitations[y].tokenHash
      && !(invitations[x].status.Pending? && invitations[y].status.Pending? &&
           invitations[x].tenant == invitations[y].tenant && invitations[x].email == invitations[y].email)
  }

  ghost predicate EmailsDiffer(users: map<string, User>) {
    forall x, y | x in users && y in users && x != y :: users[x].email != users[y].email
  }

  ghost predicate IsActiveMember(db: Database, tenant: string, userId: string) {
    userId in db.users && (tenant, userId) in db.memberships && db.memberships[(tenant, userId)].active
  }

  ghost predicate AcceptersBelong(db: Database) {
    forall x | x in db.invitations && db.invitations[x].status.AcceptedBy? ::
      IsActiveMember(db, db.invitations[x].tenant, db.invitations[x].status.userId)
  }

  ghost predicate Sound(db: Database) { OnePending(db.invitations) && EmailsDiffer(db.users) && AcceptersBelong(db) }

  /** The client was let in for a row that is still there, unchanged but perhaps for its status. */
  ghost predicate SessionsFit(sys: System) {
    forall c | c in sys.sessions && sys.sessions[c].MayJoin? ::
      var s := sys.sessions[c];
      && s.id in sys.db.invitations && s.offer.status.Pending? && IsFor(s.offer, s.actor)
      && sys.db.invitations[s.id].(status := Pending) == s.offer
  }

  /** Rows only change from pending to accepted, and no user, organization of a user or active membership goes away. */
  ghost predicate Grows(old': Database, new': Database) {
    && (forall x | x in old'.invitations ::
          && x in new'.invitations && new'.invitations[x].(status := Pending) == old'.invitations[x].(status := Pending)
          && (old'.invitations[x].status.AcceptedBy? ==> new'.invitations[x] == old'.invitations[x]))
    && (forall u | u in old'.users :: u in new'.users && (old'.users[u].tenant.Some? ==> new'.users[u].tenant.Some?))
    && (forall k | k in old'.memberships && old'.memberships[k].active ::
         k in new'.memberships && new'.memberships[k].active)
  }

  lemma JoinKeepsSound(db: Database, actor: Actor, id: string, offer: Invitation)
    requires Sound(db) && CanJoin(db, actor, id, offer) && db.invitations[id].tenant == offer.tenant
    ensures Sound(AfterJoin(db, actor, id, offer))
  {
    hide HostedUser, Strip, IsCanonicalRole, GrantedRole, NonBlank;
  }

  lemma InviteKeepsSound(db: Database, id: string, row: Invitation)
    requires Sound(db) && InvitationsAccept(db.invitations, id, row) && row.status.Pending?
    ensures Sound(Invite(db, id, row).0)
  {
  }

  lemma JoinGrows(db: Database, actor: Actor, id: string, offer: Invitation)
    ensures Grows(db, Join(db, actor, id, offer).0)
  {
    hide Strip, IsCanonicalRole, GrantedRole, NonBlank, UsersAccept;
  }

  lemma StepGrows(sys: System, step: Step)
    ensures Grows(sys.db, Next(sys, step).0.db)
  {
    hide Join, JoinCheck, InviteCheck, Normalised;
    if step.CommitJoin? && step.client in sys.sessions && sys.sessions[step.client].MayJoin? {
      var s := sys.sessions[step.client];
      JoinGrows(sys.db, s.actor, s.id, s.offer);
    }
  }

  /** Every step keeps one pending invitation per organization and address, distinct tokens and user addresses, and
      accepted invitations backed by an active membership. */
  lemma {:induction false} StepKeepsSound(sys: System, step: Step)
    requires Sound(sys.db) && SessionsFit(sys)
    ensures Sound(Next(sys, step).0.db) && SessionsFit(Next(sys, step).0)
  {
    hide Sound, CanJoin, AfterJoin, InvitationsAccept, IsFor, HasOrganization, Normalised, HostedUser;
    StepGrows(sys, step);
    match step
    case CommitJoin(client, _) =>
      if client in sys.sessions && sys.sessions[client].MayJoin? {
        var s := sys.sessions[client];
        if CanJoin(sys.db, s.actor, s.id, s.offer) {
          JoinKeepsSound(sys.db, s.actor, s.id, s.offer);
        }
      }
    case CommitInvite(client, id, tokenHash, expiresAt) =>
      if client in sys.sessions && sys.sessions[client].MayInvite? {
        var row := NewInvitation(sys.sessions[client], tokenHash, expiresAt);
        if InvitationsAccept(sys.db.invitations, id, row) {
          InviteKeepsSound(sys.db, id, row);
        }
      }
    case _ =>
  }

  /** Under any interleaving of many clients, the database stays sound. */
  lemma {:induction false} RunsAreSound(start: Database, steps: seq<Step>)
    requires Sound(start)
    ensures Sound(After(start, steps).db) && SessionsFit(After(start, steps))
  {
    hide Sound, Next;
    if steps != [] {
      hide SessionsFit;
      RunsAreSound(start, steps[..|steps| - 1]);
      StepKeepsSound(After(start, steps[..|steps| - 1]), steps[|steps| - 1]);
    }
  }

  lemma {:induction false} RunsGrow(start: Database, steps: seq<Step>, more: seq<Step>)
    ensures Grows(After(start, steps).db, After(start, steps + more).db)
  {
    hide Next;
    if more == [] {
      assert steps + more == steps;
    } else {
      var n := |more| - 1;
      RunsGrow(start, steps, more[..n]);
      assert (steps + more)[..|steps| + n] == steps + more[..n];
      StepGrows(After(start, steps + more[..n]), more[n]);
    }
  }

  lemma PrefixGrows(start: Database, steps: seq<Step>, i: nat, j: nat)
    requires i <= j <= |steps|
    ensures Grows(After(start, steps[..i]).db, After(start, steps[..j]).db)
  {
    hide After, Grows;
    assert steps[..j] == steps[..i] + steps[i..j];
    RunsGrow(start, steps[..i], steps[i..j]);
  }

  /** A step that is refused leaves users, invitations and memberships as they were. */
  lemma RefusedChangesNothing(sys: System, step: Step)
    requires Next(sys, step).0.db != sys.db
    ensures (step.CommitInvite? && Next(sys, step).1.Created?) || (step.CommitJoin? && Next(sys, step).1.Joined?)
  {
    hide CanJoin, AfterJoin, InvitationsAccept, JoinCheck, InviteCheck;
  }

  // ----- accepting exactly once

  /** Everything but these three rows is as before. */
  ghost predicate OnlyThese(before: Database, after: Database, id: string, tenant: string, userId: string) {
    && after.invitations.Keys == before.invitations.Keys
         && (forall x | x in before.invitations && x != id :: after.invitations[x] == before.invitations[x])
    && after.users.Keys == before.users.Keys + {userId}
         && (forall u | u in before.users && u != userId :: after.users[u] == before.users[u])
    && after.memberships.Keys == before.memberships.Keys + {(tenant, userId)}
    && (forall k | k in before.memberships && k != (tenant, userId) :: after.memberships[k] == before.memberships[k])
  }

  /** What a successful acceptance writes: the user moves into the organization, with the invited role and inviter. */
  lemma JoinWrites(start: Database, steps: seq<Step>, i: nat, actor: Actor, id: string)
    requires Sound(start) && i < |steps| && JoinsAt(start, steps, i, actor, id)
    ensures var before, after := After(start, steps[..i]).db, After(start, steps[..i + 1]).db;
            && id in before.invitations && before.invitations[id].status.Pending?
                 && IsFor(before.invitations[id], actor)
            && id in after.invitations
                 && after.invitations[id] == before.invitations[id].(status := AcceptedBy(actor.id))
            && IsActiveMember(after, after.invitations[id].tenant, actor.id)
            && var row, key := before.invitations[id], (before.invitations[id].tenant, actor.id);
            && after.users[actor.id].tenant == Some(row.tenant)
            && after.memberships[key].role == (if row.role == "" then "member" else row.role)
            && (NonBlank(row.invitedBy).Some? ==> after.memberships[key].invitedBy == NonBlank(row.invitedBy))
            && OnlyThese(before, after, id, row.tenant, actor.id)
  {
    hide Sound, IsFor, HasOrganization, Normalised, UsersAccept, IsCanonicalRole, Strip, NonBlank;
    RunsAreSound(start, steps[..i]);
    assert steps[..i + 1][..i] == steps[..i];
    JoinedByCommit(After(start, steps[..i]), steps[i]);
  }

  lemma JoinedByCommit(sys: System, step: Step)
    ensures Next(sys, step).1.Joined? ==>
              step.CommitJoin? && step.client in sys.sessions && sys.sessions[step.client].MayJoin? &&
              CanJoin(sys.db, sys.sessions[step.client].actor, sys.sessions[step.client].id,
                  sys.sessions[step.client].offer)
  {
    hide CanJoin, AfterJoin, InvitationsAccept;
  }

  /** No invitation is accepted twice. */
  lemma JoinedOnce(start: Database, steps: seq<Step>, i: nat, j: nat, a: Actor, b: Actor, id: string)
    requires Sound(start) && i < |steps| && j < |steps|
    requires JoinsAt(start, steps, i, a, id) && JoinsAt(start, steps, j, b, id)
    ensures i == j && a == b
  {
    hide After, JoinsAt, IsFor, Next;
    JoinWrites(start, steps, i, a, id);
    JoinWrites(start, steps, j, b, id);
    if i < j {
      PrefixGrows(start, steps, i + 1, j);
    } else if j < i {
      PrefixGrows(start, steps, j + 1, i);
    }
    assert i == j;
    SameJoin(start, steps, i, a, b, id);
  }

  lemma SameJoin(start: Database, steps: seq<Step>, i: nat, a: Actor, b: Actor, id: string)
    requires i < |steps| && JoinsAt(start, steps, i, a, id) && JoinsAt(start, steps, i, b, id)
    ensures a == b
  {
  }

  /** An invitation is accepted by a user exactly when it already was at the start or one acceptance of the run did
      it. */
  lemma {:induction false} AcceptedIffJoined(start: Database, steps: seq<Step>, id: string, userId: string)
    requires Sound(start)
    ensures (id in After(start, steps).db.invitations
            && After(start, steps).db.invitations[id].status == AcceptedBy(userId)) <==>
              || (id in start.invitations && start.invitations[id].status == AcceptedBy(userId))
              || exists i: nat, actor: Actor :: i < |steps| && actor.id == userId && JoinsAt(start, steps, i, actor, id)
  {
    hide JoinsAt, IsFor, Sound, Next;
    var end := After(start, steps).db;
    forall i: nat, actor: Actor | i < |steps| && actor.id == userId && JoinsAt(start, steps, i, actor, id)
      ensures id in end.invitations && end.invitations[id].status == AcceptedBy(userId)
    {
      JoinWrites(start, steps, i, actor, id);
      PrefixGrows(start, steps, i + 1, |steps|);
      assert steps[..|steps|] == steps;
    }
    if id in start.invitations && start.invitations[id].status == AcceptedBy(userId) {
      PrefixGrows(start, steps, 0, |steps|);
      assert steps[..|steps|] == steps && steps[..0] == [];
    }
    if id in end.invitations && end.invitations[id].status == AcceptedBy(userId) {
      AcceptanceHasCause(start, steps, id, userId);
    }
  }

  lemma {:induction false} AcceptanceHasCause(start: Database, steps: seq<Step>, id: string, userId: string)
    requires id in After(start, steps).db.invitations
             && After(start, steps).db.invitations[id].status == AcceptedBy(userId)
    ensures || (id in start.invitations && start.invitations[id].status == AcceptedBy(userId))
            || exists i: nat, actor: Actor :: i < |steps| && actor.id == userId && JoinsAt(start, steps, i, actor, id)
  {
    hide JoinsAt, Next, Grows;
    if steps != [] {
      var n := |steps| - 1;
      var before := After(start, steps[..n]);
      if id in before.db.invitations && before.db.invitations[id].status == AcceptedBy(userId) {
        AcceptanceHasCause(start, steps[..n], id, userId);
        forall i: nat, actor: Actor | i < n && actor.id == userId && JoinsAt(start, steps[..n], i, actor, id)
          ensures JoinsAt(start, steps, i, actor, id)
        {
          EarlierJoin(start, steps, n, i, actor, id);
        }
      } else {
        var actor := StepAccepts(before, steps[n], id, userId);
        LastJoin(start, steps, actor, id);
      }
    }
  }

  lemma EarlierJoin(start: Database, steps: seq<Step>, n: nat, i: nat, actor: Actor, id: string)
    requires i < n <= |steps|
    ensures JoinsAt(start, steps[..n], i, actor, id) == JoinsAt(start, steps, i, actor, id)
  {
    hide Next, After;
    assert steps[..n][..i] == steps[..i];
  }

  /** The only step that turns an invitation accepted. */
  lemma StepAccepts(sys: System, step: Step, id: string, userId: string) returns (actor: Actor)
    requires var after := Next(sys, step).0.db;
        id in after.invitations && after.invitations[id].status == AcceptedBy(userId)
    requires !(id in sys.db.invitations && sys.db.invitations[id].status == AcceptedBy(userId))
    ensures Next(sys, step).1 == Joined && actor.id == userId
    ensures step.client in sys.sessions && sys.sessions[step.client].MayJoin?
    ensures sys.sessions[step.client].actor == actor && sys.sessions[step.client].id == id
  {
    hide HostedUser, IsFor, HasOrganization, Normalised, UsersAccept, IsCanonicalRole, Strip, GrantedRole, NonBlank,
        JoinCheck, InviteCheck;
    RefusedChangesNothing(sys, step);
    actor := sys.sessions[step.client].actor;
  }

  lemma LastJoin(start: Database, steps: seq<Step>, actor: Actor, id: string)
    requires steps != []
    requires var sys, step := After(start, steps[..|steps| - 1]), steps[|steps| - 1];
             && Next(sys, step).1 == Joined && step.client in sys.sessions && sys.sessions[step.client].MayJoin?
             && sys.sessions[step.client].actor == actor && sys.sessions[step.client].id == id
    ensures JoinsAt(start, steps, |steps| - 1, actor, id)
  {
    hide Next, After;
  }

  // ----- where an acceptance comes from

  /** Step `k` let this client in, for this invitation: the caller had no organization, the token was right, and the
      invitation was pending, for the caller, and not expired. */
  ghost predicate AdmittedAt(start: Database, steps: seq<Step>, k: nat, client: string, actor: Actor, id: string,
        offer: Invitation)
    requires k < |steps|
  {
    var db := After(start, steps[..k]).db;
    && steps[k].CheckJoin? && steps[k].client == client && steps[k].actor == actor
    && !HasOrganization(db, actor)
    && id in db.invitations && db.invitations[id] == offer
    && offer.tokenHash == steps[k].tokenHash && offer.status.Pending? && IsFor(offer, actor)
         && steps[k].now <= offer.expiresAt
  }

  /** The client takes no step from `lo` up to `hi`. */
  ghost predicate Silent(steps: seq<Step>, client: string, lo: nat, hi: nat) {
    forall i | lo <= i < hi && i < |steps| :: steps[i].client != client
  }

  /** What the client has in progress comes from its last step, which let it in. */
  lemma {:induction false} SessionHasOrigin(start: Database, steps: seq<Step>, client: string)
    requires client in After(start, steps).sessions && After(start, steps).sessions[client].MayJoin?
    ensures var s := After(start, steps).sessions[client];
            exists k: nat ::
                k < |steps| && AdmittedAt(start, steps, k, client, s.actor, s.id, s.offer)
                    && Silent(steps, client, k + 1, |steps|)
  {
    hide AdmittedAt, IsFor, HasOrganization, Join, Invite, InviteCheck, NewInvitation;
    var n := |steps| - 1;
    var before, s := After(start, steps[..n]), After(start, steps).sessions[client];
    if steps[n].client != client {
      SessionHasOrigin(start, steps[..n], client);
      var k: nat :|
          k < n && AdmittedAt(start, steps[..n], k, client, s.actor, s.id, s.offer)
              && Silent(steps[..n], client, k + 1, n);
      EarlierAdmission(start, steps, n, k, client, s.actor, s.id, s.offer);
    } else {
      InviteCheckOpens(before.db, steps[n]);
      assert steps[n].CheckJoin?;
      LastAdmission(start, steps, s);
    }
  }

  lemma InviteCheckOpens(db: Database, step: Step)
    ensures step.CheckInvite? ==>
              var opened' := InviteCheck(db, step.inviter, step.tenant, step.email, step.role).1;
              opened'.Some? ==> opened'.value.MayInvite?
  {
  }

  lemma EarlierAdmission(start: Database, steps: seq<Step>, n: nat, k: nat, client: string, actor: Actor, id: string,
        offer: Invitation)
    requires k < n <= |steps|
    ensures AdmittedAt(start, steps[..n], k, client, actor, id, offer) ==
        AdmittedAt(start, steps, k, client, actor, id, offer)
  {
    hide After, HasOrganization, IsFor;
    assert steps[..n][..k] == steps[..k];
  }

  lemma LastAdmission(start: Database, steps: seq<Step>, s: Session)
    requires steps != [] && steps[|steps| - 1].CheckJoin? && s.MayJoin?
    requires var step := steps[|steps| - 1];
             JoinCheck(After(start, steps[..|steps| - 1]).db, step.actor, step.tokenHash, step.now).1 == Some(s)
    ensures AdmittedAt(start, steps, |steps| - 1, steps[|steps| - 1].client, s.actor, s.id, s.offer)
  {
    hide After, HasOrganization, IsFor;
  }

  /** An admission stays the client's session until its next step. */
  lemma {:induction false} AdmissionLasts(start: Database, steps: seq<Step>, k: nat, client: string, actor: Actor,
        id: string, offer: Invitation)
    requires Sound(start) && k < |steps| && AdmittedAt(start, steps, k, client, actor, id, offer)
             && Silent(steps, client, k + 1, |steps|)
    ensures client in After(start, steps).sessions && After(start, steps).sessions[client] == MayJoin(actor, id, offer)
    decreases |steps|
  {
    hide AdmittedAt, IsFor, HasOrganization, Join, Invite, JoinCheck, InviteCheck, NewInvitation, Sound;
    var n := |steps| - 1;
    if k == n {
      RunsAreSound(start, steps[..n]);
      AdmissionOpens(start, steps, client, actor, id, offer);
    } else {
      EarlierAdmission(start, steps, n, k, client, actor, id, offer);
      AdmissionLasts(start, steps[..n], k, client, actor, id, offer);
    }
  }

  lemma AdmissionOpens(start: Database, steps: seq<Step>, client: string, actor: Actor, id: string, offer: Invitation)
    requires steps != [] && Sound(After(start, steps[..|steps| - 1]).db)
    requires AdmittedAt(start, steps, |steps| - 1, client, actor, id, offer)
    ensures var step := steps[|steps| - 1];
            && step.CheckJoin? && step.client == client
            && JoinCheck(After(start, steps[..|steps| - 1]).db, step.actor, step.tokenHash, step.now) ==
                 (Admitted, Some(MayJoin(actor, id, offer)))
  {
    hide After, HasOrganization, IsFor;
  }

  /** The client's last step before `j` let it in, and its transaction would go through now. */
  ghost predicate Ready(start: Database, steps: seq<Step>, k: nat, j: nat, actor: Actor, id: string, offer: Invitation)
    requires k < j < |steps|
  {
    && AdmittedAt(start, steps, k, steps[j].client, actor, id, offer) && Silent(steps, steps[j].client, k + 1, j)
    && CanJoin(After(start, steps[..j]).db, actor, id, offer)
  }

  /** The exact condition of an acceptance: a transaction accepts an invitation if and only if the client's last check
      let it in, with an organization-free caller, the right token and a pending and unexpired invitation for the
      caller, and at the transaction the invitation is still pending, the address free and the role canonical. */
  lemma JoinsExactlyWhenReady(start: Database, steps: seq<Step>, j: nat, actor: Actor, id: string)
    requires Sound(start) && j < |steps| && steps[j].CommitJoin?
    ensures JoinsAt(start, steps, j, actor, id) <==>
              exists k: nat, offer: Invitation :: k < j && Ready(start, steps, k, j, actor, id, offer)
  {
    hide AdmittedAt, CanJoin, AfterJoin, After, Sound;
    var sys, client := After(start, steps[..j]), steps[j].client;
    if JoinsAt(start, steps, j, actor, id) {
      JoinedByCommit(sys, steps[j]);
      SessionHasOrigin(start, steps[..j], client);
      var offer := sys.sessions[client].offer;
      var k: nat :|
          k < j && AdmittedAt(start, steps[..j], k, client, actor, id, offer) && Silent(steps[..j], client, k + 1, j);
      EarlierAdmission(start, steps, j, k, client, actor, id, offer);
      assert Ready(start, steps, k, j, actor, id, offer);
    }
    if k: nat, offer: Invitation :| k < j && Ready(start, steps, k, j, actor, id, offer) {
      EarlierAdmission(start, steps, j, k, client, actor, id, offer);
      AdmissionLasts(start, steps[..j], k, client, actor, id, offer);
    }
  }

  lemma OfferIsCurrent(start: Database, steps: seq<Step>, k: nat, j: nat, actor: Actor, id: string, offer: Invitation)
    requires k < j < |steps| && Ready(start, steps, k, j, actor, id, offer)
    ensures id in After(start, steps[..j]).db.invitations && After(start, steps[..j]).db.invitations[id] == offer
  {
    hide After, HasOrganization, IsFor, UsersAccept, IsCanonicalRole;
    PrefixGrows(start, steps, k, j);
  }

  /** Every acceptance was let in earlier by its own client's check, before the invitation expired. */
  lemma JoinWasAdmitted(start: Database, steps: seq<Step>, i: nat, actor: Actor, id: string)
    requires Sound(start) && i < |steps| && JoinsAt(start, steps, i, actor, id)
    ensures exists k: nat ::
        k < i && AdmittedAt(start, steps, k, steps[i].client, actor, id, After(start, steps[..i]).db.invitations[id])
  {
    hide AdmittedAt, JoinsAt, After, Next, CanJoin;
    JoinIsNoCheck(start, steps, i, actor, id);
    JoinsExactlyWhenReady(start, steps, i, actor, id);
    var k: nat, offer: Invitation :| k < i && Ready(start, steps, k, i, actor, id, offer);
    OfferIsCurrent(start, steps, k, i, actor, id, offer);
  }

  lemma JoinIsNoCheck(start: Database, steps: seq<Step>, i: nat, actor: Actor, id: string)
    requires i < |steps| && JoinsAt(start, steps, i, actor, id)
    ensures steps[i].CommitJoin?
  {
    JoinedByCommit(After(start, steps[..i]), steps[i]);
  }

  predicate LateFor(db: Database, id: string, now: int) { id in db.invitations && db.invitations[id].expiresAt < now }

  /** The transaction accepts an invitation after its expiry exactly when the client was let in before and the
      transaction would go through: the time of the transaction plays no part. */
  lemma JoinsLateExactlyWhen(start: Database, steps: seq<Step>, j: nat, actor: Actor, id: string)
    requires Sound(start) && j < |steps| && steps[j].CommitJoin?
    ensures JoinsAt(start, steps, j, actor, id) && LateFor(After(start, steps[..j]).db, id, steps[j].now) <==>
              exists k: nat, offer: Invitation ::
                  k < j && Ready(start, steps, k, j, actor, id, offer) && offer.expiresAt < steps[j].now
  {
    hide JoinsAt, Ready, After;
    JoinsExactlyWhenReady(start, steps, j, actor, id);
    forall k: nat, offer: Invitation | k < j && Ready(start, steps, k, j, actor, id, offer)
      ensures id in After(start, steps[..j]).db.invitations && After(start, steps[..j]).db.invitations[id] == offer
    {
      OfferIsCurrent(start, steps, k, j, actor, id, offer);
    }
  }

  /** The acceptance theorem: once a client's acceptance goes through, the invitation stays accepted by its user for
      ever, the user is an active member of the inviting organization, and the invitation was for that user. */
  lemma {:induction false} AcceptanceIsFinal(start: Database, steps: seq<Step>, i: nat, actor: Actor, id: string)
    requires Sound(start) && i < |steps| && JoinsAt(start, steps, i, actor, id)
    ensures var db := After(start, steps).db;
            && id in db.invitations && db.invitations[id].status == AcceptedBy(actor.id)
            && IsFor(db.invitations[id], actor)
            && IsActiveMember(db, db.invitations[id].tenant, actor.id)
  {
    hide JoinsAt, Next, After, Normalised;
    JoinWrites(start, steps, i, actor, id);
    PrefixGrows(start, steps, i, i + 1);
    PrefixGrows(start, steps, i + 1, |steps|);
    assert steps[..|steps|] == steps;
  }

  // ----- the lookups of one check

  /** The invitation lookup alone, with the answers that depend on it. */
  ghost function LookUp(db: Database, actor: Actor, tokenHash: string, now: int): Option<Session> {
    match FindByToken(db.invitations, tokenHash)
    case None => None
    case Some(id) =>
      var offer := db.invitations[id];
      if !offer.status.Pending? || offer.expiresAt < now || !IsFor(offer, actor) then None
      else Some(MayJoin(actor, id, offer))
  }

  /** The source looks up the membership, the user and the invitation on three connections, one after the other. If
      they let the caller in, so does one check at the time of the first, with the same invitation: the token was
      drawn before the request, no organization of a user goes away, and invitations only leave the pending status and
      expire. */
  lemma LookupsAreOneCheck(a: Database, b: Database, c: Database, actor: Actor, tokenHash: string, first: int,
        last: int)
    requires OnePending(a.invitations) && OnePending(c.invitations) && Grows(a, b) && Grows(b, c) && first <= last
    requires actor.tenant == "" && !HasMembership(a, actor) && !HasUserTenant(b, actor)
    requires exists id :: id in a.invitations && a.invitations[id].tokenHash == tokenHash
    requires LookUp(c, actor, tokenHash, last).Some?
    ensures JoinCheck(a, actor, tokenHash, first) == (Admitted, LookUp(c, actor, tokenHash, last))
  {
    hide FindByToken, HasMembership, Normalised, Grows, OnePending;
    var id :| id in a.invitations && a.invitations[id].tokenHash == tokenHash;
    GrowsTwice(a, b, c, actor, id);
    FoundAlone(a.invitations, tokenHash, id);
    FoundAlone(c.invitations, tokenHash, id);
  }

  /** What two growths leave of an invitation, and of a user without an organization. */
  lemma GrowsTwice(a: Database, b: Database, c: Database, actor: Actor, id: string)
    requires Grows(a, b) && Grows(b, c) && id in a.invitations
    ensures id in c.invitations && c.invitations[id].(status := Pending) == a.invitations[id].(status := Pending)
    ensures a.invitations[id].status.AcceptedBy? ==> c.invitations[id] == a.invitations[id]
    ensures !HasUserTenant(b, actor) ==> !HasUserTenant(a, actor)
  {
    assert id in b.invitations;
  }

  lemma FoundAlone(invitations: map<string, Invitation>, tokenHash: string, id: string)
    requires OnePending(invitations) && id in invitations && invitations[id].tokenHash == tokenHash
    ensures FindByToken(invitations, tokenHash) == Some(id)
  {
  }

  // ----- one organization per user

  /** Whoever accepted before step `k` has an organization then. */
  lemma JoinedHasOrganization(start: Database, steps: seq<Step>, i: nat, k: nat, a: Actor, x: string, b: Actor)
    requires Sound(start) && i < k <= |steps| && JoinsAt(start, steps, i, a, x) && a.id == b.id
    ensures HasOrganization(After(start, steps[..k]).db, b)
  {
    hide JoinsAt, Next, After, IsFor;
    JoinWrites(start, steps, i, a, x);
    PrefixGrows(start, steps, i + 1, k);
    var key := (After(start, steps[..i + 1]).db.invitations[x].tenant, a.id);
    assert key in After(start, steps[..k]).db.memberships && key.1 == b.id;
  }

  /** The check for an existing organization is outside the transaction. A user who has joined joins again if and only
      if the second request's check let it in before the first acceptance committed, and it can still go through. */
  lemma SecondJoinRaced(start: Database, steps: seq<Step>, i: nat, j: nat, a: Actor, b: Actor, x: string, y: string)
    requires Sound(start) && i < j < |steps| && a.id == b.id
    requires JoinsAt(start, steps, i, a, x) && steps[j].CommitJoin?
    ensures JoinsAt(start, steps, j, b, y) <==>
              exists k: nat, offer: Invitation :: k < i && Ready(start, steps, k, j, b, y, offer)
  {
    hide JoinsAt, Next, After, IsFor, HasOrganization, CanJoin;
    JoinsExactlyWhenReady(start, steps, j, b, y);
    JoinIsNoCheck(start, steps, i, a, x);
    forall k: nat | i < k < j ensures HasOrganization(After(start, steps[..k]).db, b) {
      JoinedHasOrganization(start, steps, i, k, a, x, b);
    }
    forall k: nat, offer: Invitation | k < j && Ready(start, steps, k, j, b, y, offer) ensures k < i {
    }
  }

  // ----- runs that show the two gaps

  const RACER := Actor("u", "u@x", "")

  /** What an administrator of the organization invites the racer with. */
  function OfferOf(tenant: string): Invitation {
    Invitation(tenant, "u@x", "member", tenant, Pending, Some(tenant), 10)
  }

  const TWO_OFFERS := Database(map["t1" := User("a@t1", Some("t1")), "t2" := User("a@t2", Some("t2"))],
                               map["i1" := OfferOf("t1"), "i2" := OfferOf("t2")],
                               map[("t1", "t1") := Membership("admin", true, None),
                                   ("t2", "t2") := Membership("admin", true, None)])
  const BOTH_ADMITTED := System(TWO_OFFERS,
      map["c1" := MayJoin(RACER, "i1", OfferOf("t1")), "c2" := MayJoin(RACER, "i2", OfferOf("t2"))])
  const RACE := [CheckJoin("c1", RACER, "t1", 0), CheckJoin("c2", RACER, "t2", 0), CommitJoin("c1", 20),
      CommitJoin("c2", 20)]

  /** The offers are what two administrators' invitations write. */
  lemma OffersAreInvited(id: string, tenant: string)
    requires (id == "i1" && tenant == "t1") || (id == "i2" && tenant == "t2")
    ensures InviteCheck(TWO_OFFERS, tenant, tenant, "u@x", "member") ==
        (Admitted, Some(MayInvite(tenant, tenant, "u@x", "member")))
    ensures NewInvitation(MayInvite(tenant, tenant, "u@x", "member"), tenant, 10) == OfferOf(tenant) ==
        TWO_OFFERS.invitations[id]
    ensures Invite(TWO_OFFERS.(invitations := TWO_OFFERS.invitations - {id}), id, OfferOf(tenant)) ==
        (TWO_OFFERS, Created)
  {
    NormalForms();
    hide Normalised;
    assert TWO_OFFERS.invitations["i1"].tokenHash == "t1" && TWO_OFFERS.invitations["i2"].tokenHash == "t2"
        && "t1"[1] != "t2"[1];
    var others := TWO_OFFERS.invitations - {id};
    assert others[id := OfferOf(tenant)] == TWO_OFFERS.invitations;
  }

  lemma NormalForms()
    ensures Normalised("u@x") == "u@x" && Normalised("admin") == "admin"
  {
    assert Lower("u@x") == "u@x" && Lower("admin") == "admin";
  }

  lemma RacerIsAdmitted(id: string, tenant: string)
    requires (id == "i1" && tenant == "t1") || (id == "i2" && tenant == "t2")
    ensures JoinCheck(TWO_OFFERS, RACER, tenant, 0) == (Admitted, Some(MayJoin(RACER, id, OfferOf(tenant))))
  {
    assert id in TWO_OFFERS.invitations && TWO_OFFERS.invitations[id].tokenHash == tenant;
    assert TWO_OFFERS.invitations["i1"].tokenHash == "t1" && TWO_OFFERS.invitations["i2"].tokenHash == "t2"
        && "t1"[1] != "t2"[1];
    assert "t1"[0] != "u"[0] && "t2"[0] != "u"[0];
    hide Normalised;
  }

  lemma BothAreAdmitted()
    ensures After(TWO_OFFERS, RACE[..2]) == BOTH_ADMITTED
  {
    hide JoinCheck;
    RacerIsAdmitted("i1", "t1");
    RacerIsAdmitted("i2", "t2");
    assert RACE[..2][..1] == RACE[..1] && RACE[..1][..0] == [];
    assert After(TWO_OFFERS, RACE[..1]) == System(TWO_OFFERS, map["c1" := MayJoin(RACER, "i1", OfferOf("t1"))]);
  }

  function FirstJoined(): System {
    System(Join(TWO_OFFERS, RACER, "i1", OfferOf("t1")).0, BOTH_ADMITTED.sessions - {"c1"})
  }

  lemma FirstJoins()
    ensures Next(BOTH_ADMITTED, CommitJoin("c1", 20)) == (FirstJoined(), Joined)
    ensures Next(FirstJoined(), CommitJoin("c2", 20)).1 == Joined
    ensures "c2" in FirstJoined().sessions && FirstJoined().sessions["c2"] == MayJoin(RACER, "i2", OfferOf("t2"))
  {
    hide JoinCheck, Strip;
    RacersAddressIsFree();
  }

  lemma RacersAddressIsFree()
    ensures Strip("u@x") == "u@x" && "u@x" != "a@t1" && "u@x" != "a@t2"
  {
    assert "u@x"[0] != "a@t1"[0] && "u@x"[0] != "a@t2"[0];
  }

  lemma TwoOffersAreSound()
    ensures Sound(TWO_OFFERS) && OfferOf("t1").tenant != OfferOf("t2").tenant
  {
    assert "t1"[1] != "t2"[1] && "a@t1"[3] != "a@t2"[3];
  }

  /** One user, let in twice before the first transaction, joins two organizations, and at time 20 accepts invitations
      that expired at time 10. */
  lemma RacingUserJoinsTwice()
    ensures Sound(TWO_OFFERS) && OfferOf("t1").tenant != OfferOf("t2").tenant
    ensures JoinsAt(TWO_OFFERS, RACE, 2, RACER, "i1") && JoinsAt(TWO_OFFERS, RACE, 3, RACER, "i2")
    ensures OfferOf("t1").expiresAt < RACE[2].now && OfferOf("t2").expiresAt < RACE[3].now
  {
    hide Next, FirstJoined, Sound, AfterJoin;
    TwoOffersAreSound();
    BothAreAdmitted();
    FirstJoins();
    assert RACE[..3][..2] == RACE[..2];
    assert After(TWO_OFFERS, RACE[..3]) == FirstJoined();
  }
}
