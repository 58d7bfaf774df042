/** What the checks and transactions of an invitation answer and write, field by field, and where an invitation comes
    from. Addresses are compared without the blanks around them and without the case of letters. */
module InvitationAnswers {
  import opened Options
  import opened LetterCase
  import opened Invitations

  // ----- addresses

  const BLANKS := {' ', '\t', '\n', '\U{b}', '\U{c}', '\r'}

  ghost predicate IsBlank(s: string) { forall c | c in s :: c in BLANKS }

  /** The second text is the first without the blanks around it. */
  ghost predicate IsTrimmed(s: string, t: string) {
    && (t != "" ==> t[0] !in BLANKS && t[|t| - 1] !in BLANKS)
    && exists front, back :: IsBlank(front) && IsBlank(back) && s == front + t + back
  }

  lemma BlanksAre(c: char)
    ensures IsSpace(c) <==> c in BLANKS
  {
    assert c as int == 9 || c as int == 10 || c as int == 11 || c as int == 12 || c as int == 13 || c as int == 32
      <==> c in BLANKS by {
      assert c as int as char == c;
    }
  }

  lemma {:induction false} StripTrims(s: string) returns (front: string, back: string)
    ensures IsBlank(front) && IsBlank(back) && s == front + Strip(s) + back
    ensures Strip(s) != "" ==> Strip(s)[0] !in BLANKS && Strip(s)[|Strip(s)| - 1] !in BLANKS
  {
    hide IsSpace;
    front, back := "", "";
    if s != "" {
      BlanksAre(s[0]);
      BlanksAre(s[|s| - 1]);
      if IsSpace(s[0]) {
        front, back := StripTrims(s[1..]);
        front := [s[0]] + front;
      } else if IsSpace(s[|s| - 1]) {
        front, back := StripTrims(s[..|s| - 1]);
        back := back + [s[|s| - 1]];
      }
    }
  }

  lemma {:induction false} TrimmedIsStripped(front: string, t: string, back: string)
    requires IsBlank(front) && IsBlank(back) && (t != "" ==> t[0] !in BLANKS && t[|t| - 1] !in BLANKS)
    ensures Strip(front + t + back) == t
    decreases |front| + |back|
  {
    hide IsSpace;
    var s := front + t + back;
    if s != "" {
      BlanksAre(s[0]);
      BlanksAre(s[|s| - 1]);
    }
    if front != "" {
      assert front[0] in front && s[1..] == front[1..] + t + back;
      TrimmedIsStripped(front[1..], t, back);
    } else if t == "" && back != "" {
      assert back[0] in back && s[1..] == front + t + back[1..];
      TrimmedIsStripped(front, t, back[1..]);
    } else if back != "" {
      assert back[|back| - 1] in back && s[..|s| - 1] == front + t + back[..|back| - 1];
      TrimmedIsStripped(front, t, back[..|back| - 1]);
    } else {
      assert s == t;
    }
  }

  /** Stripping gives the one text without the blanks around it. */
  lemma StripExactlyWhen(s: string, t: string)
    ensures Strip(s) == t <==> IsTrimmed(s, t)
  {
    hide Strip, IsBlank;
    var a, b := StripTrims(s);
    if IsTrimmed(s, t) {
      var front, back :| IsBlank(front) && IsBlank(back) && s == front + t + back;
      TrimmedIsStripped(front, t, back);
    }
  }

  /** The second text is the first without the blanks around it and in small letters. */
  ghost predicate IsNormalised(s: string, t: string) {
    InSmallLetters(t) && exists u :: IsTrimmed(s, u) && SameButCase(u, t)
  }

  lemma {:induction false} LowerExactlyWhen(u: string, t: string)
    ensures Lower(u) == t <==> InSmallLetters(t) && SameButCase(u, t)
  {
    forall i | 0 <= i < |u| && |u| == |t|
      ensures Lower(u)[i] == t[i] <==> !('A' <= t[i] <= 'Z') && SameLetter(u[i], t[i])
    {
    }
    if InSmallLetters(t) && SameButCase(u, t) {
      assert forall i | 0 <= i < |u| :: Lower(u)[i] == t[i];
    }
  }

  lemma NormalisedExactlyWhen(s: string, t: string)
    ensures Normalised(s) == t <==> IsNormalised(s, t)
  {
    hide Strip, Lower, IsTrimmed, InSmallLetters, SameButCase;
    forall u ensures Strip(s) == u <==> IsTrimmed(s, u) {
      StripExactlyWhen(s, u);
    }
    LowerExactlyWhen(Strip(s), t);
  }

  /** The addresses differ at most in the blanks around them and the case of letters, or the invitation has none. */
  ghost predicate IsAddressedTo(offer: Invitation, actor: Actor) {
    exists u, v ::
      IsTrimmed(offer.email, u) && IsTrimmed(actor.email, v) && (u == "" || SameButCase(u, v))
  }

  lemma SameAddress(u: string, v: string)
    ensures Lower(u) == Lower(v) <==> SameButCase(u, v)
  {
    hide Lower;
    LowerExactlyWhen(u, Lower(u));
    LowerExactlyWhen(u, Lower(v));
    LowerExactlyWhen(v, Lower(v));
    if SameButCase(u, v) {
      forall i | 0 <= i < |u| ensures SameLetter(u[i], Lower(v)[i]) {
        assert SameLetter(u[i], v[i]) && SameLetter(v[i], Lower(v)[i]);
      }
    }
    if Lower(u) == Lower(v) {
      forall i | 0 <= i < |u| ensures SameLetter(u[i], v[i]) {
        assert SameLetter(u[i], Lower(u)[i]) && SameLetter(v[i], Lower(u)[i]);
      }
    }
  }

  /** Whom an invitation is for. */
  lemma AddressedExactlyWhen(offer: Invitation, actor: Actor)
    ensures IsFor(offer, actor) <==> IsAddressedTo(offer, actor)
  {
    hide Strip, IsTrimmed, SameButCase;
    forall s, u ensures Strip(s) == u <==> IsTrimmed(s, u) {
      StripExactlyWhen(s, u);
    }
    SameAddress(Strip(offer.email), Strip(actor.email));
    assert Lower(Strip(offer.email)) == "" <==> Strip(offer.email) == "";
  }

  // ----- what an acceptance writes and when it can

  /** The address a user row gets: the caller's, else the row's, else one made of the id; without blanks around it. */
  ghost predicate IsNewAddress(users: map<string, User>, actor: Actor, email: string) {
    if actor.email != "" then IsTrimmed(actor.email, email)
    else if actor.id in users && users[actor.id].email != "" then IsTrimmed(users[actor.id].email, email)
    else IsTrimmed(actor.id + "@hosted.local", email)
  }

  /** No other user has the address the caller's row would get. */
  ghost predicate IsAddressFree(users: map<string, User>, actor: Actor) {
    forall email, x | IsNewAddress(users, actor, email) && x in users && x != actor.id :: users[x].email != email
  }

  ghost predicate IsOpen(db: Database, id: string) { id in db.invitations && db.invitations[id].status == Pending }

  ghost predicate IsRole(role: string) { role in ["", "viewer", "member", "admin", "owner"] }

  lemma HostedUserIs(users: map<string, User>, actor: Actor, tenant: string)
    ensures var user := HostedUser(users, actor, tenant);
            && user.tenant == Some(tenant)
            && forall email :: IsNewAddress(users, actor, email) <==> email == user.email
  {
    hide Strip, IsTrimmed;
    forall s, u ensures Strip(s) == u <==> IsTrimmed(s, u) {
      StripExactlyWhen(s, u);
    }
  }

  lemma AddressFreeExactlyWhen(users: map<string, User>, actor: Actor, tenant: string)
    ensures UsersAccept(users, actor.id, HostedUser(users, actor, tenant)) <==> IsAddressFree(users, actor)
  {
    hide HostedUser, IsNewAddress;
    HostedUserIs(users, actor, tenant);
    assert IsNewAddress(users, actor, HostedUser(users, actor, tenant).email);
  }

  /** The answer of the accepting transaction: it goes through exactly when no other user has the address, the
      invitation is pending and the role is one of the four. A pending status that is gone answers 409, whatever the
      role, and everything else 502. */
  lemma JoinAnswers(db: Database, actor: Actor, id: string, offer: Invitation)
    ensures Join(db, actor, id, offer).1 ==
              if !IsAddressFree(db.users, actor) then Refused(502)
              else if !IsOpen(db, id) then Refused(409)
              else if !IsRole(offer.role) then Refused(502) else Joined
  {
    hide UsersAccept, IsAddressFree, HostedUser;
    AddressFreeExactlyWhen(db.users, actor, offer.tenant);
  }

  /** The membership is active, with the invited role or else `member`, and with the inviter of the invitation, unless
      that is blank: then a known inviter stays. */
  ghost predicate IsMembershipOf(offer: Invitation, known: Option<Membership>, m: Membership) {
    && m.active
    && m.role == (if offer.role == "" then "member" else offer.role)
    && (if offer.invitedBy.Some? && !IsTrimmed(offer.invitedBy.value, "")
        then m.invitedBy.Some? && IsTrimmed(offer.invitedBy.value, m.invitedBy.value)
        else m.invitedBy == if known.Some? then known.value.invitedBy else None)
  }

  /** What an acceptance leaves of the three tables. */
  ghost predicate IsJoined(before: Database, after: Database, actor: Actor, id: string, offer: Invitation)
    requires id in before.invitations
  {
    var key := (offer.tenant, actor.id);
    && actor.id in after.users && key in after.memberships
    && after.users == before.users[actor.id := after.users[actor.id]]
    && after.users[actor.id].tenant == Some(offer.tenant)
    && IsNewAddress(before.users, actor, after.users[actor.id].email)
    && after.invitations == before.invitations[id := before.invitations[id].(status := AcceptedBy(actor.id))]
    && after.memberships == before.memberships[key := after.memberships[key]]
    && IsMembershipOf(offer, if key in before.memberships then Some(before.memberships[key]) else None,
         after.memberships[key])
  }

  lemma JoinMakes(db: Database, actor: Actor, id: string, offer: Invitation)
    requires Join(db, actor, id, offer).1 == Joined
    ensures id in db.invitations && IsJoined(db, Join(db, actor, id, offer).0, actor, id, offer)
  {
    hide UsersAccept, HostedUser, Strip, IsTrimmed, IsNewAddress;
    HostedUserIs(db.users, actor, offer.tenant);
    forall s, u ensures Strip(s) == u <==> IsTrimmed(s, u) {
      StripExactlyWhen(s, u);
    }
  }

  /** In any run, what an acceptance writes, from the row of the invitation as it then is. */
  lemma AcceptanceTells(start: Database, steps: seq<Step>, i: nat, actor: Actor, id: string)
    requires Sound(start) && i < |steps| && JoinsAt(start, steps, i, actor, id)
    ensures var before, after := After(start, steps[..i]).db, After(start, steps[..i + 1]).db;
            && id in before.invitations && IsAddressedTo(before.invitations[id], actor)
            && IsJoined(before, after, actor, id, before.invitations[id])
  {
    hide After, Join, IsJoined, CanJoin, AdmittedAt, IsFor, IsAddressedTo, Silent;
    JoinIsNoCheck(start, steps, i, actor, id);
    JoinsExactlyWhenReady(start, steps, i, actor, id);
    var k: nat, offer: Invitation :| k < i && Ready(start, steps, k, i, actor, id, offer);
    OfferIsCurrent(start, steps, k, i, actor, id, offer);
    JoinWrites(start, steps, i, actor, id);
    AddressedExactlyWhen(offer, actor);
    OfferOfSession(start, steps, i, k, actor, id, offer);
    assert steps[..i + 1][..i] == steps[..i];
    AfterStep(start, steps, i);
    JoinMakes(After(start, steps[..i]).db, actor, id, offer);
  }

  lemma AfterStep(start: Database, steps: seq<Step>, i: nat)
    requires i < |steps|
    ensures After(start, steps[..i + 1]) == Next(After(start, steps[..i]), steps[i]).0
  {
    hide Next;
    assert steps[..i + 1][..i] == steps[..i];
  }

  lemma OfferOfSession(start: Database, steps: seq<Step>, i: nat, k: nat, actor: Actor, id: string, offer: Invitation)
    requires Sound(start) && k < i < |steps| && Ready(start, steps, k, i, actor, id, offer) && steps[i].CommitJoin?
    requires JoinsAt(start, steps, i, actor, id)
    ensures var sys := After(start, steps[..i]);
            && Next(sys, steps[i]).0.db == Join(sys.db, actor, id, offer).0
            && Join(sys.db, actor, id, offer).1 == Joined
  {
    hide After, AdmittedAt, Join, CanJoin;
    EarlierAdmission(start, steps, i, k, steps[i].client, actor, id, offer);
    AdmissionLasts(start, steps[..i], k, steps[i].client, actor, id, offer);
  }

  // ----- what the check of an acceptance answers

  /** Who already belongs to an organization: by the token, an active membership or the user row. */
  ghost predicate BelongsSomewhere(db: Database, actor: Actor) {
    || actor.tenant != ""
    || (exists tenant :: (tenant, actor.id) in db.memberships && db.memberships[(tenant, actor.id)].active)
    || (actor.id in db.users && db.users[actor.id].tenant.Some?)
  }

  /** The row with this token is open and has not expired. */
  ghost predicate IsValidAt(db: Database, id: string, tokenHash: string, now: int) {
    && id in db.invitations && db.invitations[id].tokenHash == tokenHash
    && db.invitations[id].status == Pending && now <= db.invitations[id].expiresAt
  }

  /** The answer of the check, in the order of its guards. */
  lemma CheckAnswers(db: Database, actor: Actor, tokenHash: string, now: int)
    requires OnePending(db.invitations)
    ensures var (answer, session) := JoinCheck(db, actor, tokenHash, now);
            && (answer == Refused(409) <==> BelongsSomewhere(db, actor))
            && (answer == Refused(404) <==>
                  !BelongsSomewhere(db, actor) && forall id :: !IsValidAt(db, id, tokenHash, now))
            && (answer == Refused(403) <==>
                  !BelongsSomewhere(db, actor)
                  && exists id :: IsValidAt(db, id, tokenHash, now) && !IsAddressedTo(db.invitations[id], actor))
            && (answer == Admitted <==>
                  !BelongsSomewhere(db, actor)
                  && exists id :: IsValidAt(db, id, tokenHash, now) && IsAddressedTo(db.invitations[id], actor))
            && (answer == Admitted ==>
                  && session.Some? && session.value.MayJoin? && session.value.actor == actor
                  && IsValidAt(db, session.value.id, tokenHash, now)
                  && session.value.offer == db.invitations[session.value.id])
  {
    hide IsFor, IsAddressedTo;
    BelongsExactlyWhen(db, actor);
    hide HasOrganization, BelongsSomewhere;
    forall id | id in db.invitations
      ensures IsFor(db.invitations[id], actor) <==> IsAddressedTo(db.invitations[id], actor)
    {
      AddressedExactlyWhen(db.invitations[id], actor);
    }
    forall id | IsValidAt(db, id, tokenHash, now) ensures FindByToken(db.invitations, tokenHash) == Some(id) {
      FoundAlone(db.invitations, tokenHash, id);
    }
    var found := FindByToken(db.invitations, tokenHash);
    assert found.Some? && db.invitations[found.value].status.Pending? && now <= db.invitations[found.value].expiresAt
      ==> IsValidAt(db, found.value, tokenHash, now);
  }

  lemma BelongsExactlyWhen(db: Database, actor: Actor)
    ensures HasOrganization(db, actor) <==> BelongsSomewhere(db, actor)
  {
    if HasMembership(db, actor) {
      var key :| key in db.memberships && key.1 == actor.id && db.memberships[key].active;
      assert key == (key.0, actor.id);
    }
    if tenant :| (tenant, actor.id) in db.memberships && db.memberships[(tenant, actor.id)].active {
      var key := (tenant, actor.id);
      assert key.1 == actor.id;
    }
  }

  // ----- where an invitation comes from

  /** Step `k` let this client in to invite: the inviter was an active administrator of the organization. */
  ghost predicate InvitesAt(start: Database, steps: seq<Step>, k: nat, client: string, s: Session)
    requires k < |steps|
  {
    && s.MayInvite? && steps[k] == CheckInvite(client, s.inviter, s.tenant, s.email, s.role)
    && var db, key := After(start, steps[..k]).db, (s.tenant, s.inviter);
       key in db.memberships && db.memberships[key].active && IsNormalised(db.memberships[key].role, "admin")
  }

  lemma InviteCheckIs(db: Database, inviter: string, tenant: string, email: string, role: string)
    ensures var (answer, session) := InviteCheck(db, inviter, tenant, email, role);
            var key := (tenant, inviter);
            var isAdmin := key in db.memberships && db.memberships[key].active
              && IsNormalised(db.memberships[key].role, "admin");
            && answer == (if isAdmin then Admitted else Refused(403))
            && session == if isAdmin then Some(MayInvite(inviter, tenant, email, role)) else None
  {
    hide Normalised, IsNormalised;
    var key := (tenant, inviter);
    if key in db.memberships {
      NormalisedExactlyWhen(db.memberships[key].role, "admin");
    }
  }

  lemma EarlierInvite(start: Database, steps: seq<Step>, n: nat, k: nat, client: string, s: Session)
    requires k < n <= |steps|
    ensures InvitesAt(start, steps[..n], k, client, s) == InvitesAt(start, steps, k, client, s)
  {
    assert steps[..n][..k] == steps[..k] && steps[..n][k] == steps[k];
  }

  lemma JoinCheckOpens(db: Database, actor: Actor, tokenHash: string, now: int)
    ensures var opened' := JoinCheck(db, actor, tokenHash, now).1; opened'.Some? ==> opened'.value.MayJoin?
  {
  }

  /** A client that may invite was let in by its last step. */
  lemma {:induction false} InviteHasOrigin(start: Database, steps: seq<Step>, client: string)
    requires client in After(start, steps).sessions && After(start, steps).sessions[client].MayInvite?
    ensures var s := After(start, steps).sessions[client];
            exists k: nat ::
                k < |steps| && InvitesAt(start, steps, k, client, s) && Silent(steps, client, k + 1, |steps|)
  {
    hide Join, Invite, InviteCheck, JoinCheck, NewInvitation, InvitesAt;
    var n := |steps| - 1;
    var before, s := After(start, steps[..n]), After(start, steps).sessions[client];
    if steps[n].client != client {
      InviteHasOrigin(start, steps[..n], client);
      var k: nat :|
          k < n && InvitesAt(start, steps[..n], k, client, s) && Silent(steps[..n], client, k + 1, n);
      EarlierInvite(start, steps, n, k, client, s);
      assert forall i | 0 <= i < n :: steps[..n][i] == steps[i];
    } else {
      if steps[n].CheckJoin? {
        JoinCheckOpens(before.db, steps[n].actor, steps[n].tokenHash, steps[n].now);
      }
      assert steps[n].CheckInvite?;
      InviteCheckIs(before.db, steps[n].inviter, steps[n].tenant, steps[n].email, steps[n].role);
      LastInvite(start, steps, s);
    }
  }

  lemma LastInvite(start: Database, steps: seq<Step>, s: Session)
    requires steps != [] && steps[|steps| - 1].CheckInvite?
    requires var step := steps[|steps| - 1];
             InviteCheck(After(start, steps[..|steps| - 1]).db, step.inviter, step.tenant, step.email, step.role) ==
                 (Admitted, Some(s))
    ensures InvitesAt(start, steps, |steps| - 1, steps[|steps| - 1].client, s)
  {
    hide After, InviteCheck, IsNormalised;
    var step := steps[|steps| - 1];
    InviteCheckIs(After(start, steps[..|steps| - 1]).db, step.inviter, step.tenant, step.email, step.role);
  }

  /** The row a creation inserts. */
  ghost predicate IsNewRow(s: Session, step: Step, row: Invitation)
    requires s.MayInvite? && step.CommitInvite?
  {
    && row.tenant == s.tenant && IsNormalised(s.email, row.email) && row.role == s.role
    && row.tokenHash == step.tokenHash && row.status == Pending && row.invitedBy == Some(s.inviter)
    && row.expiresAt == step.expiresAt
  }

  /** The id, the token hash or the pair of organization and address of a pending invitation is taken. */
  ghost predicate IsTaken(invitations: map<string, Invitation>, id: string, row: Invitation) {
    || id in invitations
    || (exists x :: x in invitations && invitations[x].tokenHash == row.tokenHash)
    || (exists x :: x in invitations && invitations[x].status == Pending && invitations[x].tenant == row.tenant
          && invitations[x].email == row.email)
  }

  /** In any run, an invitation is only created when the client's last step let it in as an administrator of the
      organization and no row stands in the way; it is the only row written. */
  lemma CreationTells(start: Database, steps: seq<Step>, i: nat)
    requires i < |steps|
    ensures var sys, step := After(start, steps[..i]), steps[i];
            Next(sys, step).1 == Created ==>
              && step.CommitInvite?
              && exists k: nat, s: Session, row: Invitation ::
                   && k < i && InvitesAt(start, steps, k, step.client, s) && Silent(steps, step.client, k + 1, i)
                   && IsNewRow(s, step, row) && !IsTaken(sys.db.invitations, step.id, row)
                   && Next(sys, step).0.db == sys.db.(invitations := sys.db.invitations[step.id := row])
  {
    hide After, InvitesAt, Join, InviteCheck, JoinCheck, IsNormalised, Normalised;
    var sys, step := After(start, steps[..i]), steps[i];
    if Next(sys, step).1 == Created {
      CreatedByCommit(sys, step);
      var s := sys.sessions[step.client];
      InviteHasOrigin(start, steps[..i], step.client);
      var k: nat :|
          k < i && InvitesAt(start, steps[..i], k, step.client, s) && Silent(steps[..i], step.client, k + 1, i);
      EarlierInvite(start, steps, i, k, step.client, s);
      assert forall j | 0 <= j < i :: steps[..i][j] == steps[j];
      NormalisedExactlyWhen(s.email, Normalised(s.email));
      assert IsNewRow(s, step, NewInvitation(s, step.tokenHash, step.expiresAt));
    }
  }

  lemma CreatedByCommit(sys: System, step: Step)
    requires Next(sys, step).1 == Created
    ensures step.CommitInvite? && step.client in sys.sessions && sys.sessions[step.client].MayInvite?
  {
    hide CanJoin, AfterJoin, UsersAccept;
  }

  /** The transaction creates it exactly when the client may invite and no row stands in the way; else it answers
      409. */
  lemma CreatesExactlyWhen(sys: System, step: Step)
    requires step.CommitInvite?
    ensures Next(sys, step).1 == Created <==>
              && step.client in sys.sessions && sys.sessions[step.client].MayInvite?
              && forall row | IsNewRow(sys.sessions[step.client], step, row) ::
                   !IsTaken(sys.db.invitations, step.id, row)
    ensures step.client in sys.sessions && sys.sessions[step.client].MayInvite? && Next(sys, step).1 != Created ==>
              Next(sys, step).1 == Refused(409)
  {
    hide IsNormalised, Normalised;
    if step.client in sys.sessions && sys.sessions[step.client].MayInvite? {
      var s := sys.sessions[step.client];
      forall t ensures Normalised(s.email) == t <==> IsNormalised(s.email, t) {
        NormalisedExactlyWhen(s.email, t);
      }
      var new' := NewInvitation(s, step.tokenHash, step.expiresAt);
      assert IsNewRow(s, step, new') && forall row | IsNewRow(s, step, row) :: row == new';
    }
  }
}
