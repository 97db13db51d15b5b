/**
 Who may join, invite, promote and remove in an organization, and what every
 history of authorized steps keeps true of it.
 */
module Tenancy {
  import opened Bytes
  import opened Results
  import opened Sets

  datatype Role = Viewer | Member | Admin | Owner

  function Rank(r: Role): nat {
    match r
    case Viewer => 0
    case Member => 1
    case Admin => 2
    case Owner => 3
  }

  predicate AtLeast(r: Role, required: Role) {
    Rank(r) >= Rank(required)
  }

  datatype Seats = Seats(purchased: nat, occupied: nat, reserved: nat) {
    /** Both the sum and the difference saturate. */
    function Available(): nat {
      var used := if occupied + reserved > U32_MAX then U32_MAX else occupied + reserved;
      if purchased > used then purchased - used else 0
    }

    predicate HasRoom() {
      Available() > 0
    }
  }

  datatype OnboardingError =
    | NoSeatsAvailable(seats: Seats)
    | DomainNotAllowed(domain: string)
    | InvitationNotOpen
    | InvitationAddressMismatch
    | LastOwner
    | RoleEscalation(actor: Role, granted: Role)
    | InvalidEmail

  datatype InvitationState = Open | Accepted | Revoked | Expired

  datatype Invitation = Invitation(email: string, role: Role, state: InvitationState, expiresAt: int) {
    predicate IsOpen(now: int) {
      state == Open && now < expiresAt
    }
  }

  /** A parsed address: its normalized form and its domain. */
  datatype Address = Address(normalized: string, domain: string)

  datatype JoinPolicy = JoinPolicy(
    verifiedDomains: set<string>,
    domainJoinEnabled: bool,
    restrictInvitations: bool,
    defaultRole: Role)

  // ------------------------------------------------------------------
  // The rules; an address that does not parse is None
  // ------------------------------------------------------------------

  function AuthorizeInvitation(actor: Role, granted: Role, email: Option<Address>, seats: Seats, policy: JoinPolicy)
    : Result<string, OnboardingError>
  {
    if !AtLeast(actor, Admin) then Err(RoleEscalation(actor, granted))
    else if Rank(granted) > Rank(actor) then Err(RoleEscalation(actor, granted))
    else if email.None? then Err(InvalidEmail)
    else if policy.restrictInvitations && email.value.domain !in policy.verifiedDomains then
      Err(DomainNotAllowed(email.value.domain))
    else if !seats.HasRoom() then Err(NoSeatsAvailable(seats))
    else Ok(email.value.normalized)
  }

  function AcceptInvitation(invitation: Invitation, email: Option<Address>, seats: Seats, now: int)
    : Result<Role, OnboardingError>
  {
    if !invitation.IsOpen(now) then Err(InvitationNotOpen)
    else if email.None? then Err(InvalidEmail)
    else if email.value.normalized != invitation.email then Err(InvitationAddressMismatch)
    else if seats.occupied >= seats.purchased && seats.reserved == 0 then Err(NoSeatsAvailable(seats))
    else Ok(invitation.role)
  }

  function AuthorizeDomainJoin(email: Option<Address>, seats: Seats, policy: JoinPolicy)
    : Result<Role, OnboardingError>
  {
    if email.None? then Err(InvalidEmail)
    else if !(policy.domainJoinEnabled && email.value.domain in policy.verifiedDomains) then
      Err(DomainNotAllowed(email.value.domain))
    else if !seats.HasRoom() then Err(NoSeatsAvailable(seats))
    else Ok(policy.defaultRole)
  }

  function AuthorizeRoleChange(actor: Role, current: Role, next: Role, ownerCount: nat): Result<(), OnboardingError> {
    if !AtLeast(actor, Admin) || Rank(next) > Rank(actor) || Rank(current) > Rank(actor) then
      Err(RoleEscalation(actor, next))
    else if current == Owner && next != Owner && ownerCount <= 1 then Err(LastOwner)
    else Ok(())
  }

  function AuthorizeRemoval(actor: Role, target: Role, ownerCount: nat): Result<(), OnboardingError> {
    if !AtLeast(actor, Admin) || Rank(target) > Rank(actor) then Err(RoleEscalation(actor, target))
    else if target == Owner && ownerCount <= 1 then Err(LastOwner)
    else Ok(())
  }

  // ------------------------------------------------------------------
  // An organization over time
  // ------------------------------------------------------------------

  /** Where a member's present role came from. */
  datatype Grant = Founded | InvitedBy(grantor: Role) | JoinedByDomain | ChangedBy(grantor: Role)

  /** How a member came in, and when. */
  datatype Entry = AsFounder | ByInvitation(id: nat, address: string, at: int) | ByDomain(domain: string)

  datatype Membership = Membership(role: Role, grant: Grant, entry: Entry)

  datatype Invited = Invited(invitation: Invitation, grantor: Role, domain: string)

  datatype Org = Org(
    members: map<nat, Membership>,
    invitations: map<nat, Invited>,
    purchased: nat,
    policy: JoinPolicy,
    now: int)

  function OpenInvitations(org: Org): set<nat> {
    set i | i in org.invitations && org.invitations[i].invitation.IsOpen(org.now)
  }

  function Owners(org: Org): set<nat> {
    set m | m in org.members && org.members[m].role == Owner
  }

  /** The ledger is computed from the rows it summarizes. */
  function Ledger(org: Org): Seats {
    Seats(org.purchased, |org.members|, |OpenInvitations(org)|)
  }

  datatype Action =
    | Invite(actor: nat, id: nat, email: Option<Address>, granted: Role, expiresAt: int)
    | Accept(id: nat, newcomer: nat, email: Option<Address>)
    | DomainJoin(newcomer: nat, email: Option<Address>)
    | ChangeRole(actor: nat, target: nat, next: Role)
    | Remove(actor: nat, target: nat)
    | Withdraw(id: nat)
    | Tick(now: int)
    | Buy(seats: nat)

  function Step(org: Org, a: Action): Org {
    match a
    case Invite(actor, id, email, granted, expiresAt) =>
      if actor !in org.members || id in org.invitations then org
      else
        var role := org.members[actor].role;
        (match AuthorizeInvitation(role, granted, email, Ledger(org), org.policy)
         case Ok(normalized) =>
           var invitation := Invitation(normalized, granted, Open, expiresAt);
           org.(invitations := org.invitations[id := Invited(invitation, role, email.value.domain)])
         case Err(_) => org)
    case Accept(id, newcomer, email) =>
      if id !in org.invitations || newcomer in org.members then org
      else
        var invited := org.invitations[id];
        (match AcceptInvitation(invited.invitation, email, Ledger(org), org.now)
         case Ok(role) =>
           var entry := ByInvitation(id, email.value.normalized, org.now);
           org.(members := org.members[newcomer := Membership(role, InvitedBy(invited.grantor), entry)],
                invitations := org.invitations[id := invited.(invitation := invited.invitation.(state := Accepted))])
         case Err(_) => org)
    case DomainJoin(newcomer, email) =>
      if newcomer in org.members then org
      else
        (match AuthorizeDomainJoin(email, Ledger(org), org.policy)
         case Ok(role) =>
           org.(members := org.members[newcomer := Membership(role, JoinedByDomain, ByDomain(email.value.domain))])
         case Err(_) => org)
    case ChangeRole(actor, target, next) =>
      if actor !in org.members || target !in org.members then org
      else
        var role := org.members[actor].role;
        (match AuthorizeRoleChange(role, org.members[target].role, next, |Owners(org)|)
         case Ok(_) =>
           org.(members := org.members[target := Membership(next, ChangedBy(role), org.members[target].entry)])
         case Err(_) => org)
    case Remove(actor, target) =>
      if actor !in org.members || target !in org.members then org
      else
        (match AuthorizeRemoval(org.members[actor].role, org.members[target].role, |Owners(org)|)
         case Ok(_) => org.(members := org.members - {target})
         case Err(_) => org)
    case Withdraw(id) =>
      if id !in org.invitations || org.invitations[id].invitation.state != Open then org
      else
        var invited := org.invitations[id];
        org.(invitations := org.invitations[id := invited.(invitation := invited.invitation.(state := Revoked))])
    case Tick(now) => if now >= org.now then org.(now := now) else org
    case Buy(seats) => if org.purchased + seats <= U32_MAX then org.(purchased := org.purchased + seats) else org
  }

  function Run(org: Org, actions: seq<Action>): Org {
    if |actions| == 0 then org else Step(Run(org, actions[..|actions| - 1]), actions[|actions| - 1])
  }

  /** No grant exceeds the role of whoever made it. */
  ghost predicate GrantWithin(role: Role, grant: Grant, defaultRole: Role) {
    match grant
    case Founded => true
    case InvitedBy(grantor) => AtLeast(grantor, Admin) && Rank(role) <= Rank(grantor)
    case ChangedBy(grantor) => AtLeast(grantor, Admin) && Rank(role) <= Rank(grantor)
    case JoinedByDomain => role == defaultRole
  }

  /**
   The rules let the member in: an invitation it accepted under its own address
   before it expired, or a verified domain.
   */
  ghost predicate EntryAllowed(org: Org, entry: Entry) {
    match entry
    case AsFounder => true
    case ByInvitation(id, address, at) =>
      && id in org.invitations
      && org.invitations[id].invitation.state == Accepted
      && org.invitations[id].invitation.email == address
      && at < org.invitations[id].invitation.expiresAt && at <= org.now
    case ByDomain(domain) => org.policy.domainJoinEnabled && domain in org.policy.verifiedDomains
  }

  /** Until its role is changed, a member holds what it was invited as, by whom it was invited. */
  ghost predicate HoldsWhatWasPromised(org: Org, m: Membership) {
    m.grant.InvitedBy? ==>
      && m.entry.ByInvitation? && m.entry.id in org.invitations
      && m.role == org.invitations[m.entry.id].invitation.role
      && m.grant.grantor == org.invitations[m.entry.id].grantor
  }

  ghost predicate EntriesSound(org: Org) {
    && (forall m :: m in org.members ==>
          EntryAllowed(org, org.members[m].entry) && HoldsWhatWasPromised(org, org.members[m]))
    && (forall m, n :: m in org.members && n in org.members && m != n
                       && org.members[m].entry.ByInvitation? && org.members[n].entry.ByInvitation? ==>
          org.members[m].entry.id != org.members[n].entry.id)
  }

  ghost predicate InvitationSound(invited: Invited, policy: JoinPolicy) {
    && AtLeast(invited.grantor, Admin)
    && Rank(invited.invitation.role) <= Rank(invited.grantor)
    && (policy.restrictInvitations ==> invited.domain in policy.verifiedDomains)
  }

  ghost predicate RolesSound(org: Org) {
    && (forall m :: m in org.members ==> GrantWithin(org.members[m].role, org.members[m].grant, org.policy.defaultRole))
    && (forall i :: i in org.invitations ==> InvitationSound(org.invitations[i], org.policy))
  }

  ghost predicate Inv(org: Org) {
    && org.purchased <= U32_MAX
    && |org.members| + |OpenInvitations(org)| <= org.purchased
    && Owners(org) != {}
    && RolesSound(org)
    && EntriesSound(org)
  }

  // ------------------------------------------------------------------
  // Every authorized step keeps it
  // ------------------------------------------------------------------

  lemma RoomMeansSpare(seats: Seats)
    requires seats.purchased <= U32_MAX
    ensures seats.HasRoom() <==> seats.occupied + seats.reserved < seats.purchased
  {
  }

  lemma NewMemberCount(members: map<nat, Membership>, id: nat, m: Membership)
    requires id !in members
    ensures |members[id := m]| == |members| + 1
  {
  }

  lemma RolesKeep(org: Org, a: Action)
    requires RolesSound(org)
    ensures RolesSound(Step(org, a))
  {
    hide OpenInvitations, Owners;
  }

  lemma EntriesKeep(org: Org, a: Action)
    requires EntriesSound(org)
    ensures EntriesSound(Step(org, a))
  {
    match a
    case Accept(_, _, _) => AcceptedEntriesKeep(org, a);
    case Invite(_, _, _, _, _) => InvitedEntriesKeep(org, a);
    case Withdraw(_) => WithdrawnEntriesKeep(org, a);
    case DomainJoin(_, _) => JoinedEntriesKeep(org, a);
    case ChangeRole(_, _, _) => ChangedEntriesKeep(org, a);
    case _ => OtherEntriesKeep(org, a);
  }

  lemma JoinedEntriesKeep(org: Org, a: Action)
    requires EntriesSound(org) && a.DomainJoin?
    ensures EntriesSound(Step(org, a))
  {
    hide OpenInvitations, Owners;
    var org' := Step(org, a);
    forall m | m in org'.members
      ensures EntryAllowed(org', org'.members[m].entry) && HoldsWhatWasPromised(org', org'.members[m])
    {
      assert m in org.members ==> EntryAllowed(org, org.members[m].entry) && HoldsWhatWasPromised(org, org.members[m]);
    }
  }

  lemma ChangedEntriesKeep(org: Org, a: Action)
    requires EntriesSound(org) && a.ChangeRole?
    ensures EntriesSound(Step(org, a))
  {
    hide OpenInvitations, Owners, AuthorizeRoleChange;
    var org' := Step(org, a);
    forall m | m in org'.members
      ensures EntryAllowed(org', org'.members[m].entry) && HoldsWhatWasPromised(org', org'.members[m])
      ensures org'.members[m].entry == org.members[m].entry
    {
      assert EntryAllowed(org, org.members[m].entry) && HoldsWhatWasPromised(org, org.members[m]);
    }
  }

  lemma OtherEntriesKeep(org: Org, a: Action)
    requires EntriesSound(org) && (a.Remove? || a.Tick? || a.Buy?)
    ensures EntriesSound(Step(org, a))
  {
    hide OpenInvitations, Owners, AuthorizeRemoval;
    var org' := Step(org, a);
    forall m | m in org'.members
      ensures EntryAllowed(org', org'.members[m].entry) && HoldsWhatWasPromised(org', org'.members[m])
      ensures m in org.members && org'.members[m] == org.members[m]
    {
      assert EntryAllowed(org, org.members[m].entry) && HoldsWhatWasPromised(org, org.members[m]);
    }
  }

  lemma AcceptedEntriesKeep(org: Org, a: Action)
    requires EntriesSound(org) && a.Accept?
    ensures EntriesSound(Step(org, a))
  {
    hide OpenInvitations, Owners, Rank;
    var org' := Step(org, a);
    if org' != org {
      var joined := org'.members[a.newcomer];
      assert org'.members == org.members[a.newcomer := joined];
      assert EntryAllowed(org', joined.entry) && HoldsWhatWasPromised(org', joined);
      forall m | m in org.members
        ensures EntryAllowed(org', org.members[m].entry) && HoldsWhatWasPromised(org', org.members[m])
        ensures org.members[m].entry.ByInvitation? ==> org.members[m].entry.id != a.id
      {
        assert EntryAllowed(org, org.members[m].entry) && HoldsWhatWasPromised(org, org.members[m]);
      }
    }
  }

  lemma InvitedEntriesKeep(org: Org, a: Action)
    requires EntriesSound(org) && a.Invite?
    ensures EntriesSound(Step(org, a))
  {
    hide OpenInvitations, Owners, AuthorizeInvitation;
    var org' := Step(org, a);
    forall m | m in org.members
      ensures EntryAllowed(org', org.members[m].entry) && HoldsWhatWasPromised(org', org.members[m])
    {
      assert EntryAllowed(org, org.members[m].entry) && HoldsWhatWasPromised(org, org.members[m]);
    }
  }

  lemma WithdrawnEntriesKeep(org: Org, a: Action)
    requires EntriesSound(org) && a.Withdraw?
    ensures EntriesSound(Step(org, a))
  {
    var org' := Step(org, a);
    forall m | m in org.members
      ensures EntryAllowed(org', org.members[m].entry) && HoldsWhatWasPromised(org', org.members[m])
    {
      assert EntryAllowed(org, org.members[m].entry) && HoldsWhatWasPromised(org, org.members[m]);
    }
  }

  lemma InviteKeeps(org: Org, a: Action)
    requires Inv(org) && a.Invite?
    ensures Inv(Step(org, a))
  {
    RolesKeep(org, a);
    EntriesKeep(org, a);
    hide RolesSound, EntriesSound;
    var org' := Step(org, a);
    if org' != org {
      RoomMeansSpare(Ledger(org));
      assert Owners(org') == Owners(org);
      assert OpenInvitations(org') <= OpenInvitations(org) + {a.id};
      SubsetSize(OpenInvitations(org'), OpenInvitations(org) + {a.id});
    }
  }

  lemma AcceptKeeps(org: Org, a: Action)
    requires Inv(org) && a.Accept?
    ensures Inv(Step(org, a))
  {
    RolesKeep(org, a);
    EntriesKeep(org, a);
    hide RolesSound, EntriesSound;
    var org' := Step(org, a);
    if org' != org {
      NewMemberCount(org.members, a.newcomer, org'.members[a.newcomer]);
      assert a.id in OpenInvitations(org);
      assert OpenInvitations(org') == OpenInvitations(org) - {a.id};
      assert Owners(org) <= Owners(org');
    }
  }

  lemma DomainJoinKeeps(org: Org, a: Action)
    requires Inv(org) && a.DomainJoin?
    ensures Inv(Step(org, a))
  {
    RolesKeep(org, a);
    EntriesKeep(org, a);
    hide RolesSound, EntriesSound;
    var org' := Step(org, a);
    if org' != org {
      RoomMeansSpare(Ledger(org));
      NewMemberCount(org.members, a.newcomer, org'.members[a.newcomer]);
      assert OpenInvitations(org') == OpenInvitations(org);
      assert Owners(org) <= Owners(org');
    }
  }

  lemma AnotherOwner(org: Org, target: nat)
    requires |Owners(org)| > 1
    ensures Owners(org) - {target} != {}
  {
    if Owners(org) <= {target} {
      SubsetSize(Owners(org), {target});
    }
  }

  lemma OwnersAfterUpdate(org: Org, org': Org, target: nat, m: Membership)
    requires target in org.members && org'.members == org.members[target := m]
    ensures Owners(org') == if m.role == Owner then Owners(org) + {target} else Owners(org) - {target}
    ensures |org'.members| == |org.members|
  {
    assert org'.members.Keys == org.members.Keys;
  }

  lemma ChangeRoleKeeps(org: Org, a: Action)
    requires Inv(org) && a.ChangeRole?
    ensures Inv(Step(org, a))
  {
    RolesKeep(org, a);
    EntriesKeep(org, a);
    hide RolesSound, EntriesSound, Owners;
    var org' := Step(org, a);
    if org' != org {
      OwnersAfterUpdate(org, org', a.target, org'.members[a.target]);
      assert OpenInvitations(org') == OpenInvitations(org);
      if a.next == Owner {
        assert a.target in Owners(org');
      } else if a.target in Owners(org) {
        OwnersAre(org, a.target);
        AnotherOwner(org, a.target);
      }
    }
  }

  lemma OwnersAre(org: Org, m: nat)
    ensures m in Owners(org) <==> m in org.members && org.members[m].role == Owner
  {
  }

  lemma RemoveKeeps(org: Org, a: Action)
    requires Inv(org) && a.Remove?
    ensures Inv(Step(org, a))
  {
    RolesKeep(org, a);
    EntriesKeep(org, a);
    hide RolesSound, EntriesSound;
    var org' := Step(org, a);
    if org' != org {
      assert org'.members.Keys == org.members.Keys - {a.target};
      assert OpenInvitations(org') == OpenInvitations(org);
      assert Owners(org') == Owners(org) - {a.target};
      if a.target in Owners(org) {
        AnotherOwner(org, a.target);
      }
    }
  }

  lemma OtherKeeps(org: Org, a: Action)
    requires Inv(org) && (a.Withdraw? || a.Tick? || a.Buy?)
    ensures Inv(Step(org, a))
  {
    RolesKeep(org, a);
    EntriesKeep(org, a);
    hide RolesSound, EntriesSound;
    var org' := Step(org, a);
    assert Owners(org') == Owners(org);
    assert OpenInvitations(org') <= OpenInvitations(org);
    SubsetSize(OpenInvitations(org'), OpenInvitations(org));
  }

  lemma {:induction false} RunKeeps(org: Org, actions: seq<Action>)
    requires Inv(org)
    ensures Inv(Run(org, actions)) && Run(org, actions).policy == org.policy
  {
    hide Inv, Step;
    if |actions| > 0 {
      var before, last := Run(org, actions[..|actions| - 1]), actions[|actions| - 1];
      RunKeeps(org, actions[..|actions| - 1]);
      PolicyIsFixed(before, last);
      match last
      case Invite(_, _, _, _, _) => InviteKeeps(before, last);
      case Accept(_, _, _) => AcceptKeeps(before, last);
      case DomainJoin(_, _) => DomainJoinKeeps(before, last);
      case ChangeRole(_, _, _) => ChangeRoleKeeps(before, last);
      case Remove(_, _) => RemoveKeeps(before, last);
      case _ => OtherKeeps(before, last);
    }
  }

  lemma PolicyIsFixed(org: Org, a: Action)
    ensures Step(org, a).policy == org.policy
  {
  }

  // ------------------------------------------------------------------
  // What an organization can rely on
  // ------------------------------------------------------------------

  /** A founding: members hold founding roles, one of them an owner, and seats cover them. */
  ghost predicate IsFounding(org: Org) {
    && org.invitations == map[]
    && |org.members| <= org.purchased <= U32_MAX
    && Owners(org) != {}
    && forall m :: m in org.members ==> org.members[m].grant == Founded && org.members[m].entry == AsFounder
  }

  lemma FoundingIsSound(org: Org)
    requires IsFounding(org)
    ensures Inv(org)
  {
    assert OpenInvitations(org) == {};
  }

  /** Always an owner, never more people and open invitations than seats, and no owner made by less than one. */
  lemma OrganizationStaysSound(org: Org, actions: seq<Action>)
    requires IsFounding(org)
    ensures
      var later := Run(org, actions);
      && Owners(later) != {}
      && |later.members| + |OpenInvitations(later)| <= later.purchased
      && forall m :: m in Owners(later) ==>
           || later.members[m].grant in {Founded, InvitedBy(Owner), ChangedBy(Owner)}
           || (later.members[m].grant == JoinedByDomain && org.policy.defaultRole == Owner)
  {
    hide Run, OpenInvitations;
    FoundingIsSound(org);
    RunKeeps(org, actions);
    var later := Run(org, actions);
    forall m | m in Owners(later)
      ensures
        || later.members[m].grant in {Founded, InvitedBy(Owner), ChangedBy(Owner)}
        || (later.members[m].grant == JoinedByDomain && org.policy.defaultRole == Owner)
    {
      assert GrantWithin(later.members[m].role, later.members[m].grant, later.policy.defaultRole);
    }
  }

  /**
   Nobody gets in but by the rules: under a policy that restricts invitations
   all invited addresses are in verified domains, everyone who came by
   invitation accepted it under the invited address before it expired, and holds
   the role it promised until that is changed, no invitation admits two members,
   and everyone who came by domain came from a verified one.
   */
  lemma NobodyEntersUninvited(org: Org, actions: seq<Action>)
    requires IsFounding(org)
    ensures
      var later := Run(org, actions);
      && EntriesSound(later)
      && (org.policy.restrictInvitations ==>
            forall i :: i in later.invitations ==> later.invitations[i].domain in org.policy.verifiedDomains)
  {
    hide Run, EntriesSound;
    FoundingIsSound(org);
    RunKeeps(org, actions);
  }

  // ------------------------------------------------------------------
  // Exactly when each step is taken, in plain terms
  // ------------------------------------------------------------------

  lemma RoleOrder(a: Role, b: Role)
    ensures AtLeast(a, b) <==> a == b || b == Viewer || a == Owner || (a == Admin && b == Member)
    ensures Rank(a) > Rank(b) <==> !AtLeast(b, a)
  {
  }

  /** An invitation that is open is accepted under its own address before it expires, and by nobody else. */
  lemma AcceptExactly(org: Org, id: nat, newcomer: nat, email: Option<Address>)
    requires Inv(org) && id in org.invitations && newcomer !in org.members
    ensures
      var invited := org.invitations[id];
      var i := invited.invitation;
      Step(org, Accept(id, newcomer, email)) ==
        if i.state == Open && org.now < i.expiresAt && email.Some? && email.value.normalized == i.email then
          org.(members := org.members[newcomer :=
                 Membership(i.role, InvitedBy(invited.grantor), ByInvitation(id, i.email, org.now))],
               invitations := org.invitations[id := invited.(invitation := i.(state := Accepted))])
        else org
  {
    hide EntriesSound, RolesSound;
    OpenIsCounted(org, id);
  }

  /** The ledger reserves a seat for an invitation exactly while it is open and has not expired. */
  lemma OpenIsCounted(org: Org, id: nat)
    ensures id in OpenInvitations(org) <==>
            && id in org.invitations && org.invitations[id].invitation.state == Open
            && org.now < org.invitations[id].invitation.expiresAt
    ensures id in OpenInvitations(org) ==> Ledger(org).reserved > 0
  {
  }

  /** Once it has expired, an invitation admits nobody and holds no seat, whatever happens. */
  lemma {:induction false} ExpiredIsDead(org: Org, actions: seq<Action>, id: nat, newcomer: nat,
                                         email: Option<Address>)
    requires id in org.invitations && org.invitations[id].invitation.expiresAt <= org.now
    ensures
      var later := Run(org, actions);
      && id in later.invitations && later.invitations[id].invitation.expiresAt <= later.now
      && id !in OpenInvitations(later)
      && Step(later, Accept(id, newcomer, email)) == later
    decreases |actions|
  {
    var later := Run(org, actions);
    if |actions| > 0 {
      var before := actions[..|actions| - 1];
      ExpiredIsDead(org, before, id, newcomer, email);
      StaysExpired(Run(org, before), actions[|actions| - 1], id);
    }
    OpenIsCounted(later, id);
  }

  lemma StaysExpired(org: Org, a: Action, id: nat)
    requires id in org.invitations && org.invitations[id].invitation.expiresAt <= org.now
    ensures
      var org' := Step(org, a);
      id in org'.invitations && org'.invitations[id].invitation.expiresAt <= org'.now
  {
    hide OpenInvitations, Owners;
  }

  lemma InviteExactly(org: Org, actor: nat, id: nat, email: Option<Address>, granted: Role, expiresAt: int)
    requires Inv(org) && actor in org.members && id !in org.invitations
    ensures
      var role := org.members[actor].role;
      Step(org, Invite(actor, id, email, granted, expiresAt)) ==
        if && role in {Admin, Owner} && (granted == Owner ==> role == Owner)
           && email.Some?
           && (org.policy.restrictInvitations ==> email.value.domain in org.policy.verifiedDomains)
           && |org.members| + |OpenInvitations(org)| < org.purchased
        then
          org.(invitations := org.invitations[id :=
            Invited(Invitation(email.value.normalized, granted, Open, expiresAt), role, email.value.domain)])
        else org
  {
    hide EntriesSound, RolesSound, OpenInvitations;
    RoomMeansSpare(Ledger(org));
  }

  lemma DomainJoinExactly(org: Org, newcomer: nat, email: Option<Address>)
    requires Inv(org) && newcomer !in org.members
    ensures
      Step(org, DomainJoin(newcomer, email)) ==
        if && email.Some? && org.policy.domainJoinEnabled && email.value.domain in org.policy.verifiedDomains
           && |org.members| + |OpenInvitations(org)| < org.purchased
        then
          org.(members := org.members[newcomer :=
            Membership(org.policy.defaultRole, JoinedByDomain, ByDomain(email.value.domain))])
        else org
  {
    hide EntriesSound, RolesSound, OpenInvitations;
    RoomMeansSpare(Ledger(org));
  }

  lemma OneOwnerAlone(org: Org, m: nat)
    requires m in Owners(org)
    ensures |Owners(org)| <= 1 <==> Owners(org) == {m}
  {
    if |Owners(org)| > 1 {
      AnotherOwner(org, m);
    }
    if |Owners(org)| <= 1 {
      SubsetSize({m}, Owners(org));
      if o :| o in Owners(org) && o != m {
        assert |{m, o}| == 2;
        SubsetSize({m, o}, Owners(org));
      }
    }
  }

  /** Only owners touch owners, and the last one keeps the role. */
  lemma ChangeRoleExactly(org: Org, actor: nat, target: nat, next: Role)
    requires actor in org.members && target in org.members
    ensures
      var role, current := org.members[actor].role, org.members[target].role;
      Step(org, ChangeRole(actor, target, next)) ==
        if && role in {Admin, Owner} && (current == Owner || next == Owner ==> role == Owner)
           && (Owners(org) == {target} ==> next == Owner)
        then org.(members := org.members[target := Membership(next, ChangedBy(role), org.members[target].entry)])
        else org
  {
    OwnersAre(org, target);
    if target in Owners(org) {
      OneOwnerAlone(org, target);
    }
    hide Owners;
  }

  lemma RemoveExactly(org: Org, actor: nat, target: nat)
    requires actor in org.members && target in org.members
    ensures
      var role, current := org.members[actor].role, org.members[target].role;
      Step(org, Remove(actor, target)) ==
        if && role in {Admin, Owner} && (current == Owner ==> role == Owner) && Owners(org) != {target}
        then org.(members := org.members - {target})
        else org
  {
    OwnersAre(org, target);
    if target in Owners(org) {
      OneOwnerAlone(org, target);
    }
    hide Owners;
  }

  /** A refusal names the first thing that is wrong. */
  lemma RefusalsSayWhy(actor: Role, granted: Role, email: Option<Address>, seats: Seats, policy: JoinPolicy,
                       invitation: Invitation, now: int, target: Role, ownerCount: nat)
    requires seats.purchased <= U32_MAX
    ensures
      var r := AuthorizeInvitation(actor, granted, email, seats, policy);
      var mayGrant := actor in {Admin, Owner} && (granted == Owner ==> actor == Owner);
      var inDomain := email.Some? && (policy.restrictInvitations ==> email.value.domain in policy.verifiedDomains);
      && (r == Err(RoleEscalation(actor, granted)) <==> !mayGrant)
      && (r == Err(InvalidEmail) <==> mayGrant && email.None?)
      && (r.Err? && r.error.DomainNotAllowed? <==> mayGrant && email.Some? && !inDomain)
      && (r == Err(NoSeatsAvailable(seats)) <==>
            mayGrant && inDomain && seats.occupied + seats.reserved >= seats.purchased)
    ensures
      var r := AcceptInvitation(invitation, email, seats, now);
      var open := invitation.state == Open && now < invitation.expiresAt;
      && (r == Err(InvitationNotOpen) <==> !open)
      && (r == Err(InvalidEmail) <==> open && email.None?)
      && (r == Err(InvitationAddressMismatch) <==> open && email.Some? && email.value.normalized != invitation.email)
    ensures
      var r := AuthorizeDomainJoin(email, seats, policy);
      var inDomain := email.Some? && policy.domainJoinEnabled && email.value.domain in policy.verifiedDomains;
      && (r == Err(InvalidEmail) <==> email.None?)
      && (r.Err? && r.error.DomainNotAllowed? <==> email.Some? && !inDomain)
      && (r == Err(NoSeatsAvailable(seats)) <==>
            inDomain && seats.occupied + seats.reserved >= seats.purchased)
    ensures
      var may := actor in {Admin, Owner} && (target == Owner ==> actor == Owner);
      && (AuthorizeRemoval(actor, target, ownerCount) == Err(RoleEscalation(actor, target)) <==> !may)
      && (AuthorizeRemoval(actor, target, ownerCount) == Err(LastOwner) <==>
            may && target == Owner && ownerCount <= 1)
      && (AuthorizeRoleChange(actor, target, granted, ownerCount) == Err(RoleEscalation(actor, granted)) <==>
            !(may && (granted == Owner ==> actor == Owner)))
      && (AuthorizeRoleChange(actor, target, granted, ownerCount) == Err(LastOwner) <==>
            may && target == Owner && actor == Owner && granted != Owner && ownerCount <= 1)
  {
    RoomMeansSpare(seats);
  }

  /** What one may do, anyone of a higher role may do too. */
  lemma AuthorityIsMonotone(actor: Role, senior: Role, granted: Role, email: Option<Address>, seats: Seats,
                            policy: JoinPolicy, current: Role, ownerCount: nat)
    requires AtLeast(senior, actor)
    ensures AuthorizeInvitation(actor, granted, email, seats, policy).Ok? ==>
            AuthorizeInvitation(senior, granted, email, seats, policy)
            == AuthorizeInvitation(actor, granted, email, seats, policy)
    ensures AuthorizeRoleChange(actor, current, granted, ownerCount).Ok? ==>
            AuthorizeRoleChange(senior, current, granted, ownerCount).Ok?
    ensures AuthorizeRemoval(actor, current, ownerCount).Ok? ==>
            AuthorizeRemoval(senior, current, ownerCount).Ok?
  {
  }

  /** Accepting never runs out of seats while the ledger counts the invitation itself. */
  lemma AcceptNeverLacksSeats(org: Org, id: nat, email: Option<Address>)
    requires id in OpenInvitations(org)
    ensures !(AcceptInvitation(org.invitations[id].invitation, email, Ledger(org), org.now)
              == Err(NoSeatsAvailable(Ledger(org))))
  {
    assert OpenInvitations(org) != {};
  }

  /** The last owner can be neither removed nor demoted, by anyone. */
  lemma LastOwnerIsKept(org: Org, actor: nat, target: nat)
    requires actor in org.members && Owners(org) == {target}
    ensures Step(org, Remove(actor, target)) == org
    ensures forall next: Role :: next != Owner ==> Step(org, ChangeRole(actor, target, next)) == org
  {
    assert target in Owners(org);
  }

  // ------------------------------------------------------------------
  // Exactly one owner
  // ------------------------------------------------------------------

  /** An Owner invitation is accepted, a policy lets owners join, or an Owner promotes someone else. */
  ghost predicate MakesOwner(org: Org, a: Action) {
    match a
    case Accept(id, newcomer, email) =>
      && id in org.invitations && newcomer !in org.members
      && org.invitations[id].invitation.role == Owner
      && AcceptInvitation(org.invitations[id].invitation, email, Ledger(org), org.now).Ok?
    case DomainJoin(newcomer, email) =>
      && newcomer !in org.members
      && org.policy.defaultRole == Owner
      && AuthorizeDomainJoin(email, Ledger(org), org.policy).Ok?
    case ChangeRole(actor, target, next) =>
      && actor in org.members && target in org.members
      && next == Owner
      && org.members[actor].role == Owner && org.members[target].role != Owner
    case _ => false
  }

  lemma OwnersAfterJoin(org: Org, org': Org, newcomer: nat, m: Membership)
    requires newcomer !in org.members && org'.members == org.members[newcomer := m]
    ensures Owners(org') == if m.role == Owner then Owners(org) + {newcomer} else Owners(org)
    ensures newcomer !in Owners(org)
  {
  }

  lemma OwnersAfterRemoval(org: Org, org': Org, target: nat)
    requires org'.members == org.members - {target}
    ensures Owners(org') == Owners(org) - {target}
  {
  }

  lemma OwnersAfterEntry(org: Org, a: Action, o: nat) returns (other: nat)
    requires Owners(org) == {o} && (a.Accept? || a.DomainJoin?)
    ensures other != o && Owners(Step(org, a)) == if MakesOwner(org, a) then {o, other} else {o}
  {
    hide OpenInvitations;
    var org' := Step(org, a);
    other := o + 1;
    if org'.members != org.members {
      OwnersAfterJoin(org, org', a.newcomer, org'.members[a.newcomer]);
      hide Owners;
      if MakesOwner(org, a) {
        other := a.newcomer;
      }
    }
  }

  lemma OwnersAfterChange(org: Org, a: Action, o: nat) returns (other: nat)
    requires Owners(org) == {o} && (a.ChangeRole? || a.Remove?)
    ensures other != o && Owners(Step(org, a)) == if MakesOwner(org, a) then {o, other} else {o}
  {
    var org' := Step(org, a);
    other := o + 1;
    if org'.members != org.members {
      OwnersAre(org, a.target);
      if a.Remove? {
        OwnersAfterRemoval(org, org', a.target);
      } else {
        OwnersAfterUpdate(org, org', a.target, org'.members[a.target]);
      }
      hide Owners;
      if MakesOwner(org, a) {
        other := a.target;
      }
    }
  }

  /** With one owner, a step leaves exactly one if and only if it does not make another. */
  lemma OneOwnerStaysExactly(org: Org, a: Action, o: nat)
    requires Owners(org) == {o}
    ensures |Owners(Step(org, a))| == 1 <==> !MakesOwner(org, a)
    ensures !MakesOwner(org, a) ==> Owners(Step(org, a)) == {o}
  {
    if a.Accept? || a.DomainJoin? {
      hide Step, MakesOwner, Owners;
      var other := OwnersAfterEntry(org, a, o);
      assert |{o, other}| == 2;
    } else if a.ChangeRole? || a.Remove? {
      hide Step, MakesOwner, Owners;
      var other := OwnersAfterChange(org, a, o);
      assert |{o, other}| == 2;
    } else {
      hide Owners, OpenInvitations;
      SameMembersSameOwners(org, Step(org, a));
    }
  }

  lemma SameMembersSameOwners(org: Org, org': Org)
    requires org'.members == org.members
    ensures Owners(org') == Owners(org)
  {
  }

  ghost predicate NeverMakesOwner(org: Org, actions: seq<Action>)
    decreases |actions|
  {
    |actions| > 0 ==>
      && NeverMakesOwner(org, actions[..|actions| - 1])
      && !MakesOwner(Run(org, actions[..|actions| - 1]), actions[|actions| - 1])
  }

  ghost predicate AlwaysOneOwner(org: Org, actions: seq<Action>) {
    forall k: nat :: k <= |actions| ==> |Owners(Run(org, actions[..k]))| == 1
  }

  /** A history has exactly one owner at every moment if and only if no step of it makes another. */
  lemma {:induction false} OneOwnerExactly(org: Org, actions: seq<Action>, o: nat)
    requires Owners(org) == {o}
    ensures AlwaysOneOwner(org, actions) <==> NeverMakesOwner(org, actions)
    ensures NeverMakesOwner(org, actions) ==> Owners(Run(org, actions)) == {o}
    decreases |actions|
  {
    hide Owners, Step, MakesOwner;
    assert actions[..|actions|] == actions;
    if |actions| == 0 {
      assert forall k: nat :: k <= |actions| ==> actions[..k] == [];
    } else {
      var before := actions[..|actions| - 1];
      OneOwnerExactly(org, before, o);
      assert forall k: nat :: k < |actions| ==> before[..k] == actions[..k];
      if NeverMakesOwner(org, before) {
        OneOwnerStaysExactly(Run(org, before), actions[|actions| - 1], o);
      } else {
        var k: nat :| k <= |before| && |Owners(Run(org, before[..k]))| != 1;
        assert actions[..k] == before[..k];
      }
    }
  }

  /** An organization founded with one owner, whose owner promotes an admin. */
  lemma SecondOwnerIsPossible(policy: JoinPolicy)
    ensures
      var founder := Membership(Owner, Founded, AsFounder);
      var org := Org(map[0 := founder, 1 := founder.(role := Admin)], map[], 2, policy, 0);
      && IsFounding(org) && Owners(org) == {0}
      && Owners(Run(org, [ChangeRole(0, 1, Owner)])) == {0, 1}
  {
    var founder := Membership(Owner, Founded, AsFounder);
    var org := Org(map[0 := founder, 1 := founder.(role := Admin)], map[], 2, policy, 0);
    var promote := ChangeRole(0, 1, Owner);
    assert org.members.Keys == {0, 1};
    assert [promote][..0] == [];
    assert Run(org, [promote]) == Step(org, promote);
    OwnersAfterUpdate(org, Step(org, promote), 1, Membership(Owner, ChangedBy(Owner), AsFounder));
  }
}
