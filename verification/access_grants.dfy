/** Access levels and who may hand which of them to whom. */
module AccessGrants {
  import opened Wrappers

  type UserId = nat

  datatype Capability =
    | ViewVolunteers | EditVolunteers | ManageAssignments | RecordScreening | RecordCrc
    | ManageOrg | ManageRequirements | ViewAudit | ManageUsers

  datatype AccessLevel = AccessLevel(capabilities: set<Capability>, isScoped: bool)

  datatype Grant = Grant(level: AccessLevel, departments: set<nat>)

  type Grants = map<UserId, Grant>

  /** Compares the capabilities and whether there is a limit to departments; which departments, the caller compares. */
  predicate Covers(self: AccessLevel, other: AccessLevel) {
    if !(other.capabilities <= self.capabilities) then false
    else !(self.isScoped && !other.isScoped)
  }

  /** The departments a user is limited to; `None` is the whole church, the empty set is nothing at all. */
  function ScopeDepartmentIds(grants: Grants, user: UserId): Option<set<nat>> {
    if user !in grants then Some({})
    else if !grants[user].level.isScoped then None
    else Some(grants[user].departments)
  }

  lemma CoversIsPreorder(a: AccessLevel, b: AccessLevel, c: AccessLevel)
    ensures Covers(a, a)
    ensures Covers(a, b) && Covers(b, c) ==> Covers(a, c)
    ensures Covers(a, b) && Covers(b, a) ==> a == b
  {
  }

  // ---- Granting -----------------------------------------------------------------------

  function Applied(grants: Grants, subject: UserId, level: AccessLevel, departments: set<nat>,
                   granter: UserId): Result<Grants>
    requires granter in grants
  {
    var scope := ScopeDepartmentIds(grants, granter);
    if !Covers(grants[granter].level, level) then Refused
    else if scope.Some? && !(departments <= scope.value) then Refused
    else Success(grants[subject := Grant(level, if level.isScoped then departments else {})])
  }

  class GrantTable {
    var grants: Grants

    /** Writes a grant, refusing anything the granting user could not legitimately give. A call on behalf of
        nobody, and one by a user without a grant, is not checked. */
    method ApplyGrant(subject: UserId, level: AccessLevel, departments: set<nat>, grantedBy: Option<UserId>)
      returns (ok: bool)
      modifies this
      ensures grantedBy.Some? && grantedBy.value in old(grants) ==>
                var after := Applied(old(grants), subject, level, departments, grantedBy.value);
                ok == after.Success? && grants == if ok then after.value else old(grants)
      ensures grantedBy.None? || grantedBy.value !in old(grants) ==>
                ok && grants == old(grants)[subject := Grant(level, if level.isScoped then departments else {})]
    {
      if grantedBy.Some? && grantedBy.value in grants {
        var granting := grants[grantedBy.value].level;
        if !Covers(granting, level) {
          return false;
        }
        var scope := ScopeDepartmentIds(grants, grantedBy.value);
        if scope.Some? {
          var outside := departments - scope.value;
          if outside != {} {
            return false;
          }
          assert forall d :: d in departments ==> d !in outside;
        }
      }
      var kept := departments;
      if !level.isScoped && departments != {} {
        kept := {};
      }
      grants := grants[subject := Grant(level, kept)];
      return true;
    }
  }

  // ---- Authority over a run -----------------------------------------------------------

  /** What a user can do, and where; `None` is everywhere. */
  datatype Authority = Authority(capabilities: set<Capability>, scope: Option<set<nat>>)

  function AuthorityOf(g: Grant): Authority {
    Authority(g.level.capabilities, if g.level.isScoped then Some(g.departments) else None)
  }

  predicate AtMost(a: Authority, b: Authority) {
    a.capabilities <= b.capabilities && (b.scope.None? || (a.scope.Some? && a.scope.value <= b.scope.value))
  }

  lemma AtMostIsOrder(a: Authority, b: Authority, c: Authority)
    ensures AtMost(a, a)
    ensures AtMost(a, b) && AtMost(b, c) ==> AtMost(a, c)
  {
  }

  /** A grant goes through exactly when it is at most the granting user's own authority. */
  lemma GrantedIffCovered(grants: Grants, subject: UserId, level: AccessLevel, departments: set<nat>, granter: UserId)
    requires granter in grants
    ensures var asked := Grant(level, departments);
            Applied(grants, subject, level, departments, granter).Success?
            <==> AtMost(AuthorityOf(asked), AuthorityOf(grants[granter]))
  {
  }

  /** A grant that goes through gives its subject the capabilities asked for, over the departments asked for or over the
      whole church, in place of whatever the subject had; nobody else's grant changes. */
  lemma GrantGivesWhatIsAsked(grants: Grants, subject: UserId, level: AccessLevel, departments: set<nat>,
                              granter: UserId)
    requires granter in grants && Applied(grants, subject, level, departments, granter).Success?
    ensures var after := Applied(grants, subject, level, departments, granter).value;
            && subject in after
            && after[subject].level == level
            && AuthorityOf(after[subject]).capabilities == level.capabilities
            && (ScopeDepartmentIds(after, subject) == if level.isScoped then Some(departments) else None)
            && (!level.isScoped ==> after[subject].departments == {})
            && forall other :: other != subject ==>
                 (other in after <==> other in grants) && (other in grants ==> after[other] == grants[other])
  {
  }

  datatype Granting = Granting(subject: UserId, level: AccessLevel, departments: set<nat>, granter: UserId)

  /** A run of grants by people who hold one; a refused grant changes nothing. */
  function AfterGrants(grants: Grants, run: seq<Granting>): Grants
    decreases |run|
  {
    if run == [] then grants
    else
      var g := run[0];
      var next := if g.granter !in grants then grants
                  else
                    var after := Applied(grants, g.subject, g.level, g.departments, g.granter);
                    if after.Success? then after.value else grants;
      AfterGrants(next, run[1..])
  }

  /** No run of grants ever gives anybody more than somebody held at the start. */
  lemma {:induction false} NoEscalation(grants: Grants, run: seq<Granting>, user: UserId) returns (holder: UserId)
    requires user in AfterGrants(grants, run)
    ensures holder in grants && AtMost(AuthorityOf(AfterGrants(grants, run)[user]), AuthorityOf(grants[holder]))
    decreases |run|
  {
    if run == [] {
      holder := user;
    } else {
      var g := run[0];
      if g.granter in grants && Applied(grants, g.subject, g.level, g.departments, g.granter).Success? {
        holder := NoEscalation(grants[g.subject := Grant(g.level, if g.level.isScoped then g.departments else {})],
                               run[1..], user);
        if holder == g.subject {
          AtMostIsOrder(AuthorityOf(AfterGrants(grants, run)[user]),
                        AuthorityOf(Grant(g.level, if g.level.isScoped then g.departments else {})),
                        AuthorityOf(grants[g.granter]));
          holder := g.granter;
        }
      } else {
        holder := NoEscalation(grants, run[1..], user);
      }
    }
  }
}
