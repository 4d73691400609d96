/** What a church requires, of whom, and how one requirement waits on another. */
module Definitions {
  import opened Wrappers
  import opened Calendar

  type DefId = nat

  datatype Role = Role(pk: nat, isLeadership: bool)

  datatype Cadence = OneTime | Annual | Every3Years | CustomMonths(months: nat)

  datatype AppliesTo = AllRoles | SpecificRoles(roles: set<nat>) | Leadership

  /** `dueMonthsAfterPrerequisite` is 0 where the column is blank. */
  datatype Definition = Definition(
    isCrc: bool,
    cadence: Cadence,
    appliesTo: AppliesTo,
    adultsOnly: bool,
    mustFollow: Option<DefId>,
    gate: bool,
    dueMonthsAfterPrerequisite: nat,
    sequence: nat,
    isActive: bool)

  /** Months between renewals, 0 for a one-time requirement. */
  function IntervalMonths(def: Definition): nat {
    match def.cadence
    case OneTime => 0
    case Annual => 12
    case Every3Years => 36
    case CustomMonths(n) => n
  }

  ghost function ExpiryFor(def: Definition, completedOn: Day): Option<Day> {
    var months := IntervalMonths(def);
    if months > 0 then Some(ShiftMonths(completedOn, months)) else None
  }

  predicate IsGated(def: Definition) {
    def.gate && def.mustFollow.Some?
  }

  function PrerequisiteOffsetMonths(def: Definition): nat {
    if def.dueMonthsAfterPrerequisite > 0 then def.dueMonthsAfterPrerequisite else IntervalMonths(def)
  }

  predicate AppliesToRole(def: Definition, role: Role) {
    match def.appliesTo
    case AllRoles => true
    case SpecificRoles(roles) => role.pk in roles
    case Leadership => role.isLeadership
  }

  predicate AppliesToRoles(def: Definition, roles: seq<Role>) {
    exists i :: 0 <= i < |roles| && AppliesToRole(def, roles[i])
  }
}
