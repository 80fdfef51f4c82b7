/** The policy table that answers authorization questions at run time, and its seeding at start-up. */
module Casbin {
  import opened Basics
  import opened Domain
  import opened Authorization

  const RULE_ADMIN := "admin"
  const RULE_ADMIN_EXCEPT_SELF_DEACTIVATE := "admin_except_self_deactivate"
  const RULE_OWNER_OR_ADMIN := "owner_or_admin"
  const RULE_OPEN_NON_OWNER := "open_non_owner"
  const RULE_TAKER := "taker"

  datatype Policy = Policy(action: string, kind: string, rule: string)

  const BASELINE: seq<Policy> := [
    Policy(ADMIN_ACCESS, ADMIN_TYPE, RULE_ADMIN),
    Policy(USER_LIST, ADMIN_TYPE, RULE_ADMIN),
    Policy(USER_CREATE, ADMIN_TYPE, RULE_ADMIN),
    Policy(USER_UPDATE, USER_TYPE, RULE_ADMIN_EXCEPT_SELF_DEACTIVATE),
    Policy(SUBREQUEST_DELETE, SUBREQUEST_TYPE, RULE_OWNER_OR_ADMIN),
    Policy(SUBREQUEST_TAKE, SUBREQUEST_TYPE, RULE_OPEN_NON_OWNER),
    Policy(SUBREQUEST_UNTAKE, SUBREQUEST_TYPE, RULE_TAKER)
  ]

  /** The rows as they stand in the stored table. */
  lemma BaselineAsStored()
    ensures BASELINE == [
              Policy("admin:access", "admin", "admin"),
              Policy("user:list", "admin", "admin"),
              Policy("user:create", "admin", "admin"),
              Policy("user:update", "user", "admin_except_self_deactivate"),
              Policy("subrequest:delete", "subrequest", "owner_or_admin"),
              Policy("subrequest:take", "subrequest", "open_non_owner"),
              Policy("subrequest:untake", "subrequest", "taker")]
  {
  }

  predicate MatchesRule(rule: string, user: CurrentUser, resource: Resource) {
    if rule == RULE_ADMIN then user.IsAdmin()
    else if rule == RULE_ADMIN_EXCEPT_SELF_DEACTIVATE then
      user.IsAdmin() && (!resource.disableTarget || resource.targetUserId != user.id)
    else if rule == RULE_OWNER_OR_ADMIN then resource.ownerUserId == user.id || user.IsAdmin()
    else if rule == RULE_OPEN_NON_OWNER then resource.subRequestOpen && resource.ownerUserId != user.id
    else if rule == RULE_TAKER then resource.hasTaker && resource.takerUserId == user.id
    else false
  }

  /** A stored row with a rule this version does not know decides nothing. */
  lemma UnknownRuleMatchesNothing(p: Policy, user: CurrentUser, action: string, resource: Resource)
    requires p.rule !in {"admin", "admin_except_self_deactivate", "owner_or_admin", "open_non_owner", "taker"}
    ensures !Matches(p, user, action, resource)
  {
  }

  predicate Matches(p: Policy, user: CurrentUser, action: string, resource: Resource) {
    action == p.action && resource.kind == p.kind && MatchesRule(p.rule, user, resource)
  }

  /** The policy effect: some row of the table matches. */
  predicate Enforce(table: seq<Policy>, user: CurrentUser, action: string, resource: Resource) {
    exists p | p in table :: Matches(p, user, action, resource)
  }

  /** The resource type an action is about: the text of the action before its colon, except that
      listing and creating users are asked about the admin area. */
  function OwnType(action: string): Option<string> {
    if action in {ADMIN_ACCESS, USER_LIST, USER_CREATE} then Some(ADMIN_TYPE)
    else if action == USER_UPDATE then Some(USER_TYPE)
    else if action in {SUBREQUEST_DELETE, SUBREQUEST_TAKE, SUBREQUEST_UNTAKE} then Some(SUBREQUEST_TYPE)
    else None
  }

  /** One baseline row decides as the built-in rule of its action does, on its own type only. */
  lemma BaselineRowMatchesRule(p: Policy, user: CurrentUser, action: string, resource: Resource)
    requires p in BASELINE
    ensures OwnType(p.action) == Some(p.kind)
    ensures Matches(p, user, action, resource) <==>
              action == p.action && resource.kind == p.kind && Allowed(user, action, resource)
  {
    var i :| 0 <= i < |BASELINE| && BASELINE[i] == p;
  }

  lemma EveryActionHasARow(action: string)
    requires OwnType(action).Some?
    ensures exists p :: p in BASELINE && p.action == action && p.kind == OwnType(action).value
  {
  }

  predicate SameRows(a: seq<Policy>, b: seq<Policy>) {
    (forall p | p in a :: p in b) && (forall p | p in b :: p in a)
  }

  /** Exact meaning of the seeded table, for every subject, action and resource. */
  lemma SeededTableExact(table: seq<Policy>, user: CurrentUser, action: string, resource: Resource)
    requires SameRows(table, BASELINE)
    ensures Enforce(table, user, action, resource) <==>
              Allowed(user, action, resource) && OwnType(action) == Some(resource.kind)
  {
    if Enforce(table, user, action, resource) {
      var p :| p in table && Matches(p, user, action, resource);
      BaselineRowMatchesRule(p, user, action, resource);
    }
    if Allowed(user, action, resource) && OwnType(action) == Some(resource.kind) {
      EveryActionHasARow(action);
      var p :| p in BASELINE && p.action == action && p.kind == resource.kind;
      BaselineRowMatchesRule(p, user, action, resource);
      assert p in table;
    }
  }

  /** A table with rows missing never allows what the built-in rules refuse. */
  lemma PartialTableIsSound(table: seq<Policy>, user: CurrentUser, action: string, resource: Resource)
    requires forall p | p in table :: p in BASELINE
    requires Enforce(table, user, action, resource)
    ensures Allowed(user, action, resource)
  {
    var p :| p in table && Matches(p, user, action, resource);
    BaselineRowMatchesRule(p, user, action, resource);
  }

  /** Every resource the application builds has its action's own type, so there the table and the rules agree. */
  lemma TableAgreesOnApplicationResources(table: seq<Policy>, user: CurrentUser, sr: SubRequest,
                                            target: int, disable: bool)
    requires SameRows(table, BASELINE)
    ensures Enforce(table, user, SUBREQUEST_DELETE, SubRequestResource(sr)) <==> MayDelete(user, sr)
    ensures Enforce(table, user, SUBREQUEST_TAKE, SubRequestResource(sr)) <==> MayTake(user, sr)
    ensures Enforce(table, user, SUBREQUEST_UNTAKE, SubRequestResource(sr)) <==> MayUntake(user, sr)
    ensures Enforce(table, user, USER_UPDATE, UserResource(target, disable)) <==>
              Allowed(user, USER_UPDATE, UserResource(target, disable))
    ensures forall action | action in {ADMIN_ACCESS, USER_LIST, USER_CREATE} ::
              Enforce(table, user, action, AdminResource()) <==> Allowed(user, action, AdminResource())
  {
    SeededTableExact(table, user, SUBREQUEST_DELETE, SubRequestResource(sr));
    SeededTableExact(table, user, SUBREQUEST_TAKE, SubRequestResource(sr));
    SeededTableExact(table, user, SUBREQUEST_UNTAKE, SubRequestResource(sr));
    SeededTableExact(table, user, USER_UPDATE, UserResource(target, disable));
    forall action | action in {ADMIN_ACCESS, USER_LIST, USER_CREATE}
      ensures Enforce(table, user, action, AdminResource()) <==> Allowed(user, action, AdminResource())
    {
      SeededTableExact(table, user, action, AdminResource());
    }
  }

  /** The authorizer a service is given: the built-in rules, or a policy table. */
  datatype Authorizer = BuiltIn | PolicyTable(policies: seq<Policy>) {
    predicate Authorizes(user: CurrentUser, action: string, resource: Resource) {
      match this
      case BuiltIn => Allowed(user, action, resource)
      case PolicyTable(policies) => Enforce(policies, user, action, resource)
    }

    /** The table, if there is one, holds the seeded rows. */
    predicate Seeded() { PolicyTable? ==> SameRows(policies, BASELINE) }
  }

  /** With a policy table nothing else decides: an action is allowed exactly if some row names it, the resource's type,
      and a rule that holds. An empty table refuses everything. */
  lemma TableDecides(table: seq<Policy>, user: CurrentUser, action: string, resource: Resource)
    ensures PolicyTable(table).Authorizes(user, action, resource) <==>
              exists rule :: Policy(action, resource.kind, rule) in table && MatchesRule(rule, user, resource)
    ensures table == [] ==> !PolicyTable(table).Authorizes(user, action, resource)
  {
    if rule :| Policy(action, resource.kind, rule) in table && MatchesRule(rule, user, resource) {
      assert Matches(Policy(action, resource.kind, rule), user, action, resource);
    }
  }

  // ---- Seeding ----

  function DistinctRows(rows: seq<Policy>): (r: seq<Policy>)
    ensures forall p :: p in r <==> p in rows
    ensures forall i, j | 0 <= i < j < |r| :: r[i] != r[j]
  {
    if rows == [] then []
    else
      var init := DistinctRows(rows[..|rows| - 1]);
      var last := rows[|rows| - 1];
      assert rows == rows[..|rows| - 1] + [last];
      if last in init then init else init + [last]
  }

  /** Rows come in the order in which they first occur: more rows only ever add at the end. */
  lemma {:induction false} DistinctRowsGrow(rows: seq<Policy>, more: seq<Policy>)
    ensures DistinctRows(rows) <= DistinctRows(rows + more)
  {
    if more == [] {
      assert rows + more == rows;
    } else {
      DistinctRowsGrow(rows, more[..|more| - 1]);
      assert (rows + more)[..|rows + more| - 1] == rows + more[..|more| - 1];
    }
  }

  lemma DistinctSnoc(rows: seq<Policy>, p: Policy)
    ensures DistinctRows(rows + [p]) == if p in rows then DistinctRows(rows) else DistinctRows(rows) + [p]
  {
  }

  lemma OneMoreRow(before: seq<Policy>, rows: seq<Policy>, i: nat)
    requires i < |rows|
    ensures var had := DistinctRows(before + rows[..i]);
            DistinctRows(before + rows[..i + 1]) == if rows[i] in had then had else had + [rows[i]]
  {
    DistinctSnoc(before + rows[..i], rows[i]);
    assert before + rows[..i + 1] == before + rows[..i] + [rows[i]];
  }

  /** The enforcer: the stored table and the copy of it that decisions are made on. */
  class Enforcer {
    var stored: seq<Policy>
    var policies: seq<Policy>

    constructor (stored: seq<Policy>)
      ensures this.stored == stored && policies == []
    {
      this.stored := stored;
      policies := [];
    }

    /** Reads the stored table, skipping repeated rows. */
    method LoadPolicy()
      modifies this`policies
      ensures policies == DistinctRows(stored)
    {
      policies := [];
      for i := 0 to |stored|
        invariant policies == DistinctRows(stored[..i])
      {
        DistinctSnoc(stored[..i], stored[i]);
        assert stored[..i + 1] == stored[..i] + [stored[i]];
        if stored[i] !in policies {
          policies := policies + [stored[i]];
        }
      }
      assert stored[..|stored|] == stored;
    }

    /** Adds the given rows that are not in the table yet, in order. */
    method AddPoliciesEx(rows: seq<Policy>)
      requires DistinctRows(policies) == policies
      modifies this`policies
      ensures policies == DistinctRows(old(policies) + rows)
    {
      ghost var before := policies;
      assert before + rows[..0] == before;
      for i := 0 to |rows|
        invariant policies == DistinctRows(before + rows[..i])
      {
        OneMoreRow(before, rows, i);
        if rows[i] !in policies {
          policies := policies + [rows[i]];
        }
      }
      assert rows[..|rows|] == rows;
    }

    method SavePolicy()
      modifies this`stored
      ensures stored == policies
    {
      stored := policies;
    }

    /** Seeding keeps every stored row, adds exactly the missing baseline rows, and leaves the stored
        table and the table in use equal. */
    method SeedBaselinePolicy()
      modifies this
      ensures policies == stored == DistinctRows(old(stored) + BASELINE)
    {
      LoadPolicy();
      DistinctRowsIdempotent(stored);
      AddPoliciesEx(BASELINE);
      DistinctRowsAbsorbs(stored, BASELINE);
      SavePolicy();
    }
  }

  lemma {:induction false} DistinctIsFixed(rows: seq<Policy>)
    requires forall i, j | 0 <= i < j < |rows| :: rows[i] != rows[j]
    ensures DistinctRows(rows) == rows
  {
    if rows != [] {
      DistinctIsFixed(rows[..|rows| - 1]);
      assert rows == rows[..|rows| - 1] + [rows[|rows| - 1]];
    }
  }

  lemma DistinctRowsIdempotent(rows: seq<Policy>)
    ensures DistinctRows(DistinctRows(rows)) == DistinctRows(rows)
  {
  }

  lemma {:induction false} DistinctRowsAbsorbs(a: seq<Policy>, b: seq<Policy>)
    ensures DistinctRows(DistinctRows(a) + b) == DistinctRows(a + b)
  {
    if b == [] {
      assert a + b == a && DistinctRows(a) + b == DistinctRows(a);
      DistinctRowsIdempotent(a);
    } else {
      var init, last := b[..|b| - 1], b[|b| - 1];
      DistinctRowsAbsorbs(a, init);
      assert (a + b)[..|a + b| - 1] == a + init;
      assert (DistinctRows(a) + b)[..|DistinctRows(a) + b| - 1] == DistinctRows(a) + init;
    }
  }

  /** Seeding twice is seeding once, and seeding changes a decision only where the baseline allows it;
      for a table drawn from the baseline the outcome is exactly the baseline's decision. */
  lemma SeedingDecisions(table: seq<Policy>, user: CurrentUser, action: string, resource: Resource)
    ensures var seeded := DistinctRows(table + BASELINE);
            && DistinctRows(seeded + BASELINE) == seeded
            && (Enforce(seeded, user, action, resource) <==>
              Enforce(table, user, action, resource)
                       || (Allowed(user, action, resource) && OwnType(action) == Some(resource.kind)))
            && ((forall p | p in table :: p in BASELINE) ==> SameRows(seeded, BASELINE))
  {
    var seeded := DistinctRows(table + BASELINE);
    forall p ensures p in seeded <==> p in table || p in BASELINE {}
    DistinctRowsAbsorbs(table + BASELINE, BASELINE);
    BaselineAddsNothingTwice(table);
    SeededTableExact(BASELINE, user, action, resource);
    if Enforce(seeded, user, action, resource) {
      var p :| p in seeded && Matches(p, user, action, resource);
      assert Enforce(table, user, action, resource) || Enforce(BASELINE, user, action, resource);
    }
    if Enforce(table, user, action, resource) {
      var p :| p in table && Matches(p, user, action, resource);
      assert p in seeded;
    }
    if Enforce(BASELINE, user, action, resource) {
      var p :| p in BASELINE && Matches(p, user, action, resource);
      assert p in seeded;
    }
  }

  lemma {:induction false} KnownRowsAddNothing(rows: seq<Policy>, more: seq<Policy>)
    requires forall p | p in more :: p in rows
    ensures DistinctRows(rows + more) == DistinctRows(rows)
  {
    if more == [] {
      assert rows + more == rows;
    } else {
      KnownRowsAddNothing(rows, more[..|more| - 1]);
      assert (rows + more)[..|rows + more| - 1] == rows + more[..|more| - 1];
      assert more[|more| - 1] in rows;
    }
  }

  lemma BaselineAddsNothingTwice(table: seq<Policy>)
    ensures DistinctRows(table + BASELINE + BASELINE) == DistinctRows(table + BASELINE)
  {
    KnownRowsAddNothing(table + BASELINE, BASELINE);
  }
}
