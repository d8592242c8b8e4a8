/** The organization registry (`OrganizationTable`): insertion and update
    guarded by the uniqueness of `org_code`, deletion, the listing ordered by
    `updated_at`, and the set-valued `users` and `plans` columns.

    The registry is the `organization` table keyed by its primary key `id`.
    The clock reading and the `uuid4` value are parameters. */
module Organizations {
  import opened Common
  import opened IdLists

  /** An organization row. `plans` and `users` are nullable JSON columns,
      holding a list of ids or nothing; a stored JSON value that is not a list
      is not represented. */
  datatype Organization = Organization(
    id: string,
    orgName: string,
    orgCode: string,
    darkLogo: Option<string>,
    lightLogo: Option<string>,
    plans: Option<seq<string>>,
    users: Option<seq<string>>,
    status: string,
    signupEnabled: bool,
    createdAt: int,
    updatedAt: int)

  /** `OrganizationForm`: the fields of a new organization. */
  datatype OrganizationForm = OrganizationForm(
    orgName: string,
    orgCode: string,
    darkLogo: Option<string>,
    lightLogo: Option<string>,
    plans: Option<seq<string>>,
    users: Option<seq<string>>,
    status: Option<string>,
    signupEnabled: Option<bool>)

  /** `OrganizationUpdateForm`: every field optional; `None` means "keep". */
  datatype UpdateForm = UpdateForm(
    orgName: Option<string>,
    orgCode: Option<string>,
    darkLogo: Option<string>,
    lightLogo: Option<string>,
    plans: Option<seq<string>>,
    users: Option<seq<string>>,
    status: Option<string>,
    signupEnabled: Option<bool>)

  type Registry = map<string, Organization>

  /** The outcome of insert and update: a value, the conflict the code raises
      for a taken `org_code`, or the integrity error the table's own unique
      constraint raises. */
  datatype Reply<T> = Done(value: T) | CodeConflict | StoreError

  predicate KeyedById(reg: Registry) {
    forall k :: k in reg ==> reg[k].id == k
  }

  /** The `UNIQUE` constraint on `org_code`. */
  predicate CodesUnique(reg: Registry) {
    forall a, b :: a in reg && b in reg && reg[a].orgCode == reg[b].orgCode ==> a == b
  }

  predicate WellFormed(reg: Registry) {
    KeyedById(reg) && CodesUnique(reg)
  }

  predicate CodeHeld(reg: Registry, code: string) {
    exists k :: k in reg && reg[k].orgCode == code
  }

  predicate CodeHeldByOther(reg: Registry, code: string, id: string) {
    exists k :: k in reg && k != id && reg[k].orgCode == code
  }

  /** A new row takes each field the form supplies and the model default for
      each field it leaves `None`. */
  predicate FromForm(form: OrganizationForm, o: Organization) {
    && o.orgName == form.orgName
    && o.orgCode == form.orgCode
    && o.darkLogo == form.darkLogo
    && o.lightLogo == form.lightLogo
    && (form.plans.Some? ==> o.plans == form.plans)
    && (form.plans.None? ==> o.plans == Some([]))
    && (form.users.Some? ==> o.users == form.users)
    && (form.users.None? ==> o.users == Some([]))
    && (form.status.Some? ==> o.status == form.status.value)
    && (form.status.None? ==> o.status == "active")
    && (form.signupEnabled.Some? ==> o.signupEnabled == form.signupEnabled.value)
    && (form.signupEnabled.None? ==> o.signupEnabled)
  }

  /** An updated row takes each field the form supplies and keeps the others. */
  predicate FollowsForm(o: Organization, form: UpdateForm, o': Organization) {
    && o'.id == o.id
    && o'.createdAt == o.createdAt
    && o'.orgName == (if form.orgName.Some? then form.orgName.value else o.orgName)
    && o'.orgCode == (if form.orgCode.Some? then form.orgCode.value else o.orgCode)
    && o'.darkLogo == (if form.darkLogo.Some? then form.darkLogo else o.darkLogo)
    && o'.lightLogo == (if form.lightLogo.Some? then form.lightLogo else o.lightLogo)
    && o'.plans == (if form.plans.Some? then form.plans else o.plans)
    && o'.users == (if form.users.Some? then form.users else o.users)
    && o'.status == (if form.status.Some? then form.status.value else o.status)
    && o'.signupEnabled == (if form.signupEnabled.Some? then form.signupEnabled.value else o.signupEnabled)
  }

  /** `insert_new_organization`: refuses a taken code; otherwise adds one row
      under the new id with both timestamps at `now`. An id that is already a
      key makes the insert fail, which the code reports as no result. */
  function InsertNewOrganization(reg: Registry, form: OrganizationForm, now: int, newId: string)
    : (res: (Registry, Reply<Option<Organization>>))
    ensures res.1 == CodeConflict <==> CodeHeld(reg, form.orgCode)
    ensures res.1 != StoreError
    ensures res.1 == Done(None) <==> !CodeHeld(reg, form.orgCode) && newId in reg
    ensures !(res.1.Done? && res.1.value.Some?) ==> res.0 == reg
    ensures res.1.Done? && res.1.value.Some? ==>
      var o := res.1.value.value;
      && newId !in reg && res.0 == reg[newId := o]
      && o.id == newId && o.createdAt == now && o.updatedAt == now
      && FromForm(form, o)
    ensures WellFormed(reg) ==> WellFormed(res.0)
  {
    if exists k :: k in reg && reg[k].orgCode == form.orgCode then (reg, CodeConflict)
    else if newId in reg then (reg, Done(None))
    else
      var o := Organization(
        newId, form.orgName, form.orgCode, form.darkLogo, form.lightLogo,
        Some(form.plans.GetOr([])), Some(form.users.GetOr([])),
        form.status.GetOr("active"), form.signupEnabled.GetOr(true), now, now);
      (reg[newId := o], Done(Some(o)))
  }

  /** `update_organization_by_id`. A non-empty new code held by another row is
      a conflict; the row's own code may be kept. The empty code skips that
      check, so only the table's unique constraint can refuse it. Supplied
      fields overwrite, the rest stay, and `updated_at` becomes `now`. An
      unknown id updates nothing and yields no organization. */
  function UpdateOrganizationById(reg: Registry, id: string, form: UpdateForm, now: int)
    : (res: (Registry, Reply<Option<Organization>>))
    ensures res.1 == CodeConflict <==> Truthy(form.orgCode) && CodeHeldByOther(reg, form.orgCode.value, id)
    ensures CodesUnique(reg) ==>
              (res.1 == StoreError <==> id in reg && form.orgCode == Some("") && CodeHeldByOther(reg, "", id))
    ensures res.1 == Done(None) <==> id !in reg && !(Truthy(form.orgCode) && CodeHeldByOther(reg, form.orgCode.value, id))
    ensures !(res.1.Done? && res.1.value.Some?) ==> res.0 == reg
    ensures res.1.Done? && res.1.value.Some? ==>
      var o := res.1.value.value;
      && id in reg && res.0 == reg[id := o]
      && o.updatedAt == now && FollowsForm(reg[id], form, o)
    ensures WellFormed(reg) ==> WellFormed(res.0)
  {
    if Truthy(form.orgCode) && exists k :: k in reg && k != id && reg[k].orgCode == form.orgCode.value then
      (reg, CodeConflict)
    else if id !in reg then (reg, Done(None))
    else
      var o' := ApplyUpdate(reg[id], form, now);
      if exists k :: k in reg && k != id && reg[k].orgCode == o'.orgCode then (reg, StoreError)
      else
        UpdateKeepsWellFormed(reg, id, o');
        (reg[id := o'], Done(Some(o')))
  }

  /** The row `update_organization_by_id` writes: `model_dump(exclude_none=True)`
      over the old row, plus the new `updated_at`. */
  function ApplyUpdate(o: Organization, form: UpdateForm, now: int): (o': Organization)
    ensures FollowsForm(o, form, o') && o'.updatedAt == now
  {
    o.(
      orgName := form.orgName.GetOr(o.orgName),
      orgCode := form.orgCode.GetOr(o.orgCode),
      darkLogo := if form.darkLogo.Some? then form.darkLogo else o.darkLogo,
      lightLogo := if form.lightLogo.Some? then form.lightLogo else o.lightLogo,
      plans := if form.plans.Some? then form.plans else o.plans,
      users := if form.users.Some? then form.users else o.users,
      status := form.status.GetOr(o.status),
      signupEnabled := form.signupEnabled.GetOr(o.signupEnabled),
      updatedAt := now)
  }

  /** Rewriting one row under its own id keeps the table well formed as long
      as no other row holds the new code. */
  lemma UpdateKeepsWellFormed(reg: Registry, id: string, o': Organization)
    requires id in reg && o'.id == reg[id].id
    requires forall k :: k in reg && k != id ==> reg[k].orgCode != o'.orgCode
    ensures WellFormed(reg) ==> WellFormed(reg[id := o'])
  {
  }

  /** `delete_organization_by_id`: removes the row if there is one and reports
      success either way. */
  function DeleteOrganizationById(reg: Registry, id: string): (res: (Registry, bool))
    ensures res.1
    ensures res.0.Keys == reg.Keys - {id}
    ensures forall k :: k in res.0 ==> res.0[k] == reg[k]
    ensures WellFormed(reg) ==> WellFormed(res.0)
  {
    (map k | k in reg && k != id :: reg[k], true)
  }

  /** `get_organization_by_id`: the row stored under the id, if any. */
  function GetOrganizationById(reg: Registry, id: string): (r: Option<Organization>)
    ensures r.Some? <==> id in reg
    ensures r.Some? ==> r.value == reg[id]
  {
    if id in reg then Some(reg[id]) else None
  }

  /** An update under a known id is read back by id exactly as written. */
  lemma UpdateThenGet(reg: Registry, id: string, form: UpdateForm, now: int)
    ensures var res := UpdateOrganizationById(reg, id, form, now);
            res.1.Done? && res.1.value.Some? ==> GetOrganizationById(res.0, id) == res.1.value
  {
  }

  /** `get_organization_by_code`: a row holding the code; the unique
      constraint makes it the only one. */
  ghost function GetOrganizationByCode(reg: Registry, code: string): (r: Option<Organization>)
    ensures r.Some? <==> CodeHeld(reg, code)
    ensures r.Some? ==> r.value.orgCode == code && r.value in reg.Values
    ensures r.Some? && CodesUnique(reg) ==> forall k :: k in reg && reg[k].orgCode == code ==> reg[k] == r.value
  {
    if CodeHeld(reg, code) then
      var k :| k in reg && reg[k].orgCode == code;
      Some(reg[k])
    else None
  }

  /** Non-increasing `updated_at`, the order `get_organizations` asks for. */
  predicate NewestFirst(s: seq<Organization>) {
    forall i, j :: 0 <= i < j < |s| ==> s[i].updatedAt >= s[j].updatedAt
  }

  predicate DistinctIds(s: seq<Organization>) {
    forall i, j :: 0 <= i < j < |s| ==> s[i].id != s[j].id
  }

  /** Places `o` in a newest-first list after every row at least as new. */
  method InsertNewestFirst(s: seq<Organization>, o: Organization) returns (r: seq<Organization>)
    requires NewestFirst(s)
    ensures NewestFirst(r)
    ensures exists p :: 0 <= p <= |s| && r == s[..p] + [o] + s[p..]
  {
    var p := 0;
    while p < |s| && s[p].updatedAt >= o.updatedAt
      invariant 0 <= p <= |s|
      invariant forall j :: 0 <= j < p ==> s[j].updatedAt >= o.updatedAt
    {
      p := p + 1;
    }
    r := s[..p] + [o] + s[p..];
    assert forall j :: 0 <= j < p ==> r[j] == s[j];
    assert forall j :: p < j < |r| ==> r[j] == s[j - 1];
  }

  lemma SpliceKeepsDistinct(s: seq<Organization>, o: Organization, p: nat)
    requires p <= |s| && DistinctIds(s)
    requires forall x :: x in s ==> x.id != o.id
    ensures DistinctIds(s[..p] + [o] + s[p..])
    ensures forall x :: x in s[..p] + [o] + s[p..] <==> x in s || x == o
  {
    var r := s[..p] + [o] + s[p..];
    assert forall j :: 0 <= j < p ==> r[j] == s[j];
    assert forall j :: p < j < |r| ==> r[j] == s[j - 1];
    assert s == s[..p] + s[p..];
    forall i, j | 0 <= i < j < |r|
      ensures r[i].id != r[j].id
    {
      if i == p {
        assert r[j] in s;
      } else if j == p {
        assert r[i] in s;
      }
    }
  }

  /** `get_organizations`: every row exactly once, newest `updated_at` first.
      Rows with equal `updated_at` come in an order the source leaves open. */
  method GetOrganizations(reg: Registry) returns (r: seq<Organization>)
    requires KeyedById(reg)
    ensures |r| == |reg.Keys|
    ensures forall x :: x in r ==> x.id in reg && reg[x.id] == x
    ensures forall k :: k in reg ==> reg[k] in r
    ensures DistinctIds(r)
    ensures NewestFirst(r)
  {
    r := [];
    var rest := reg.Keys;
    while rest != {}
      invariant rest <= reg.Keys
      invariant |r| + |rest| == |reg.Keys|
      invariant forall x :: x in r ==> x.id in reg && x.id !in rest && reg[x.id] == x
      invariant forall k :: k in reg && k !in rest ==> reg[k] in r
      invariant DistinctIds(r)
      invariant NewestFirst(r)
      decreases rest
    {
      var k :| k in rest;
      var r' := InsertNewestFirst(r, reg[k]);
      var p :| 0 <= p <= |r| && r' == r[..p] + [reg[k]] + r[p..];
      SpliceKeepsDistinct(r, reg[k], p);
      r := r';
      rest := rest - {k};
    }
  }

  /** Which set-valued column an operation works on. */
  datatype ListField = UsersList | PlansList

  function ListOf(o: Organization, f: ListField): Option<seq<string>> {
    match f
    case UsersList => o.users
    case PlansList => o.plans
  }

  /** The stored list, with a missing value read as empty. */
  function Items(l: Option<seq<string>>): seq<string> {
    l.GetOr([])
  }

  function WithList(o: Organization, f: ListField, l: seq<string>, now: int): Organization {
    match f
    case UsersList => o.(users := Some(l), updatedAt := now)
    case PlansList => o.(plans := Some(l), updatedAt := now)
  }

  /** The two rows agree on every column except list `f` and `updated_at`. */
  predicate SameExcept(o: Organization, o': Organization, f: ListField) {
    && o'.id == o.id && o'.orgName == o.orgName && o'.orgCode == o.orgCode
    && o'.darkLogo == o.darkLogo && o'.lightLogo == o.lightLogo
    && o'.status == o.status && o'.signupEnabled == o.signupEnabled
    && o'.createdAt == o.createdAt
    && (f == UsersList ==> o'.plans == o.plans)
    && (f == PlansList ==> o'.users == o.users)
  }

  /** The shared body of `add_users_to_organization` and
      `add_plans_to_organization`: read the list (missing counts as empty),
      de-duplicate it, append each given id not yet present, refresh
      `updated_at`. */
  function AddToList(reg: Registry, id: string, f: ListField, ids: seq<string>, now: int)
    : (res: (Registry, Option<Organization>))
    ensures id !in reg ==> res == (reg, None)
    ensures id in reg ==> res.1.Some? && res.0 == reg[id := res.1.value]
    ensures id in reg ==>
      var o, o' := reg[id], res.1.value;
      && ListOf(o', f).Some?
      && NoDup(ListOf(o', f).value)
      && Elems(ListOf(o', f).value) == Elems(Items(ListOf(o, f))) + Elems(ids)
      && o'.updatedAt == now
      && SameExcept(o, o', f)
    ensures WellFormed(reg) ==> WellFormed(res.0)
  {
    if id !in reg then (reg, None)
    else
      var o := reg[id];
      var o' := WithList(o, f, AddAll(Dedupe(Items(ListOf(o, f))), ids), now);
      (reg[id := o'], Some(o'))
  }

  /** The shared body of `remove_users_from_organization` and
      `remove_plans_from_organization`: a missing or empty list returns the row
      untouched; otherwise de-duplicate, drop each given id present, refresh
      `updated_at` whether or not anything was dropped. */
  function RemoveFromList(reg: Registry, id: string, f: ListField, ids: seq<string>, now: int)
    : (res: (Registry, Option<Organization>))
    ensures id !in reg ==> res == (reg, None)
    ensures id in reg && Items(ListOf(reg[id], f)) == [] ==> res == (reg, Some(reg[id]))
    ensures id in reg && Items(ListOf(reg[id], f)) != [] ==>
      res.1.Some? && res.0 == reg[id := res.1.value] &&
      var o, o' := reg[id], res.1.value;
      && ListOf(o', f).Some?
      && NoDup(ListOf(o', f).value)
      && Elems(ListOf(o', f).value) == Elems(Items(ListOf(o, f))) - Elems(ids)
      && o'.updatedAt == now
      && SameExcept(o, o', f)
    ensures WellFormed(reg) ==> WellFormed(res.0)
  {
    if id !in reg then (reg, None)
    else
      var o := reg[id];
      var current := Items(ListOf(o, f));
      if current == [] then (reg, Some(o))
      else
        var o' := WithList(o, f, RemoveAll(Dedupe(current), ids), now);
        (reg[id := o'], Some(o'))
  }

  /** `add_users_to_organization`. */
  function AddUsersToOrganization(reg: Registry, id: string, userIds: seq<string>, now: int)
    : (res: (Registry, Option<Organization>))
    ensures res.1.Some? <==> id in reg
    ensures res.1.None? ==> res.0 == reg
    ensures res.1.Some? ==>
      var o, o' := reg[id], res.1.value;
      && res.0 == reg[id := o']
      && o'.users.Some? && NoDup(o'.users.value)
      && Elems(o'.users.value) == Elems(Items(o.users)) + Elems(userIds)
      && o'.plans == o.plans && o'.updatedAt == now && SameExcept(o, o', UsersList)
  {
    AddToList(reg, id, UsersList, userIds, now)
  }

  /** `remove_users_from_organization`. */
  function RemoveUsersFromOrganization(reg: Registry, id: string, userIds: seq<string>, now: int)
    : (res: (Registry, Option<Organization>))
    ensures res.1.Some? <==> id in reg
    ensures res.1.None? ==> res.0 == reg
    ensures res.1.Some? && Items(reg[id].users) == [] ==> res == (reg, Some(reg[id]))
    ensures res.1.Some? && Items(reg[id].users) != [] ==>
      var o, o' := reg[id], res.1.value;
      && res.0 == reg[id := o']
      && o'.users.Some? && NoDup(o'.users.value)
      && Elems(o'.users.value) == Elems(o.users.value) - Elems(userIds)
      && o'.plans == o.plans && o'.updatedAt == now && SameExcept(o, o', UsersList)
  {
    RemoveFromList(reg, id, UsersList, userIds, now)
  }

  /** `add_plans_to_organization`. */
  function AddPlansToOrganization(reg: Registry, id: string, planIds: seq<string>, now: int)
    : (res: (Registry, Option<Organization>))
    ensures res.1.Some? <==> id in reg
    ensures res.1.None? ==> res.0 == reg
    ensures res.1.Some? ==>
      var o, o' := reg[id], res.1.value;
      && res.0 == reg[id := o']
      && o'.plans.Some? && NoDup(o'.plans.value)
      && Elems(o'.plans.value) == Elems(Items(o.plans)) + Elems(planIds)
      && o'.users == o.users && o'.updatedAt == now && SameExcept(o, o', PlansList)
  {
    AddToList(reg, id, PlansList, planIds, now)
  }

  /** `remove_plans_from_organization`. */
  function RemovePlansFromOrganization(reg: Registry, id: string, planIds: seq<string>, now: int)
    : (res: (Registry, Option<Organization>))
    ensures res.1.Some? <==> id in reg
    ensures res.1.None? ==> res.0 == reg
    ensures res.1.Some? && Items(reg[id].plans) == [] ==> res == (reg, Some(reg[id]))
    ensures res.1.Some? && Items(reg[id].plans) != [] ==>
      var o, o' := reg[id], res.1.value;
      && res.0 == reg[id := o']
      && o'.plans.Some? && NoDup(o'.plans.value)
      && Elems(o'.plans.value) == Elems(o.plans.value) - Elems(planIds)
      && o'.users == o.users && o'.updatedAt == now && SameExcept(o, o', PlansList)
  {
    RemoveFromList(reg, id, PlansList, planIds, now)
  }

  /** Adding the same ids a second time changes nothing but `updated_at` and,
      since `list(set(...))` has no defined order, possibly the order of the
      list: the second list holds the same ids, each once, as many as before. */
  lemma AddToListIdempotent(reg: Registry, id: string, f: ListField, ids: seq<string>, now1: int, now2: int)
    requires id in reg
    ensures var first := AddToList(reg, id, f, ids, now1);
            var second := AddToList(first.0, id, f, ids, now2);
            var o1 := first.1.value;
            var o2 := second.1.value;
            && ListOf(o2, f).Some?
            && NoDup(ListOf(o2, f).value)
            && Elems(ListOf(o2, f).value) == Elems(ListOf(o1, f).value)
            && |ListOf(o2, f).value| == |ListOf(o1, f).value|
            && SameExcept(o1, o2, f)
            && o2.updatedAt == now2
  {
    var o1 := AddToList(reg, id, f, ids, now1).1.value;
    var o2 := AddToList(AddToList(reg, id, f, ids, now1).0, id, f, ids, now2).1.value;
    NoDupCard(ListOf(o1, f).value);
    NoDupCard(ListOf(o2, f).value);
  }

  /** Adding `[A, B]` and then `[B, C]` to an organization without users
      leaves exactly the users A, B and C, each once. */
  lemma AddUsersTwiceScenario(reg: Registry, id: string, now1: int, now2: int)
    requires id in reg && Items(reg[id].users) == []
    ensures var first := AddUsersToOrganization(reg, id, ["A", "B"], now1);
            var second := AddUsersToOrganization(first.0, id, ["B", "C"], now2);
            && second.1.Some? && second.1.value.users.Some?
            && NoDup(second.1.value.users.value)
            && Elems(second.1.value.users.value) == {"A", "B", "C"}
  {
    var first := AddUsersToOrganization(reg, id, ["A", "B"], now1);
    ElemsCons("A", ["B"]);
    ElemsCons("B", ["C"]);
    assert Elems(first.1.value.users.value) == {"A", "B"};
  }

  /** Removing ids that an organization does not hold keeps its members but
      still refreshes `updated_at`. */
  lemma RemoveAbsentStillRefreshes(reg: Registry, id: string, f: ListField, ids: seq<string>, now: int)
    requires id in reg && Items(ListOf(reg[id], f)) != []
    requires Elems(ids) !! Elems(Items(ListOf(reg[id], f)))
    ensures var o' := RemoveFromList(reg, id, f, ids, now).1.value;
            && Elems(ListOf(o', f).value) == Elems(Items(ListOf(reg[id], f)))
            && o'.updatedAt == now
  {
  }

  /** Removing what was just added leaves the old members minus the removed ids. */
  lemma RemoveUndoesAdd(reg: Registry, id: string, f: ListField, ids: seq<string>, now1: int, now2: int)
    requires id in reg
    ensures var added := AddToList(reg, id, f, ids, now1);
            var removed := RemoveFromList(added.0, id, f, ids, now2);
            Elems(Items(ListOf(removed.1.value, f))) == Elems(Items(ListOf(reg[id], f))) - Elems(ids)
  {
  }
}
