/** The walk-through of the repository's client script, and the depth rule on a
    three-level taxonomy, on concrete tables. Names are given in English. The
    write handlers are proved to follow Admit and NewOrganization, so these
    outcomes are the handlers' outcomes. */
module Scenarios {
  import opened Errors
  import opened Tables
  import opened Models
  import opened Hierarchy
  import opened Integrity
  import opened SqlLike
  import opened Schemas
  import opened Handlers

  /** Food > Meat > Beef, as three create_activity calls leave it. */
  function FoodChain(): seq<Activity> {
    [Row(1, ActivityData("Food", None)),
     Row(2, ActivityData("Meat", Some(1))),
     Row(3, ActivityData("Beef", Some(2)))]
  }

  /** Each of the three rows was admitted at the level its position says, under
      the key the table handed out. */
  lemma FoodChainAdmitted()
    ensures Admit([], "Food", None) == Ok(1) && NextId(FoodChain()[..0]) == 1
    ensures Admit(FoodChain()[..1], "Meat", Some(1)) == Ok(2) && NextId(FoodChain()[..1]) == 2
    ensures Admit(FoodChain()[..2], "Beef", Some(2)) == Ok(3) && NextId(FoodChain()[..2]) == 3
  {
    var t := FoodChain();
    assert t[..1] == [t[0]] && t[..2] == [t[0], t[1]];
    assert Find(t[..1], 1) == Some(t[0]);
    assert Find(t[..2], 2) == Some(t[1]) by { assert t[..2][1..] == [t[1]]; }
    assert Find(t[..2], 1) == Some(t[0]);
  }

  /** Beef is at the deepest level: nothing can go below it. An unknown parent, a
      taken name and a parent id of 0 are handled as create_activity does. */
  lemma FoodChainOutcomes()
    ensures Admit(FoodChain(), "Ground beef", Some(3)) == Err(Validation)
    ensures Admit(FoodChain(), "Veal", Some(2)) == Ok(3)
    ensures Admit(FoodChain(), "Poultry", Some(7)) == Err(NotFound)
    ensures Admit(FoodChain(), "Meat", None) == Err(Validation)
    ensures Admit(FoodChain(), "Cars", Some(0)) == Ok(1)
  {
    var t := FoodChain();
    assert t[1..] == [t[1], t[2]] && t[1..][1..] == [t[2]] && t[1..][1..][1..] == [];
    assert Find(t, 3) == Some(t[2]);
    assert Find(t, 2) == Some(t[1]);
    assert Find(t, 1) == Some(t[0]);
    assert !NameTaken(t, "Ground beef") && !NameTaken(t, "Veal") && !NameTaken(t, "Poultry") && !NameTaken(t, "Cars") by {
      assert forall a :: a in t ==> a == t[0] || a == t[1] || a == t[2];
    }
    assert t[1] in t;
  }

  /** Organizations for Food reach down to Beef: the subtree of Food holds all
      three keys and nothing else. */
  lemma FoodSubtree()
    ensures forall x :: x in SubtreeIds(FoodChain(), 1) <==> x == 1 || x == 2 || x == 3
  {
    var t := FoodChain();
    assert DescendsWithin(t, 1, 2, MaxDepth) by { assert t[1] in t; }
    assert DescendsWithin(t, 1, 3, MaxDepth) by {
      assert DescendsWithin(t, 2, 3, MaxDepth - 1) by { assert t[2] in t; }
      assert t[1] in t;
    }
    forall x | DescendsWithin(t, 1, x, MaxDepth) ensures x == 2 || x == 3 {
      FoodDescendants(x);
    }
  }

  lemma FoodDescendants(x: int)
    requires DescendsWithin(FoodChain(), 1, x, MaxDepth)
    ensures x == 2 || x == 3
  {
    var t := FoodChain();
    var c :| c in t && c.data.parentId == Some(1) && (c.id == x || DescendsWithin(t, c.id, x, MaxDepth - 1));
    assert c == t[1];
    if c.id != x {
      var d :| d in t && d.data.parentId == Some(2) && (d.id == x || DescendsWithin(t, d.id, x, MaxDepth - 2));
      assert d == t[2];
      if d.id != x {
        NoChildOfBeef(x);
      }
    }
  }

  lemma NoChildOfBeef(x: int)
    ensures !DescendsWithin(FoodChain(), 3, x, MaxDepth - 2)
  {
    var t := FoodChain();
    forall e | e in t ensures e.data.parentId != Some(3) {
      assert e == t[0] || e == t[1] || e == t[2];
    }
  }

  // ---------------------------------------------------------------------------
  // The client script

  /** The store the client script has built before it creates its organization:
      one building, and the taxonomy Еда (food) > {Мясная продукция (meat),
      Молочная продукция (dairy)}, Автомобили (cars) > Грузовые (trucks). */
  function ScriptStore(): Store {
    Store([Row(1, BuildingData("г. Москва, ул. Ленина 1, офис 3", "55.7558", "37.6173"))],
          [Row(1, ActivityData("Еда", None)),
           Row(2, ActivityData("Мясная продукция", Some(1))),
           Row(3, ActivityData("Молочная продукция", Some(1))),
           Row(4, ActivityData("Автомобили", None)),
           Row(5, ActivityData("Грузовые", Some(4)))],
          [], [], {})
  }

  lemma ScriptStoreValid()
    ensures Integrity.Valid(ScriptStore())
  {
    ScriptKeys();
    ScriptNames();
    ScriptDepths();
  }

  lemma ScriptKeys()
    ensures KeysAscending(ScriptStore().activities) && KeysAscending(ScriptStore().buildings)
  {
    var acts := ScriptStore().activities;
    forall i, j ensures KeyOrdered(acts, i, j) { }
    forall i, j ensures KeyOrdered(ScriptStore().buildings, i, j) { }
  }

  lemma ScriptNames()
    ensures UniqueNames(ScriptStore().activities)
  {
    var acts := ScriptStore().activities;
    forall i, j | 0 <= i < j < |acts| ensures acts[i].data.name != acts[j].data.name {
      assert acts[i].data.name[0] != acts[j].data.name[0] || |acts[i].data.name| != |acts[j].data.name|;
    }
  }

  lemma ScriptDepths()
    ensures DepthBounded(ScriptStore().activities)
  {
    var acts := ScriptStore().activities;
    forall k | 0 <= k < |acts| ensures WithinDepth(acts, acts[k]) {
      ScriptRowDepth(k);
    }
  }

  lemma ScriptRowDepth(k: int)
    requires 0 <= k < |ScriptStore().activities|
    ensures WithinDepth(ScriptStore().activities, ScriptStore().activities[k])
  {
    var acts := ScriptStore().activities;
    if k == 1 || k == 2 {
      ScriptRootsFound();
      assert acts[k].data.parentId == Some(1);
    } else if k == 4 {
      ScriptRootsFound();
      assert acts[k].data.parentId == Some(4);
    } else {
      assert acts[k].data.parentId == None;
    }
  }

  lemma ScriptRootsFound()
    ensures Walk(ScriptStore().activities, Some(1), 1) == Ok(2)
    ensures Walk(ScriptStore().activities, Some(4), 1) == Ok(2)
  {
    var acts := ScriptStore().activities;
    ScriptKeys();
    FindUnique(acts, acts[0]);
    FindUnique(acts, acts[3]);
  }

  /** The organization the script creates: two phones, the building, and the
      activities meat and dairy. */
  function ScriptPayload(): OrganizationCreate {
    OrganizationCreate("ООО РомТех", ["2-222-222", "8-923-666-13-13"], Some(1), [2, 3])
  }

  /** The script's requests after the create, on the store it leaves: reading the
      organization back gives its phones in order, its building and both
      activities; searching for "РомТех", listing building 1 and asking for food
      (the parent of its activities) all find it. */
  method ClientScript() returns (org: Organization, got: Result<OrganizationResponse>,
                                 search: seq<Organization>, inBuilding: Result<seq<Organization>>,
                                 byFood: Result<seq<Organization>>)
    ensures org.id == 1
    ensures got.Ok? && got.value.phones == ["2-222-222", "8-923-666-13-13"]
    ensures got.value.building == Some(ScriptStore().buildings[0])
    ensures forall a :: a in got.value.activities <==> a in ScriptStore().activities[1..3]
    ensures org in search
    ensures inBuilding.Ok? && org in inBuilding.value
    ensures byFood.Ok? && org in byFood.value
  {
    var s := ScriptStore();
    ScriptStoreValid();
    var t;
    t, org := NewOrganization(s, ScriptPayload());
    ScriptReads(t, org);
    got := GetOrganization(t, org.id);
    search := SearchOrganizations(t, "РомТех");
    inBuilding := OrganizationsInBuilding(t, 1);
    byFood := OrganizationsByActivity(t, 1);
  }

  /** What the four read requests see on the store the create leaves, given what
      create_organization promises about that store. */
  lemma ScriptReads(t: Store, org: Organization)
    requires KeysAscending(t.organizations)
    requires org == Row(NextId(ScriptStore().organizations), OrganizationData(ScriptPayload().name, ScriptPayload().buildingId))
    requires t.organizations == ScriptStore().organizations + [org]
    requires t.links == ScriptStore().links + LinksTo(org.id, ScriptStore().activities, ScriptPayload().activitiesIds)
    requires t.buildings == ScriptStore().buildings && t.activities == ScriptStore().activities
    requires Respond(t, org).phones == ScriptPayload().phones
    requires forall a :: a in Respond(t, org).activities <==> a in t.activities && a.id in ScriptPayload().activitiesIds
    ensures org.id == 1
    ensures GetOrganization(t, org.id).Ok? && GetOrganization(t, org.id).value.phones == ["2-222-222", "8-923-666-13-13"]
    ensures GetOrganization(t, org.id).value.building == Some(ScriptStore().buildings[0])
    ensures forall a :: a in GetOrganization(t, org.id).value.activities <==> a in ScriptStore().activities[1..3]
    ensures org in SearchOrganizations(t, "РомТех")
    ensures OrganizationsInBuilding(t, 1).Ok? && org in OrganizationsInBuilding(t, 1).value
    ensures OrganizationsByActivity(t, 1).Ok? && org in OrganizationsByActivity(t, 1).value
  {
    LinksToListed(1, ScriptStore().activities, [2, 3], 1);
    ScriptGet(t, org);
    ScriptSearch(t, org);
    ScriptInBuilding(t, org);
    ScriptByFood(t, org);
  }

  lemma ScriptGet(t: Store, org: Organization)
    requires KeysAscending(t.organizations) && org in t.organizations
    requires org == Row(1, OrganizationData("ООО РомТех", Some(1)))
    requires t.buildings == ScriptStore().buildings && t.activities == ScriptStore().activities
    requires forall a :: a in Respond(t, org).activities <==> a in t.activities && a.id in [2, 3]
    ensures GetOrganization(t, 1) == Ok(Respond(t, org))
    ensures Respond(t, org).building == Some(ScriptStore().buildings[0])
    ensures forall a :: a in Respond(t, org).activities <==> a in ScriptStore().activities[1..3]
  {
    GetStored(t, org);
    ScriptBuilding(t, org);
    ScriptActivities();
  }

  lemma ScriptBuilding(t: Store, org: Organization)
    requires org.data.buildingId == Some(1) && t.buildings == ScriptStore().buildings
    ensures BuildingOf(t, org) == Some(ScriptStore().buildings[0])
  {
  }

  /** Meat and dairy are the activities with keys 2 and 3. */
  lemma ScriptActivities()
    ensures forall a :: a in ScriptStore().activities && a.id in [2, 3] <==> a in ScriptStore().activities[1..3]
  {
    var acts := ScriptStore().activities;
    assert acts[1..3] == [acts[1], acts[2]];
    assert forall a :: a in acts <==> a == acts[0] || a == acts[1] || a == acts[2] || a == acts[3] || a == acts[4];
  }

  lemma ScriptSearch(t: Store, org: Organization)
    requires org in t.organizations && org.data.name == "ООО РомТех"
    ensures org in SearchOrganizations(t, "РомТех")
  {
    SearchIsSubstring(t, "РомТех");
    assert OccursAt(org.data.name, "РомТех", 4) by {
      assert org.data.name[4..10] == "РомТех";
    }
  }

  /** `ilike` on SQLite folds ASCII letters only: the script's query written in
      lower case does not find the organization. */
  lemma ScriptSearchCase(t: Store, org: Organization)
    requires org in t.organizations && org.data.name == "ООО РомТех"
    ensures org !in SearchOrganizations(t, "ромтех")
  {
    SearchIsSubstring(t, "ромтех");
    var name := org.data.name;
    forall i ensures !OccursAt(name, "ромтех", i) {
      if 0 <= i && i + 6 <= |name| {
        assert name[i..i + 6][0] == name[i] != 'р';
      }
    }
  }

  lemma ScriptInBuilding(t: Store, org: Organization)
    requires org in t.organizations && org.data.buildingId == Some(1)
    requires t.buildings == ScriptStore().buildings
    ensures OrganizationsInBuilding(t, 1).Ok? && org in OrganizationsInBuilding(t, 1).value
  {
    assert t.buildings[0].id == 1;
  }

  lemma ScriptByFood(t: Store, org: Organization)
    requires org in t.organizations && org.id == 1
    requires t.activities == ScriptStore().activities
    requires Link(1, 2) in t.links
    ensures OrganizationsByActivity(t, 1).Ok? && org in OrganizationsByActivity(t, 1).value
  {
    var acts := t.activities;
    assert acts[0].id == 1;
    assert DescendsWithin(acts, 1, 2, MaxDepth) by {
      assert acts[1] in acts;
    }
    assert 2 in SubtreeIds(acts, 1);
    assert acts[1] in acts && acts[1].id == 2;
  }

  // ---------------------------------------------------------------------------
  // A corrupted taxonomy and the payload defaults

  /** Two rows that name each other as parent, as no handler writes them: the walk
      still stops after MaxDepth - 1 steps and refuses the nesting. */
  lemma CycleRefused()
    ensures Admit([Row(1, ActivityData("A", Some(2))), Row(2, ActivityData("B", Some(1)))], "C", Some(1)) == Err(Validation)
  {
    var t := [Row(1, ActivityData("A", Some(2))), Row(2, ActivityData("B", Some(1)))];
    assert Find(t, 1) == Some(t[0]);
    assert Find(t, 2) == Some(t[1]) by { assert t[1..] == [t[1]]; }
    assert !NameTaken(t, "C") by {
      forall a | a in t ensures a.data.name != "C" {
        assert a == t[0] || a == t[1];
      }
    }
  }

  /** A non-empty list holds its first element. */
  lemma FirstIsMember(xs: seq<Activity>)
    requires xs != []
    ensures xs[0] in xs
  {
  }

  lemma NoneRequested(picked: seq<Activity>, acts: seq<Activity>)
    requires forall a :: a in picked <==> a in acts && a.id in []
    ensures picked == []
  {
    if picked != [] {
      FirstIsMember(picked);
      assert false;
    }
  }

  /** An activity sent without `parent_id` is a root: it is accepted at level 1
      whenever its name is free. */
  lemma RootByDefault(acts: seq<Activity>, name: string)
    requires !NameTaken(acts, name)
    ensures Admit(acts, ActivityCreateOf(name).name, ActivityCreateOf(name).parentId) == Ok(1)
  {
  }

  /** An organization sent with only its name and phones has no building and no
      activities, and reads back with its phones in order. */
  method MinimalOrganization(s: Store, name: string, phones: seq<string>)
    returns (t: Store, org: Organization, response: OrganizationResponse)
    requires Integrity.Valid(s)
    ensures Integrity.Valid(t) && t.links == s.links
    ensures response.name == name && response.phones == phones
    ensures response.building == None && response.activities == []
  {
    t, org := NewOrganization(s, OrganizationCreateOf(name, phones));
    LinksToNothing(org.id, s.activities);
    response := Respond(t, org);
    DefaultsRespond(t, org, response);
  }

  /** The response of an organization stored without a building reference and
      without requested activities. */
  lemma DefaultsRespond(t: Store, org: Organization, response: OrganizationResponse)
    requires org.data.buildingId == None && response == Respond(t, org)
    requires forall a :: a in response.activities <==> a in t.activities && a.id in []
    ensures response.building == None && response.activities == []
  {
    NoneRequested(response.activities, t.activities);
  }
}
