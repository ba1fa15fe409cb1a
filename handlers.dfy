/** The request handlers of the directory service. The database session is a
    `Database` object whose tables the write handlers append to; the read handlers
    are queries over the store's current contents. Every handler runs after the
    API-key check has let the request through. */
module Handlers {
  import opened Errors
  import opened Tables
  import opened Models
  import opened Hierarchy
  import opened Integrity
  import opened SqlLike
  import opened Schemas

  /** The API-key dependency. The header scheme refuses a request whose
      `X-API-Key` header is absent (None) or empty before the comparison runs;
      then the header must equal the configured key. When no key is configured,
      no header equals it and every request is refused. */
  function VerifyApiKey(given: Option<string>, configured: Option<string>): (r: Result<string>)
    ensures r.Ok? <==> given.Some? && given.value != "" && configured == given
    ensures r.Ok? ==> r.value == given.value
    ensures r.Err? ==> r.error == Forbidden
  {
    if given.None? || given.value == "" then Err(Forbidden)
    else if configured != given then Err(Forbidden)
    else Ok(given.value)
  }

  class Database {
    var buildings: seq<Building>
    var activities: seq<Activity>
    var organizations: seq<Organization>
    var phones: seq<Phone>
    var links: set<Link>

    function State(): Store
      reads this
    {
      Store(buildings, activities, organizations, phones, links)
    }

    ghost predicate Valid()
      reads this
    {
      Integrity.Valid(State())
    }

    constructor ()
      ensures Valid()
      ensures State() == Store([], [], [], [], {})
    {
      buildings, activities, organizations, phones, links := [], [], [], [], {};
    }

    /** create_building: stores the three fields as given under a new key. */
    method CreateBuilding(payload: BuildingCreate) returns (b: Building)
      requires Valid()
      modifies this
      ensures Valid()
      ensures b.id == NextId(old(buildings))
      ensures b.data == BuildingData(payload.address, payload.latitude, payload.longitude)
      ensures buildings == old(buildings) + [b]
      ensures Find(buildings, b.id) == Some(b)
      ensures activities == old(activities) && organizations == old(organizations)
      ensures phones == old(phones) && links == old(links)
    {
      b := Row(NextId(buildings), BuildingData(payload.address, payload.latitude, payload.longitude));
      InsertBuildingKeepsValid(State(), b);
      FindAppend(buildings, b, b.id);
      buildings := buildings + [b];
    }

    /** create_activity: refuses a taken name, then walks at most MaxDepth - 1
        parent links up from the requested parent, refusing a missing parent and a
        node that would sit deeper than MaxDepth; otherwise stores the node. */
    method CreateActivity(payload: ActivityCreate) returns (r: Result<Activity>)
      requires Valid()
      modifies this
      ensures Valid()
      ensures r.Ok? <==> Admit(old(activities), payload.name, payload.parentId).Ok?
      ensures r.Err? ==> Admit(old(activities), payload.name, payload.parentId) == Err(r.error)
      ensures r.Err? ==> activities == old(activities)
      ensures r.Ok? ==> r.value == Row(NextId(old(activities)), ActivityData(payload.name, payload.parentId))
      ensures r.Ok? ==> activities == old(activities) + [r.value]
      ensures buildings == old(buildings) && organizations == old(organizations)
      ensures phones == old(phones) && links == old(links)
    {
      if NameTaken(activities, payload.name) {
        return Err(Validation);
      }
      var level := 1;
      var parentId := payload.parentId;
      while Truthy(parentId)
        invariant 1 <= level <= MaxDepth
        invariant Walk(activities, parentId, level) == Walk(activities, payload.parentId, 1)
        decreases MaxDepth - level
      {
        var parent := Find(activities, parentId.value);
        if parent.None? {
          return Err(NotFound);
        }
        parentId := parent.value.data.parentId;
        level := level + 1;
        if level > MaxDepth {
          return Err(Validation);
        }
      }
      var a := Row(NextId(activities), ActivityData(payload.name, payload.parentId));
      InsertActivityKeepsValid(State(), a);
      activities := activities + [a];
      r := Ok(a);
    }

    /** create_organization: stores the organization (its building reference
        unchecked), its phones in input order and its links to the existing
        activities among the requested ids, all in one commit. */
    method CreateOrganization(payload: OrganizationCreate) returns (org: Organization)
      requires Valid()
      modifies this
      ensures Valid()
      ensures org == Row(NextId(old(organizations)), OrganizationData(payload.name, payload.buildingId))
      ensures organizations == old(organizations) + [org]
      ensures |phones| == |old(phones)| + |payload.phones|
      ensures phones[..|old(phones)|] == old(phones)
      ensures links == old(links) + LinksTo(org.id, old(activities), payload.activitiesIds)
      ensures buildings == old(buildings) && activities == old(activities)
      ensures Respond(State(), org).phones == payload.phones
      ensures forall a :: a in Respond(State(), org).activities <==> a in activities && a.id in payload.activitiesIds
    {
      var t;
      t, org := NewOrganization(State(), payload);
      Commit(t);
    }

    /** The session's commit: the tables become those of `t`. */
    method Commit(t: Store)
      requires Integrity.Valid(t)
      modifies this
      ensures Valid()
      ensures State() == t
    {
      buildings, activities, organizations, phones, links := t.buildings, t.activities, t.organizations, t.phones, t.links;
    }
  }

  /** The work of create_organization on the store `s`: add the organization row,
      then one phone row per number, then (when ids were sent) the links to the
      activities the query finds; unknown ids are dropped without an error. */
  method NewOrganization(s: Store, payload: OrganizationCreate) returns (t: Store, org: Organization)
    requires Integrity.Valid(s)
    ensures Integrity.Valid(t)
    ensures org == Row(NextId(s.organizations), OrganizationData(payload.name, payload.buildingId))
    ensures t.organizations == s.organizations + [org]
    ensures |t.phones| == |s.phones| + |payload.phones|
    ensures t.phones[..|s.phones|] == s.phones
    ensures t.links == s.links + LinksTo(org.id, s.activities, payload.activitiesIds)
    ensures t.buildings == s.buildings && t.activities == s.activities
    ensures Respond(t, org).phones == payload.phones
    ensures forall a :: a in Respond(t, org).activities <==> a in t.activities && a.id in payload.activitiesIds
  {
    org := Row(NextId(s.organizations), OrganizationData(payload.name, payload.buildingId));
    InsertOrganizationKeepsValid(s, org);
    NothingRefersToNext(s);
    var s1 := s.(organizations := s.organizations + [org]);
    var rows, added := PendingPhones(s1.phones, org.id, payload.phones);
    InsertPhonesKeepsValid(s1, added, org.id);
    t := s1.(phones := rows);
    var ls := {};
    if |payload.activitiesIds| > 0 {
      ls := LinksTo(org.id, t.activities, payload.activitiesIds);
      InsertLinksKeepsValid(t, org.id, payload.activitiesIds);
    } else {
      LinksToNothing(org.id, t.activities);
    }
    t := t.(links := t.links + ls);
    NewOrganizationResponse(s, t, org, payload.phones, payload.activitiesIds, added);
  }

  /** The loop of create_organization that adds one phone per number, in input
      order, for organization `orgId`, each under the key the table gives its next
      row; `phones` is the phone table `rows` with the new rows appended. */
  method PendingPhones(rows: seq<Phone>, orgId: int, numbers: seq<string>) returns (phones: seq<Phone>, ghost added: seq<Phone>)
    requires KeysAscending(rows)
    ensures KeysAscending(phones)
    ensures phones == rows + added
    ensures |added| == |numbers|
    ensures forall k :: 0 <= k < |numbers| ==> added[k].data == PhoneData(numbers[k], orgId)
  {
    phones, added := rows, [];
    for k := 0 to |numbers|
      invariant KeysAscending(phones)
      invariant phones == rows + added
      invariant |added| == k
      invariant forall j :: 0 <= j < k ==> added[j].data == PhoneData(numbers[j], orgId)
    {
      var p := Row(NextId(phones), PhoneData(numbers[k], orgId));
      AppendNext(phones, p);
      phones := phones + [p];
      added := added + [p];
    }
  }

  /** What a client reads back for an organization just created: its phone
      numbers in input order, and exactly the requested activities that exist. */
  lemma NewOrganizationResponse(s0: Store, s1: Store, org: Organization, numbers: seq<string>,
                                ids: seq<int>, added: seq<Phone>)
    requires forall p :: p in s0.phones ==> p.data.organizationId != org.id
    requires forall l :: l in s0.links ==> l.organizationId != org.id
    requires s1.phones == s0.phones + added && s1.activities == s0.activities
    requires |added| == |numbers|
    requires forall k :: 0 <= k < |numbers| ==> added[k].data == PhoneData(numbers[k], org.id)
    requires s1.links == s0.links + LinksTo(org.id, s0.activities, ids)
    ensures Respond(s1, org).phones == numbers
    ensures forall a :: a in Respond(s1, org).activities <==> a in s1.activities && a.id in ids
  {
    AddedOwned(added, numbers, org.id);
    NewOrganizationPhones(s1, s0.phones, added, org.id);
    NewOrganizationActivities(s0, s1, org, ids);
  }

  /** Rows made one per number for an organization are all owned by it. */
  lemma AddedOwned(added: seq<Phone>, numbers: seq<string>, orgId: int)
    requires |added| == |numbers|
    requires forall k :: 0 <= k < |numbers| ==> added[k].data == PhoneData(numbers[k], orgId)
    ensures forall p :: p in added ==> p.data.organizationId == orgId
  {
    forall p | p in added ensures p.data.organizationId == orgId {
      var k :| 0 <= k < |added| && added[k] == p;
    }
  }

  /** The activities of a new organization are the ones its links name. */
  lemma NewOrganizationActivities(s0: Store, s1: Store, org: Organization, ids: seq<int>)
    requires forall l :: l in s0.links ==> l.organizationId != org.id
    requires s1.activities == s0.activities
    requires s1.links == s0.links + LinksTo(org.id, s0.activities, ids)
    ensures forall a :: a in ActivitiesOf(s1, org.id) <==> a in s1.activities && a.id in ids
  {
    forall a | a in s1.activities && Link(org.id, a.id) in s1.links ensures a.id in ids {
      assert Link(org.id, a.id) !in s0.links;
    }
  }

  /** The phones of a new organization are exactly the ones stored after it. */
  lemma NewOrganizationPhones(s: Store, before: seq<Phone>, added: seq<Phone>, orgId: int)
    requires s.phones == before + added
    requires forall p :: p in before ==> p.data.organizationId != orgId
    requires forall p :: p in added ==> p.data.organizationId == orgId
    ensures PhonesOf(s, orgId) == added
  {
    FilterConcat(before, added, OwnedBy(orgId));
    FilterAll(added, OwnedBy(orgId));
    FilterNone(before, OwnedBy(orgId));
    assert PhonesOf(s, orgId) == Filter(before + added, OwnedBy(orgId));
  }

  // ---------------------------------------------------------------------------
  // Read handlers

  /** get_organization: the organization under key `id`, as a response. */
  function GetOrganization(s: Store, id: int): (r: Result<OrganizationResponse>)
    ensures r.Err? <==> forall o :: o in s.organizations ==> o.id != id
    ensures r.Err? ==> r.error == NotFound
    ensures r.Ok? ==> exists o :: o in s.organizations && o.id == id && r.value == Respond(s, o)
  {
    match Find(s.organizations, id)
    case None => Err(NotFound)
    case Some(o) => Ok(Respond(s, o))
  }

  /** Reading back a stored organization gives its own response; in particular a
      freshly created one comes back with the phones it was created with. */
  lemma GetStored(s: Store, org: Organization)
    requires KeysAscending(s.organizations) && org in s.organizations
    ensures GetOrganization(s, org.id) == Ok(Respond(s, org))
  {
    FindUnique(s.organizations, org);
  }

  /** The selection `Organization.building_id == buildingId`. */
  function InBuilding(buildingId: int): Organization -> bool {
    (o: Organization) => o.data.buildingId == Some(buildingId)
  }

  /** organizations_in_building: NotFound for an unknown building, otherwise the
      organizations whose reference names it. */
  function OrganizationsInBuilding(s: Store, buildingId: int): (r: Result<seq<Organization>>)
    ensures r.Err? <==> forall b :: b in s.buildings ==> b.id != buildingId
    ensures r.Err? ==> r.error == NotFound
    ensures r.Ok? ==> IsSubsequence(r.value, s.organizations)
    ensures r.Ok? ==> forall o :: o in r.value <==> o in s.organizations && o.data.buildingId == Some(buildingId)
  {
    if Find(s.buildings, buildingId).None? then Err(NotFound)
    else Ok(Filter(s.organizations, InBuilding(buildingId)))
  }

  /** Each organization listed for a building resolves to that very building. */
  lemma InBuildingResolves(s: Store, buildingId: int, o: Organization)
    requires Integrity.Valid(s)
    requires OrganizationsInBuilding(s, buildingId).Ok?
    requires o in OrganizationsInBuilding(s, buildingId).value
    ensures BuildingOf(s, o).Some? && BuildingOf(s, o).value.id == buildingId
    ensures Respond(s, o).building == Find(s.buildings, buildingId)
  {
  }

  /** The pattern search_organizations hands to `ilike`. */
  function SearchPattern(name: string): string {
    "%" + name + "%"
  }

  /** The selection `Organization.name ilike pattern`. */
  function NameLike(pattern: string): Organization -> bool {
    (o: Organization) => Like(pattern, o.data.name)
  }

  /** search_organizations: the organizations whose name matches `%name%`; the
      characters `%` and `_` in `name` keep their wildcard meaning. */
  function SearchOrganizations(s: Store, name: string): (r: seq<Organization>)
    ensures IsSubsequence(r, s.organizations)
    ensures forall o :: o in r <==> o in s.organizations && Like(SearchPattern(name), o.data.name)
  {
    Filter(s.organizations, NameLike(SearchPattern(name)))
  }

  /** For a query without wildcards the search is a case-insensitive substring
      search (ASCII letters only fold); an empty query finds every organization. */
  lemma SearchIsSubstring(s: Store, name: string)
    requires NoWildcards(name)
    ensures forall o :: o in SearchOrganizations(s, name) <==> o in s.organizations && ContainsFolded(o.data.name, name)
  {
    forall o: Organization ensures Like(SearchPattern(name), o.data.name) <==> ContainsFolded(o.data.name, name) {
      SurroundedQuery(name, o.data.name);
    }
  }

  lemma SearchEmptyFindsAll(s: Store)
    ensures SearchOrganizations(s, "") == s.organizations
  {
    forall o | o in s.organizations ensures Like(SearchPattern(""), o.data.name) {
      assert SearchPattern("") == "%" + "%";
      PercentMatchesAll(o.data.name);
      LeadingPercent("%", o.data.name);
      assert Like("%", o.data.name[|o.data.name|..]);
    }
    FilterAll(s.organizations, NameLike(SearchPattern("")));
  }

  /** The join `Organization -> organization_activities -> Activity` filtered by
      `Activity.id in ids`: the organization is linked to a stored activity whose
      id is listed. */
  ghost predicate LinkedToAny(s: Store, ids: seq<int>, o: Organization) {
    exists a :: a in s.activities && a.id in ids && Link(o.id, a.id) in s.links
  }

  /** The same selection as a function for the filter. */
  function LinkedTo(s: Store, ids: seq<int>): Organization -> bool {
    (o: Organization) => exists l :: l in s.links && l.organizationId == o.id && l.activityId in ids &&
                          Find(s.activities, l.activityId).Some?
  }

  /** organizations_by_activity: NotFound for an unknown activity, otherwise the
      organizations linked to it or to one of the activities collect_ids gathers
      below it, each once. */
  function OrganizationsByActivity(s: Store, activityId: int): (r: Result<seq<Organization>>)
    ensures r.Err? <==> forall a :: a in s.activities ==> a.id != activityId
    ensures r.Err? ==> r.error == NotFound
    ensures r.Ok? ==> IsSubsequence(r.value, s.organizations)
    ensures r.Ok? ==> forall o :: o in r.value <==> o in s.organizations && LinkedToAny(s, SubtreeIds(s.activities, activityId), o)
  {
    if Find(s.activities, activityId).None? then Err(NotFound)
    else
      var ids := SubtreeIds(s.activities, activityId);
      var r := Filter(s.organizations, LinkedTo(s, ids));
      assert forall o :: LinkedTo(s, ids)(o) <==> LinkedToAny(s, ids, o) by {
        forall o ensures LinkedTo(s, ids)(o) <==> LinkedToAny(s, ids, o) {
          if LinkedTo(s, ids)(o) {
            var l :| l in s.links && l.organizationId == o.id && l.activityId in ids && Find(s.activities, l.activityId).Some?;
            assert l == Link(o.id, l.activityId);
          }
          if LinkedToAny(s, ids, o) {
            var a :| a in s.activities && a.id in ids && Link(o.id, a.id) in s.links;
            assert Find(s.activities, a.id).Some?;
          }
        }
      }
      Ok(r)
  }

  /** An organization is found for an activity exactly when it is linked to the
      activity itself or to a descendant at most MaxDepth generations below it. */
  lemma ByActivityExact(s: Store, activityId: int, o: Organization)
    requires OrganizationsByActivity(s, activityId).Ok?
    ensures o in OrganizationsByActivity(s, activityId).value <==>
      o in s.organizations &&
      exists a :: a in s.activities && Link(o.id, a.id) in s.links &&
        (a.id == activityId || DescendsWithin(s.activities, activityId, a.id, MaxDepth))
  {
    var ids := SubtreeIds(s.activities, activityId);
    assert forall x :: x in ids <==> x == activityId || DescendsWithin(s.activities, activityId, x, MaxDepth);
  }

  // ---------------------------------------------------------------------------
  // The nearby scan

  /** Whether `o` has a building whose distance can be computed and is within `radius`
      of the query point; `distanceTo` is the distance from the query point to a
      building, None when it cannot be computed: a coordinate string that is not
      a number, or one (such as infinity) on which the haversine raises. */
  function Near(s: Store, distanceTo: Building -> Option<real>, radius: real): Organization -> bool {
    (o: Organization) =>
      BuildingOf(s, o).Some? && distanceTo(BuildingOf(s, o).value).Some? &&
      distanceTo(BuildingOf(s, o).value).value <= radius
  }

  /** Whether the scan can compute the distance of `o`'s building, if it has one. */
  predicate Measurable(s: Store, distanceTo: Building -> Option<real>, o: Organization) {
    BuildingOf(s, o).Some? ==> distanceTo(BuildingOf(s, o).value).Some?
  }

  /** organizations_nearby: scans the organizations joined to their building, in
      table order, keeping those within `radius`; a distance that cannot be
      computed fails the request. */
  method OrganizationsNearby(s: Store, distanceTo: Building -> Option<real>, radius: real) returns (r: Result<seq<Organization>>)
    ensures r.Err? <==> exists o :: o in s.organizations && !Measurable(s, distanceTo, o)
    ensures r.Err? ==> r.error == Internal
    ensures r.Ok? ==> r.value == Filter(s.organizations, Near(s, distanceTo, radius))
  {
    var orgs := s.organizations;
    var keep := Near(s, distanceTo, radius);
    var nearby := [];
    for k := 0 to |orgs|
      invariant nearby == Filter(orgs[..k], keep)
      invariant forall j :: 0 <= j < k ==> Measurable(s, distanceTo, orgs[j])
    {
      FilterExtend(orgs, k, keep);
      var within := Within(s, distanceTo, radius, orgs[k]);
      if within.None? {
        assert orgs[k] in orgs;
        return Err(Internal);
      }
      if within.value {
        nearby := nearby + [orgs[k]];
      }
    }
    assert orgs[..|orgs|] == orgs;
    EveryMeasurable(s, distanceTo);
    r := Ok(nearby);
  }

  /** One step of the scan: skip an organization without a building, otherwise
      compute the distance to its building (None when that fails) and compare it
      with the radius. */
  method Within(s: Store, distanceTo: Building -> Option<real>, radius: real, o: Organization)
    returns (within: Option<bool>)
    ensures within.None? <==> !Measurable(s, distanceTo, o)
    ensures within.Some? ==> (within.value <==> Near(s, distanceTo, radius)(o))
  {
    var b := BuildingOf(s, o);
    if b.None? {
      return Some(false);
    }
    var d := distanceTo(b.value);
    if d.None? {
      return None;
    }
    return Some(d.value <= radius);
  }

  /** A scan that got through every row met no building it could not measure. */
  lemma EveryMeasurable(s: Store, distanceTo: Building -> Option<real>)
    requires forall j :: 0 <= j < |s.organizations| ==> Measurable(s, distanceTo, s.organizations[j])
    ensures forall o :: o in s.organizations ==> Measurable(s, distanceTo, o)
  {
  }

  /** What the scan keeps: organizations with a building within the radius, in
      table order; a wider radius keeps at least as many. */
  lemma NearbyExact(s: Store, distanceTo: Building -> Option<real>, radius: real, wider: real)
    requires radius <= wider
    ensures forall o :: o in Filter(s.organizations, Near(s, distanceTo, radius)) <==>
      o in s.organizations && BuildingOf(s, o).Some? &&
      distanceTo(BuildingOf(s, o).value).Some? && distanceTo(BuildingOf(s, o).value).value <= radius
    ensures forall o :: o in Filter(s.organizations, Near(s, distanceTo, radius)) ==>
      o in Filter(s.organizations, Near(s, distanceTo, wider))
  {
  }
}
