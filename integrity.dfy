/** The rules the schema declares about the records: keys, the unique activity
    name, the depth bound of the taxonomy, phone ownership, the association
    table's references, and what deleting a building or an organization does. */
module Integrity {
  import opened Errors
  import opened Tables
  import opened Models
  import opened Hierarchy

  /** The store's invariant. A building reference of an organization is NOT part
      of it: creating an organization does not check the reference, and the
      database does not enforce it, so it may dangle. */
  ghost predicate Valid(s: Store)
    ensures Valid(s) ==> forall p :: p in s.phones ==>
      exists o :: o in s.organizations && o.id == p.data.organizationId
    ensures Valid(s) ==> forall l :: l in s.links ==>
      (exists o :: o in s.organizations && o.id == l.organizationId) &&
      (exists a :: a in s.activities && a.id == l.activityId)
  {
    && KeysAscending(s.buildings)
    && KeysAscending(s.activities)
    && KeysAscending(s.organizations)
    && KeysAscending(s.phones)
    && UniqueNames(s.activities)
    && DepthBounded(s.activities)
    && (forall p :: p in s.phones ==> Find(s.organizations, p.data.organizationId).Some?)
    && (forall l :: l in s.links ==>
          Find(s.organizations, l.organizationId).Some? && Find(s.activities, l.activityId).Some?)
  }

  /** Organizations as they are after building `id` is deleted: the same rows,
      with a reference to `id` set to null. */
  function Detach(orgs: seq<Organization>, id: int): (r: seq<Organization>)
    ensures |r| == |orgs|
    ensures forall k :: 0 <= k < |orgs| ==>
      && r[k].id == orgs[k].id
      && r[k].data.name == orgs[k].data.name
      && r[k].data.buildingId == if orgs[k].data.buildingId == Some(id) then None else orgs[k].data.buildingId
  {
    seq(|orgs|, k requires 0 <= k < |orgs| =>
      if orgs[k].data.buildingId == Some(id) then orgs[k].(data := orgs[k].data.(buildingId := None))
      else orgs[k])
  }

  /** Deleting building `id`: its row goes; every organization stays, and one that
      was in the building is left without one. */
  function DeleteBuilding(s: Store, id: int): (t: Store)
    ensures forall b :: b in t.buildings <==> b in s.buildings && b.id != id
    ensures |t.organizations| == |s.organizations|
    ensures forall k :: 0 <= k < |s.organizations| ==>
      && t.organizations[k].id == s.organizations[k].id
      && t.organizations[k].data.name == s.organizations[k].data.name
      && (s.organizations[k].data.buildingId == Some(id) ==> t.organizations[k].data.buildingId == None)
      && (s.organizations[k].data.buildingId != Some(id) ==>
            t.organizations[k].data.buildingId == s.organizations[k].data.buildingId)
    ensures t.activities == s.activities && t.phones == s.phones && t.links == s.links
  {
    s.(buildings := Filter(s.buildings, (b: Building) => b.id != id),
       organizations := Detach(s.organizations, id))
  }

  /** Deleting organization `id`: its row, its phones and its activity links go;
      every other row stays. */
  function DeleteOrganization(s: Store, id: int): (t: Store)
    ensures forall o :: o in t.organizations <==> o in s.organizations && o.id != id
    ensures forall p :: p in t.phones <==> p in s.phones && p.data.organizationId != id
    ensures forall l :: l in t.links <==> l in s.links && l.organizationId != id
    ensures t.buildings == s.buildings && t.activities == s.activities
  {
    s.(organizations := Filter(s.organizations, (o: Organization) => o.id != id),
       phones := Filter(s.phones, (p: Phone) => p.data.organizationId != id),
       links := set l | l in s.links && l.organizationId != id)
  }

  /** Deleting a building keeps the store valid and nulls every reference to it. */
  lemma DeleteBuildingKeepsValid(s: Store, id: int)
    requires Valid(s)
    ensures Valid(DeleteBuilding(s, id))
    ensures forall o :: o in DeleteBuilding(s, id).organizations ==> o.data.buildingId != Some(id)
  {
    var t := DeleteBuilding(s, id);
    SubsequenceAscending(t.buildings, s.buildings);
    forall i, j ensures KeyOrdered(t.organizations, i, j) {
      assert KeyOrdered(s.organizations, i, j);
    }
    forall x | Find(s.organizations, x).Some? ensures Find(t.organizations, x).Some? {
      var o := Find(s.organizations, x).value;
      var k :| 0 <= k < |s.organizations| && s.organizations[k] == o;
      assert t.organizations[k] in t.organizations;
    }
    forall o | o in t.organizations ensures o.data.buildingId != Some(id) {
      var k :| 0 <= k < |t.organizations| && t.organizations[k] == o;
    }
  }

  /** Deleting an organization keeps the store valid: no phone and no link is left
      pointing at it. */
  lemma DeleteOrganizationKeepsValid(s: Store, id: int)
    requires Valid(s)
    ensures Valid(DeleteOrganization(s, id))
    ensures Find(DeleteOrganization(s, id).organizations, id).None?
  {
    var t := DeleteOrganization(s, id);
    SubsequenceAscending(t.organizations, s.organizations);
    SubsequenceAscending(t.phones, s.phones);
    forall x | x != id && Find(s.organizations, x).Some? ensures Find(t.organizations, x).Some? {
      assert Find(s.organizations, x).value in t.organizations;
    }
  }

  // ---------------------------------------------------------------------------
  // What each insert the handlers make does to the invariant

  /** The key the next organization gets is not yet referred to by any phone or
      any link, so a new organization starts without phones and activities. */
  lemma NothingRefersToNext(s: Store)
    requires Valid(s)
    ensures forall p :: p in s.phones ==> p.data.organizationId != NextId(s.organizations)
    ensures forall l :: l in s.links ==> l.organizationId != NextId(s.organizations)
  {
  }

  /** A new building keyed by `NextId` keeps the store valid. */
  lemma InsertBuildingKeepsValid(s: Store, b: Building)
    requires Valid(s) && b.id == NextId(s.buildings)
    ensures Valid(s.(buildings := s.buildings + [b]))
  {
    AppendNext(s.buildings, b);
  }

  /** A new activity keyed by `NextId` that passed create_activity's checks keeps
      the store valid: names stay unique and every node stays within MaxDepth. */
  lemma InsertActivityKeepsValid(s: Store, a: Activity)
    requires Valid(s) && a.id == NextId(s.activities)
    requires Admit(s.activities, a.data.name, a.data.parentId).Ok?
    ensures Valid(s.(activities := s.activities + [a]))
  {
    AppendNext(s.activities, a);
    AdmitKeepsInvariants(s.activities, a);
    forall l | l in s.links ensures Find(s.activities + [a], l.activityId).Some? {
      FindAppend(s.activities, a, l.activityId);
    }
  }

  /** A new organization keyed by `NextId` keeps the store valid, and its key now
      finds it. */
  lemma InsertOrganizationKeepsValid(s: Store, o: Organization)
    requires Valid(s) && o.id == NextId(s.organizations)
    ensures Valid(s.(organizations := s.organizations + [o]))
    ensures Find(s.organizations + [o], o.id) == Some(o)
  {
    AppendNext(s.organizations, o);
    forall x | Find(s.organizations, x).Some? ensures Find(s.organizations + [o], x).Some? {
      FindAppend(s.organizations, o, x);
    }
    FindAppend(s.organizations, o, o.id);
  }

  /** A new phone keyed by `NextId` and owned by an existing organization keeps the
      store valid. */
  lemma InsertPhonesKeepsValid(s: Store, added: seq<Phone>, orgId: int)
    requires Valid(s) && KeysAscending(s.phones + added)
    requires Find(s.organizations, orgId).Some?
    requires forall k :: 0 <= k < |added| ==> added[k].data.organizationId == orgId
    ensures Valid(s.(phones := s.phones + added))
  {
    forall p | p in s.phones + added ensures Find(s.organizations, p.data.organizationId).Some? {
      if p !in s.phones {
        var k :| 0 <= k < |added| && added[k] == p;
      }
    }
  }

  /** New links between an existing organization and existing activities keep the
      store valid. */
  lemma InsertLinksKeepsValid(s: Store, orgId: int, ids: seq<int>)
    requires Valid(s) && Find(s.organizations, orgId).Some?
    ensures Valid(s.(links := s.links + LinksTo(orgId, s.activities, ids)))
  {
  }
}
