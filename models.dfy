/** The records of the directory: buildings, the activity taxonomy, organizations,
    their phones, and the organization-activity association table. */
module Models {
  import opened Errors
  import opened Tables

  /** A building's address and coordinates, all required and all kept as the text
      the client sent (the coordinates are not parsed into numbers when stored). */
  datatype BuildingData = BuildingData(address: string, latitude: string, longitude: string)

  /** A node of the activity taxonomy: a name and an optional parent activity id. */
  datatype ActivityData = ActivityData(name: string, parentId: Option<int>)

  /** An organization's name and its optional building. */
  datatype OrganizationData = OrganizationData(name: string, buildingId: Option<int>)

  /** A phone number and the organization that owns it. */
  datatype PhoneData = PhoneData(number: string, organizationId: int)

  /** A row of the association table; the pair is its composite primary key, so
      the table is a set of pairs. */
  datatype Link = Link(organizationId: int, activityId: int)

  type Building = Row<BuildingData>
  type Activity = Row<ActivityData>
  type Organization = Row<OrganizationData>
  type Phone = Row<PhoneData>

  /** The whole database: one table per entity, and the association table. */
  datatype Store = Store(
    buildings: seq<Building>,
    activities: seq<Activity>,
    organizations: seq<Organization>,
    phones: seq<Phone>,
    links: set<Link>)

  /** The building an organization's optional reference finds, if any. */
  function BuildingOf(s: Store, org: Organization): (b: Option<Building>)
    ensures b.Some? <==> org.data.buildingId.Some? && exists x :: x in s.buildings && x.id == org.data.buildingId.value
    ensures b.Some? ==> b.value in s.buildings && Some(b.value.id) == org.data.buildingId
  {
    if org.data.buildingId.Some? then Find(s.buildings, org.data.buildingId.value) else None
  }

  /** The selection `Phone.organization_id == orgId`. */
  function OwnedBy(orgId: int): Phone -> bool {
    (p: Phone) => p.data.organizationId == orgId
  }

  /** The phone rows of organization `orgId`, in the order they were stored. */
  function PhonesOf(s: Store, orgId: int): (ps: seq<Phone>)
    ensures forall p :: p in ps <==> p in s.phones && p.data.organizationId == orgId
    ensures IsSubsequence(ps, s.phones)
  {
    Filter(s.phones, OwnedBy(orgId))
  }

  /** The activities linked to organization `orgId`, in table order. */
  function ActivitiesOf(s: Store, orgId: int): (acts: seq<Activity>)
    ensures forall a :: a in acts <==> a in s.activities && Link(orgId, a.id) in s.links
  {
    Filter(s.activities, (a: Activity) => Link(orgId, a.id) in s.links)
  }

  /** The association rows that link organization `orgId` to every activity of
      `acts` whose id is among `ids`. */
  function LinksTo(orgId: int, acts: seq<Activity>, ids: seq<int>): (ls: set<Link>)
    ensures forall a :: a in acts && a.id in ids ==> Link(orgId, a.id) in ls
    ensures forall l :: l in ls ==> l.organizationId == orgId && l.activityId in ids
    ensures forall l :: l in ls ==> exists a :: a in acts && a.id == l.activityId
  {
    set a | a in acts && a.id in ids :: Link(orgId, a.id)
  }

  /** The activity at position `k` is linked when its id is requested. */
  lemma LinksToListed(orgId: int, acts: seq<Activity>, ids: seq<int>, k: int)
    requires 0 <= k < |acts| && acts[k].id in ids
    ensures Link(orgId, acts[k].id) in LinksTo(orgId, acts, ids)
  {
  }

  /** No ids, no links. */
  lemma LinksToNothing(orgId: int, acts: seq<Activity>)
    ensures LinksTo(orgId, acts, []) == {}
  {
  }
}
