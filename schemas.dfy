/** Request payloads and the organization response, with the validator that turns
    an organization's phone rows into plain numbers. */
module Schemas {
  import opened Errors
  import opened Tables
  import opened Models

  /** POST /buildings/ body: all three fields required, all text. */
  datatype BuildingCreate = BuildingCreate(address: string, latitude: string, longitude: string)

  /** POST /activities/ body: `name` required, `parentId` optional. */
  datatype ActivityCreate = ActivityCreate(name: string, parentId: Option<int>)

  /** POST /organizations/ body: `name` and `phones` required, `buildingId` and
      `activitiesIds` optional. */
  datatype OrganizationCreate = OrganizationCreate(
    name: string, phones: seq<string>, buildingId: Option<int>, activitiesIds: seq<int>)

  /** The activity payload a client sends without `parent_id`: the default is null. */
  function ActivityCreateOf(name: string): ActivityCreate {
    ActivityCreate(name, None)
  }

  /** The organization payload a client sends with only the required fields: no
      building, and an empty list of activity ids. */
  function OrganizationCreateOf(name: string, phones: seq<string>): OrganizationCreate {
    OrganizationCreate(name, phones, None, [])
  }

  // ---------------------------------------------------------------------------
  // The `phones` field validator

  /** An element of the value the validator receives: a string, or a phone row. */
  datatype PhoneItem = Text(text: string) | Record(phone: Phone)

  /** The value the validator receives: a list, or anything that is not a list. */
  datatype PhonesValue = ListOf(items: seq<PhoneItem>) | NotAList

  /** `[phone.number for phone in items]`; a string in the list has no `number`
      attribute, so the comprehension fails (None). */
  function Numbers(items: seq<PhoneItem>): (r: Option<seq<PhoneItem>>)
    ensures r.Some? <==> forall k :: 0 <= k < |items| ==> items[k].Record?
    ensures r.Some? ==> |r.value| == |items|
    ensures r.Some? ==> forall k :: 0 <= k < |items| ==> r.value[k] == Text(items[k].phone.data.number)
    decreases |items|
  {
    if items == [] then Some([])
    else if items[0].Text? then None
    else match Numbers(items[1..])
      case None => None
      case Some(rest) => Some([Text(items[0].phone.data.number)] + rest)
  }

  /** The `phones` validator of the organization response: a non-empty list that
      starts with a string is kept, a non-empty list of phone rows becomes the list
      of their numbers, anything else is kept. */
  function ExtractPhoneNumbers(v: PhonesValue): (r: Option<PhonesValue>)
    ensures v.NotAList? || v.items == [] ==> r == Some(v)
    ensures v.ListOf? && v.items != [] && v.items[0].Text? ==> r == Some(v)
    ensures v.ListOf? && v.items != [] && v.items[0].Record? ==>
      && (r.Some? <==> forall k :: 0 <= k < |v.items| ==> v.items[k].Record?)
      && (r.Some? ==> r.value.ListOf? && |r.value.items| == |v.items|)
      && (r.Some? ==> forall k :: 0 <= k < |v.items| ==> r.value.items[k] == Text(v.items[k].phone.data.number))
  {
    match v
    case NotAList => Some(v)
    case ListOf(items) =>
      if |items| > 0 then
        if items[0].Text? then Some(v)
        else match Numbers(items)
          case None => None
          case Some(numbers) => Some(ListOf(numbers))
      else Some(v)
  }

  /** Running the validator on its own output changes nothing. */
  lemma ExtractIdempotent(v: PhonesValue)
    ensures ExtractPhoneNumbers(v).Some? ==>
      ExtractPhoneNumbers(ExtractPhoneNumbers(v).value) == ExtractPhoneNumbers(v)
  {
    var r := ExtractPhoneNumbers(v);
    if r.Some? && v.ListOf? && v.items != [] && v.items[0].Record? {
      assert r.value.items[0] == Text(v.items[0].phone.data.number);
    }
  }

  // ---------------------------------------------------------------------------
  // The organization response

  datatype OrganizationResponse = OrganizationResponse(
    id: int, name: string, phones: seq<string>, building: Option<Building>, activities: seq<Activity>)

  function AsRecords(ps: seq<Phone>): (items: seq<PhoneItem>)
    ensures |items| == |ps| && forall k :: 0 <= k < |ps| ==> items[k] == Record(ps[k])
  {
    seq(|ps|, k requires 0 <= k < |ps| => Record(ps[k]))
  }

  /** The strings of a validated list (a phone row left in it would fail the
      `List[str]` check; it cannot be left there, see Respond). */
  function Texts(items: seq<PhoneItem>): (ts: seq<string>)
    ensures |ts| == |items| && forall k :: 0 <= k < |items| && items[k].Text? ==> ts[k] == items[k].text
  {
    seq(|items|, k requires 0 <= k < |items| => if items[k].Text? then items[k].text else "")
  }

  /** The response built from an organization row: its phone rows pass through the
      validator, its building reference and its activity links are resolved. */
  function Respond(s: Store, org: Organization): (r: OrganizationResponse)
    ensures r.id == org.id && r.name == org.data.name
    ensures |r.phones| == |PhonesOf(s, org.id)|
    ensures forall k :: 0 <= k < |r.phones| ==> r.phones[k] == PhonesOf(s, org.id)[k].data.number
    ensures r.building.Some? <==> org.data.buildingId.Some? && exists b :: b in s.buildings && b.id == org.data.buildingId.value
    ensures r.building.Some? ==> r.building.value in s.buildings && Some(r.building.value.id) == org.data.buildingId
    ensures forall a :: a in r.activities <==> a in s.activities && Link(org.id, a.id) in s.links
  {
    var phones :=
      match ExtractPhoneNumbers(ListOf(AsRecords(PhonesOf(s, org.id))))
      case Some(ListOf(items)) => Texts(items)
      case _ => [];
    OrganizationResponse(org.id, org.data.name, phones, BuildingOf(s, org), ActivitiesOf(s, org.id))
  }
}
