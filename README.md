# Organization directory service — a Dafny model

This project models the core of a small REST directory of organizations. The
directory holds buildings, a taxonomy of activities at most three levels deep,
organizations, their phone numbers, and the links between organizations and
activities. Every request first passes an API-key check. The model covers:

- the write handlers: create a building, create an activity (unique name,
  depth rule), create an organization with its phones and activity links;
- the read handlers: get one organization, list the organizations of a building,
  search by name, list by activity including sub-activities, and the nearby scan;
- the records' invariants and their delete rules (SET NULL, CASCADE);
- the response validator that turns phone rows into plain numbers.

The database is a `Database` object (`handlers.dfy`). Its fields are the tables.
A table is a sequence of rows in key order. A new row gets the key
`max(key) + 1`, as SQLite hands out rowids. The association table is a set of
pairs, because the pair is its primary key. The write handlers are methods that
append to the fields and keep the invariant `Integrity.Valid`. The read handlers
are functions of the store's contents.

Files, one module each:

- `errors.dfy`: Option, the error kinds, Result.
- `tables.dfy`: rows, keys, lookup by key, filtering in table order.
- `models.dfy`: the records and the relations between them.
- `hierarchy.dfy`:
  - the parent walk of create_activity;
  - the depth invariant;
  - the descendant collection of organizations_by_activity.
- `integrity.dfy`: the store invariant, the delete rules, and what each insert does.
- `sqllike.dfy`: SQLite's `LIKE`/`ilike` matcher.
- `schemas.dfy`: request payloads, the phone validator, the organization response.
- `handlers.dfy`: the API-key check, the `Database` class, and the read handlers.
- `scenarios.dfy`: the repository's client script and a depth scenario, on concrete tables.

The model follows the code in these points, which a reader might not expect:

- **Search** is `ilike '%name%'`, not a plain substring test:
  - a `%` or `_` in the query stays a wildcard;
  - only ASCII letters match regardless of case.

  `SearchIsSubstring` shows that a query without wildcards is exactly a
  case-insensitive substring search.
- **`parent_id`** stays as sent. A `parent_id` of `0` is falsy, so the walk
  treats the new node as a root, but the row keeps `0`.
- **The building reference** of a new organization is not checked, so it may
  point at no building.
- **Activity ids** sent with a new organization that name no activity are
  dropped without an error.

## Model

| member | source | states |
|---|---|---|
| Handlers.VerifyApiKey | main.py:29-38 | The request passes exactly when the header is present, not empty, and equal to the configured key; it then yields the key. A missing or empty header, or any other value, gives Forbidden. With no key configured, every request is refused. |
| Handlers.Database.constructor | main.py:19-20 | The database starts with every table empty and satisfies the invariant. |
| Handlers.Database.CreateBuilding | main.py:86-92 | Appends one building under the next key, with the three fields as sent, and leaves the other tables unchanged. The new building is found under its key. The invariant is kept. |
| Handlers.Database.CreateActivity | main.py:106-129 | Succeeds exactly when `Admit` accepts the name and parent; otherwise it returns Admit's error and the table is unchanged. On success it appends `(name, parent_id)` under the next key. Other tables are unchanged. The invariant is kept. |
| Hierarchy.Admit | main.py:108-123 | A taken name is refused with Validation before the parent is looked at. An accepted node's level is between 1 and 3. The only errors are NotFound and Validation. |
| Hierarchy.Walk | main.py:113-123 | The parent walk ends at a level between the starting level and 3. Its only errors are NotFound and Validation. |
| Hierarchy.WalkExplained | main.py:113-123 | Each answer of the walk is explained by the parents it met: accepted at level + number of ancestors, with the last link falsy; Validation after 4 - level ancestors; NotFound only for a truthy link that no row carries. |
| Hierarchy.WalkDetermined | main.py:113-123 | The converse: with unique keys, any parent chain decides the walk's answer (nesting error, acceptance at level + length, or NotFound). |
| Hierarchy.WalkAppend | main.py:113-123 | A walk that succeeds gives the same answer after a row is appended. |
| Hierarchy.AdmitKeepsInvariants | models.py:37 | Adding a node that Admit accepted keeps activity names unique and every activity at depth 3 or less. |
| Hierarchy.RootReached | models.py:38 | The activities form a forest: from any stored activity, at most 2 stored ancestors lead to a falsy parent link, so no parent chain loops. |
| Hierarchy.Children | main.py:138 | The children of an activity are exactly the stored activities whose parent link is that id. |
| Hierarchy.CollectIds | main.py:135-142 | Every collected id is the key of a stored activity that has a parent. That it collects exactly the descendants within the depth bound is `CollectIdsExact`. |
| Hierarchy.CollectEach | main.py:140-141 | Every id the loop over the children adds is the key of a stored activity that has a parent. |
| Hierarchy.CollectIdsExact | main.py:135-142 | collect_ids started at `level` returns exactly the descendants at most 4 - level generations below the start: none missed, none deeper. |
| Hierarchy.CollectEachExact | main.py:140-141 | The loop over the children collects exactly what lies below one of them. |
| Hierarchy.SubtreeIds | main.py:148 | The id list used as the filter holds the activity and exactly its descendants at most 3 generations down. |
| Handlers.OrganizationsByActivity | main.py:132-150 | An unknown activity gives NotFound. Otherwise the result lists, in table order and each once, exactly the organizations linked to a stored activity whose id is in the collected list. |
| Handlers.ByActivityExact | main.py:132-150 | An organization is listed exactly when it is linked to the activity itself or to a descendant at most 3 generations below. |
| Handlers.Database.CreateOrganization | main.py:43-63 | Appends the organization under the next key, with its building reference unchecked. Adds one phone per number and the links given by `LinksTo`; the other tables are unchanged. Reading it back gives the numbers in input order and exactly the requested activities that exist. The invariant is kept. |
| Handlers.NewOrganization | main.py:43-63 | The same effect on a store value: the organization row, one new phone row per number after the old ones, the links, the invariant kept, and the response's phones and activities. |
| Handlers.PendingPhones | main.py:51-54 | The loop adds one phone per number, in input order, each owned by the new organization and keyed after every existing row. Key order is kept. |
| Handlers.NewOrganizationResponse | main.py:43-63 | The response of a just-created organization lists its numbers in input order, and exactly the stored activities whose ids were requested. |
| Handlers.NewOrganizationPhones | models.py:62 | The phones of a new organization are exactly the rows added after it, in order. |
| Handlers.NewOrganizationActivities | models.py:63-67 | The activities of a new organization are exactly those its new links name. |
| Models.LinksTo | main.py:57-59 | The links made are exactly the pairs (organization, id of a stored activity whose id was requested). |
| Handlers.Database.Commit | main.py:60 | After the commit the tables are those of the new store, which must satisfy the invariant; so the database satisfies it too. |
| Handlers.GetOrganization | main.py:66-71 | NotFound exactly when no organization has the key. Otherwise the response of an organization with that key. |
| Handlers.GetStored | main.py:66-71 | With unique keys, reading a stored organization back gives that organization's own response. |
| Handlers.OrganizationsInBuilding | main.py:95-101 | NotFound exactly when no building has the key. Otherwise the result lists, in table order, exactly the organizations whose reference names that building. |
| Handlers.InBuildingResolves | models.py:59-60 | Each organization listed for a building resolves to that building in its response. |
| Handlers.SearchOrganizations | main.py:79-81 | The result lists, in table order, exactly the organizations whose name matches `%name%` under LIKE. |
| Handlers.SearchIsSubstring | main.py:79-81 | For a query without `%` and `_`, an organization is found exactly when the query occurs in its name, ignoring the case of ASCII letters. |
| Handlers.SearchEmptyFindsAll | main.py:79-81 | An empty query returns every organization, in table order. |
| SqlLike.PercentMatchesAll | main.py:81 | `%` matches every text. |
| SqlLike.LeadingPercent | main.py:81 | `%p` matches a text exactly when `p` matches one of its suffixes. |
| SqlLike.LiteralThenPercent | main.py:81 | `q%`, for `q` without wildcards, matches exactly the texts that start with `q`, ignoring ASCII case. |
| SqlLike.SurroundedQuery | main.py:81 | `%q%`, for `q` without wildcards, matches exactly the texts that contain `q`, ignoring ASCII case. |
| Handlers.OrganizationsNearby | main.py:155-179 | Fails exactly when the distance to some organization's building cannot be computed (`float()` or the haversine raises). Otherwise it returns, in table order, the organizations with a building within the radius. |
| Handlers.Within | main.py:173-177 | One step of the scan: None exactly when the organization has a building whose distance cannot be computed; otherwise whether it is kept, which is exactly the nearness test. |
| Handlers.NearbyExact | main.py:170-178 | An organization is kept exactly when it has a building and its distance is at most the radius. A wider radius keeps every organization a narrower one keeps. |
| Schemas.ExtractPhoneNumbers | schemas.py:74-82 | A value that is not a list, an empty list, or a list starting with a string is kept. A non-empty list of phone rows becomes the list of their numbers, in order and of the same length. A list mixing rows and strings fails. |
| Schemas.Numbers | schemas.py:81 | Succeeds exactly when every item is a phone row, and then gives each row's number in order. |
| Schemas.ExtractIdempotent | schemas.py:74-82 | Running the validator on its own output changes nothing. |
| Schemas.Respond | schemas.py:67-72 | The response has the organization's id and name, and one number per phone row in table order. Its building is present exactly when the reference finds a building, and it is that building. Its activities are exactly the stored activities linked to the organization. |
| Models.BuildingOf | models.py:59-60 | The reference resolves exactly when it is set and some building carries that key, and then to such a building. |
| Models.PhonesOf | models.py:62 | The organization's phones are exactly the phone rows it owns, in table order. |
| Models.ActivitiesOf | models.py:63-67 | The organization's activities are exactly the stored activities it has a link to. |
| Tables.NextId | models.py:21 | The next key is positive and above every key in the table. |
| Tables.MaxKey | models.py:21 | The largest key: every key is at most it, it is the key of some row unless it is 0, and it is 0 for an empty table. |
| Tables.Find | models.py:21 | Lookup by key finds a row of the table with that key. It finds none exactly when no row has that key. |
| Tables.FindUnique | models.py:21 | With ascending keys, looking up a row's key finds that row. |
| Tables.FindAppend | models.py:21 | Appending a row leaves every earlier lookup that succeeded unchanged. |
| Tables.AppendNext | models.py:21 | Appending a row under the next key keeps keys positive and ascending. |
| Tables.SubsequenceAscending | models.py:21 | Deleting rows keeps keys ascending. |
| Integrity.Valid | models.py:10-78 | The store invariant: keys positive and ascending in every table, activity names unique, every activity at depth 3 or less, every phone owned by a stored organization, and both ends of every link stored. A valid store's phones and links refer to existing rows. |
| Integrity.DeleteBuilding | models.py:59 | Deleting a building removes exactly that row. Every organization stays, in place, and one in that building loses its reference (SET NULL). |
| Integrity.DeleteBuildingKeepsValid | models.py:59 | Deleting a building keeps the invariant, and no organization still refers to it. |
| Integrity.DeleteOrganization | models.py:62 | Deleting an organization removes it, its phones (delete-orphan, CASCADE) and its links (CASCADE), and nothing else. |
| Integrity.DeleteOrganizationKeepsValid | models.py:62 | Deleting an organization keeps the invariant, and its key no longer finds a row. |
| Integrity.InsertActivityKeepsValid | models.py:37 | Inserting an activity that Admit accepted, under the next key, keeps the invariant. |
| Integrity.InsertOrganizationKeepsValid | models.py:55-59 | Inserting an organization under the next key keeps the invariant, whatever its building reference, and the new key finds it. |
| Integrity.InsertPhonesKeepsValid | models.py:76-78 | Appending phones of an existing organization, with keys kept ascending, keeps the invariant. |
| Integrity.InsertBuildingKeepsValid | models.py:21-24 | Inserting a building under the next key keeps the invariant. |
| Scenarios.FoodChainAdmitted | main.py:106-129 | A depth scenario: Food, then Meat under Food, then Beef under Meat are each accepted, at levels 1, 2 and 3, under keys 1, 2 and 3. |
| Scenarios.FoodChainOutcomes | main.py:108-123 | Below Beef nothing is accepted (Validation). Under Meat a node is accepted at level 3. An unknown parent gives NotFound, a taken name gives Validation, and a parent id of 0 makes a root. |
| Scenarios.FoodSubtree | main.py:134-148 | The collected ids for Food are exactly 1, 2 and 3. |
| Scenarios.CycleRefused | main.py:114-123 | On two rows that name each other as parent, which no handler writes, the walk still stops and refuses the nesting with Validation. |
| Scenarios.RootByDefault | schemas.py:25-26 | An activity sent without `parent_id` is a root: it is accepted at level 1 whenever its name is free. |
| Scenarios.MinimalOrganization | schemas.py:57-64 | An organization sent with only name and phones gets no links. It reads back with no building, no activities, and its phones in order. |
| Scenarios.ClientScript | test.py:94-121 | The client script, with its own strings, creates "ООО РомТех" under key 1. Reading it back gives both phone numbers in order, the building, and exactly the meat and dairy activities. Searching "РомТех", listing building 1, and asking for "Еда" (food) all find it. The search finds it because the Cyrillic query matches with its case as written. |
| Scenarios.ScriptSearchCase | test.py:115 | The same query in lower case, "ромтех", does not find the organization: `ilike` on SQLite folds ASCII letters only. |
| Scenarios.ScriptReads | test.py:108-121 | The four read requests of the script see the store that create_organization leaves, as above. |

## Left out

- Transport: HTTP status codes, JSON encoding, the response model's field filtering, and the list-valued responses' serialization. A list handler returns the rows; each is serialized by `Respond`.
- The order in which the framework runs the key check and body validation is not modelled. Every handler is modelled after the API-key check has passed.
- Loading the key from the environment file is left out; the configured key is a parameter.
- Payload type validation (strings, integers, required fields) is left out. The payload datatypes hold only well-typed values.
- Handlers.OrganizationsNearby:
  - the haversine formula, the query point and float parsing of the stored coordinate strings are not modelled;
  - the distance from the query point to a building is a parameter returning None when it cannot be computed: a coordinate string that `float()` refuses, or a value (such as `inf`, or a rounding error that puts the haversine's `a` outside [0, 1]) on which `math.sin` or `math.sqrt` raises;
  - the default `radius_m` of 1000 is a query-parameter default; the model takes the radius as given;
  - floating point is not modelled: the radius and the distance are reals.
- Query results without ORDER BY come back in an order SQLite does not promise. The model returns table (key) order.
- Handlers.OrganizationsByActivity: the model lists each organization once. It relies on the ORM's de-duplication of entity rows for a single-entity query with a join.
- Handlers.Database.CreateOrganization:
  - the source commits three times (organization, phones, links); the model makes one assignment at the end;
  - no step of it can fail in the model, so the intermediate states are not observable.
- Deleting activities (the CASCADE on `parent_id` and on the association table) is not modelled: no handler deletes anything.
- The building and organization deletes are modelled only as the schema's rules.
- The race between the name check and the insert of create_activity is not modelled: handlers run one at a time. The unique index that would reject a duplicate is therefore never reached.
- `list_organizations` and its response with phone ids are not modelled.
- Integrity.Valid does not require an organization's building reference to exist. Foreign keys are not enforced on the default SQLite connection, and create_organization does not check the reference.
- Schemas.ExtractPhoneNumbers: the AttributeError raised on a list that mixes phone rows and strings is modelled as a failed result (None), not as an exception. The response builder only passes lists of phone rows.
- Integer widths: keys and ids are unbounded integers. SQLite's 64-bit rowid limit is not modelled.
- Case folding: `ilike` folds ASCII letters only (SQLite's default). Other characters are compared exactly.
