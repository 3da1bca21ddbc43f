# Organization directory: activity tree, organizations, buildings

This project models the core of a small directory service. The service stores
buildings (an address and a coordinate pair), activities (named, and linked
through a nullable `parent_id` into what is intended to be a forest of at most
three levels) and
organizations (a name, an ordered phone list, a building and a set of
activities). The model covers:

- the generic repository (`get_all`, `get_by_id`, `create`, `update`, `delete`):
  a class `Table` over a map from id to record, with an auto-increment counter;
- the activity repository's two recursive queries. `get_sub_activities` is a
  bounded downward closure. `get_depth` is an upward parent walk that returns
  the largest depth it reaches;
- the activity service, which checks the parent (existence, self-reference, the
  level cap) before it writes;
- the organization repository. This includes the duplicate, building and
  unresolved-id checks of `create` and `update`, and the `activity_ids`
  semantics of `update` (None keeps, `[]` clears, a list replaces). It also
  includes the four query filters;
- the organization service, which checks the building and each activity id in
  list order before it calls the repository. Its `get_by_activity` expands an
  activity to its sub-activities;
- the building service;
- the request validators: blank names and addresses, the 100-character
  activity name cap, coordinate ranges, radius and rectangle parameters,
  `activity_ids`, and the three-form phone grammar;
- the seeded fixture data as concrete scenarios.

The older combined revisions `app/infrastructure/repositories.py` and
`app/adapters/schemas.py` hold the same logic as the split files. It is
modelled once, as follows:

- base repository: `repositories.py:15-45`;
- activity queries: `repositories.py:61-118`;
- organization `create` and `update`: `repositories.py:141-204`;
- radius and rectangle filters: `repositories.py:229-258`;
- validators: `schemas.py:4-129`.

The one difference between the revisions is the older `get_by_activity`. It
takes a single id and matches only direct tagging
(`repositories.py:220-227`). It is modelled separately as `ByActivityDirect`.

Modelling decisions:

- **Store.** Every table is a `map<int, T>` inside a `Table` object. The
  organization/activity join relation is the organization's `activities: set<int>`.
  A set holds each pair once, which is what the relation's composite primary
  key guarantees.
- **Unique columns.** The unique columns (building address, activity name) are
  checked where the commit would raise. The check returns `UniqueViolation` and
  writes nothing.
- **Errors.** The failures become variants of one `Error` datatype, carried
  in a `Result`. Most stand for an `HTTPException` or a `ValueError` the
  source raises. `UniqueViolation` stands for the `IntegrityError` that
  SQLAlchemy raises at commit. `ParentIsDescendant` is never raised by the
  source; only the corrected update check (see "## Findings") returns it.
- **Acyclicity.** A row's chain *ends* (`HasTop`) when its parent walk
  reaches a row with no stored parent. The upward query has no cycle guard: started
  from one id, it returns exactly when that id's own chain ends, whatever cycles
  exist elsewhere. `Depth` and `get_depth` therefore require only that the
  queried chain ends. The table is *acyclic* when every row's chain ends. The
  services run on any table and keep acyclicity as an `old ==> new`
  implication where the source keeps it.
- **`get_by_activity`.** The service's `get_by_activity` returns the
  organizations tagged with any activity at most three child links below the
  given one. Each organization appears once. An unknown activity yields nothing.
- **Radius search.** The radius search takes `cos(radians(lat))` as an input,
  `cosLat`. Coordinates are `real`.
- **Phones.** The grammar is that of `re.match` with a `$` anchor. That anchor
  also matches before one final newline, so `"+79991234567\n"` is accepted
  (`AcceptedMobileExamples`). The phone forms carry 11, 7 and 11 digits
  (`PhoneFormDigits`).
- **Whitespace.** `strip()` and `\s` use Python's whitespace set
  (`Schemas.IsSpace`).

## Model

| member | source | states |
|---|---|---|
| Entities.PutKeepsUniqueAddresses | app/domain/entities.py:15 | storing a building whose address no other row has keeps addresses unique |
| Entities.PutKeepsUniqueNames | app/domain/entities.py:23 | storing an activity whose name no other row has keeps names unique |
| BaseRepository.ApplyKwargs | app/infrastructure/repositories/base.py:31-34 | the in-order `setattr` fold over the non-None keywords: no keywords leave the entity as it is, one keyword is exactly one `setattr` when its value is not None; AllNoneLeavesEntity and UntouchedFieldKept state the rest |
| BaseRepository.AllNoneLeavesEntity | app/infrastructure/repositories/base.py:31-37 | an update whose every keyword value is None returns the entity unchanged |
| BaseRepository.UntouchedFieldKept | app/infrastructure/repositories/base.py:31-37 | a field that no non-None keyword assigns keeps its value through the `setattr` loop |
| BaseRepository.Table.GetAll | app/infrastructure/repositories/base.py:16-18 | returns every stored entity |
| BaseRepository.Table.GetById | app/infrastructure/repositories/base.py:20-22 | returns the entity stored under the id, or None exactly when there is none |
| BaseRepository.Table.Create | app/infrastructure/repositories/base.py:24-29 | stores the entity under a fresh id (the counter's value, not in use before) and changes no other row |
| BaseRepository.Table.Update | app/infrastructure/repositories/base.py:31-37 | the loop applies each non-None keyword in order; the row becomes that result and no other row changes |
| BaseRepository.Table.Delete | app/infrastructure/repositories/base.py:39-41 | removes exactly that row |
| ActivityRepository.ParentIn | app/infrastructure/repositories/activity.py:63-71 | one step of the upward walk: the parent id only when the row and its parent row both exist |
| ActivityRepository.Depth | app/infrastructure/repositories/activity.py:53-77 | for an id whose chain ends, the level is the hop count at which its parent walk ends; cycles elsewhere do not matter |
| ActivityRepository.GetDepth | app/infrastructure/repositories/activity.py:49-77 | 0 for None and for an id with no row; otherwise, for a row whose chain ends, its hop count to its top |
| ActivityRepository.DepthIsHopCount | app/infrastructure/repositories/activity.py:53-77 | any distance at which the walk tops out is the depth |
| ActivityRepository.DepthOfTop | app/infrastructure/repositories/activity.py:53-75 | a root, or a row whose parent row is gone, has depth 0 |
| ActivityRepository.DepthOfChild | app/infrastructure/repositories/activity.py:63-73 | a row under an existing parent has depth one more than the parent |
| ActivityRepository.SelfParentIsCyclic | app/infrastructure/repositories/activity.py:63-73 | a row that is its own parent makes the walk endless, so the table is not acyclic |
| ActivityRepository.AncestorOrSelfOnChain | app/services/activity.py:32-47 | `AncestorOrSelf(anc, x)` holds exactly when `anc` lies on the walk up from `x` |
| ActivityRepository.MoveKeepsAcyclic | app/services/activity.py:32-47 | re-pointing an activity to a parent outside its own subtree keeps an acyclic table acyclic |
| ActivityRepository.MoveUnderDescendantIsCyclic | app/infrastructure/repositories/activity.py:53-77 | re-pointing an activity to a parent inside its own subtree leaves it on a walk that never ends, where the upward query does not return |
| ActivityRepository.AddLeafLevels | app/services/activity.py:19-30 | adding an unreferenced row under an existing parent whose chain ends, or under none, changes for no other row whether its chain ends or its depth, gives the new row its parent's depth plus one, and keeps an acyclic table acyclic |
| ActivityRepository.RemoveLevels | app/services/activity.py:49-53 | removing a row keeps every ending chain ending, increases no depth, and keeps an acyclic table acyclic |
| ActivityRepository.Children | app/infrastructure/repositories/activity.py:35-41 | one recursive step yields only stored rows |
| ActivityRepository.Tree | app/infrastructure/repositories/activity.py:28-43 | the CTE rows up to a level contain the root and, for a stored root, only stored rows |
| ActivityRepository.SubActivities | app/infrastructure/repositories/activity.py:20-47 | empty for `depth <= 0` or a missing root; otherwise contains the root; only stored activities, each once |
| ActivityRepository.SubActivitiesAreReachable | app/infrastructure/repositories/activity.py:20-47 | an activity is in the result exactly when `depth > 0` and it is reachable from the root by at most `depth` child links |
| ActivityService.ActivityUpdateFields | app/services/activity.py:47 | the repository update with `name` and `parent_id` sets each one that is given and keeps the other |
| ActivityService.ParentCheck | app/services/activity.py:20-46 | a parent is accepted exactly when it is not the activity itself, exists, and has depth below 2; self-reference is reported first, then a missing parent, then the nesting limit |
| ActivityService.AcceptedParentKeepsCap | app/services/activity.py:26-30 | a new row under an accepted parent lands at depth at most 2 and keeps the whole table within the cap |
| ActivityService.ParentCheckAdmitsCycle | app/services/activity.py:35-47 | the source's check accepts a parent below level 2 inside the activity's subtree, and the update then leaves the activity on an endless walk |
| ActivityService.MoveCheck | app/services/activity.py:35-47 | the corrected update check: it fails exactly where `ParentCheck` does, with the same error, or where the parent lies in the activity's subtree |
| ActivityService.MoveCheckKeepsAcyclic | app/services/activity.py:35-47 | an update passing the corrected check keeps an acyclic table acyclic |
| ActivityService.ActivityService.GetSubActivities | app/services/activity.py:55-56 | the activities reachable from the id within 3 child links, root included |
| ActivityService.ActivityService.Create | app/services/activity.py:19-30 | no parent: no check; otherwise the parent-check error, or a unique-name violation; nothing is written on error; on success the new row's chain ends at depth at most 2, no other row's chain or depth changes, and acyclicity and the cap are kept |
| ActivityService.ActivityService.Update | app/services/activity.py:32-47 | a given parent must pass the check with the activity as `selfId`, self-reference first; None fields are kept; nothing is written on error; on success the table stays acyclic unless the new parent lies in the activity's subtree, and then the activity's walk never ends |
| ActivityService.ActivityService.Delete | app/services/activity.py:49-53 | on any table: a missing id fails with its id and removes nothing; otherwise exactly that row goes; acyclicity and the cap are kept when they held |
| BuildingService.BuildingUpdateFields | app/services/building.py:24-33 | the three-keyword update sets each given field and keeps the others |
| BuildingService.BuildingService.GetAll | app/services/building.py:13-14 | every stored building |
| BuildingService.BuildingService.GetById | app/services/building.py:16-17 | the building with that id, or None when there is none |
| BuildingService.BuildingService.Create | app/services/building.py:19-22 | stores exactly the given address and coordinates under a fresh id, unless the address is taken |
| BuildingService.BuildingService.Update | app/services/building.py:24-33 | given fields replace the stored ones, None fields stay; a taken address fails and writes nothing |
| BuildingService.BuildingService.Delete | app/services/building.py:35-39 | a missing id fails and removes nothing; otherwise exactly that building goes |
| OrganizationRepository.SetOfSeqSize | app/infrastructure/repositories/organization.py:36 | `len(set(ids)) <= len(ids)`, with equality exactly when no id repeats |
| OrganizationRepository.ResolvedCount | app/infrastructure/repositories/organization.py:44-52 | for distinct ids, as many rows resolve as ids were given exactly when every id exists, and then they are the given set |
| OrganizationRepository.CreateCheck | app/infrastructure/repositories/organization.py:33-52 | duplicates are rejected first, then a missing building, then an unknown id; success means distinct, existing ids and building, giving the id set |
| OrganizationRepository.UpdateActivitiesCheck | app/infrastructure/repositories/organization.py:65-83 | None keeps the associations; `[]` clears them; a list is rejected for duplicates or unknown ids, otherwise gives its set |
| OrganizationRepository.OrganizationUpdateFields | app/infrastructure/repositories/organization.py:81-87 | the association assignment and the `setattr` loop produce exactly the patched record |
| OrganizationRepository.PatchNothing | app/infrastructure/repositories/organization.py:65-93 | an update with every field None leaves the organization as it was |
| OrganizationRepository.ByBuilding | app/infrastructure/repositories/organization.py:106-111 | exactly the organizations whose `building_id` is the given one; ByBuildingAfterPut, ByBuildingAfterRemove, ByBuildingPartitions and ByBuildingInPointRect relate it to the writes and to the rectangle search |
| OrganizationRepository.ByBuildingAfterPut | app/infrastructure/repositories/organization.py:106-111 | storing an organization puts its id on its building's list, takes it off every other list, and moves nobody else |
| OrganizationRepository.ByBuildingAfterRemove | app/infrastructure/repositories/organization.py:106-111 | removing an organization takes it off its building's list and changes no other entry |
| OrganizationRepository.ByBuildingPartitions | app/infrastructure/repositories/organization.py:106-111 | an organization with a building is listed under that building and under no other |
| OrganizationRepository.ByBuildingInPointRect | app/infrastructure/repositories/organization.py:106-111 | the organizations of a stored building all lie in the zero-size rectangle at its coordinates |
| OrganizationRepository.ByActivities | app/infrastructure/repositories/organization.py:113-120 | exactly the organizations tagged with at least one stored activity of the list, each once |
| OrganizationRepository.ByActivityDirect | app/infrastructure/repositories.py:220-227 | exactly the organizations tagged with the single given stored activity, each once |
| OrganizationRepository.InRect | app/infrastructure/repositories/organization.py:141-153 | exactly the organizations whose building lies in the closed box; none without a building |
| OrganizationRepository.LonDelta | app/infrastructure/repositories/organization.py:123-128 | near the poles `radius / 111`, elsewhere `radius / (111 * cos_lat)`; no division by zero |
| OrganizationRepository.InRadius | app/infrastructure/repositories/organization.py:122-139 | exactly the organizations whose building lies in the box `lat ± r/111`, `lon ± lon_delta` |
| OrganizationRepository.InvertedRectIsEmpty | app/infrastructure/repositories/organization.py:148-149 | a rectangle with `min > max` on either axis matches nothing |
| OrganizationRepository.InRectMonotone | app/infrastructure/repositories/organization.py:141-153 | a rectangle inside another selects a subset of it |
| OrganizationRepository.LonDeltaAtLeastLatDelta | app/infrastructure/repositories/organization.py:123-128 | for a positive radius and `0 <= cos_lat <= 1` the longitude half-width is positive and at least the latitude half-width |
| OrganizationRepository.LonDeltaMonotone | app/infrastructure/repositories/organization.py:123-128 | a larger radius gives a wider longitude half-width |
| OrganizationRepository.InRadiusMonotone | app/infrastructure/repositories/organization.py:122-139 | a larger radius never loses an organization |
| OrganizationRepository.InRadiusFindsCentre | app/infrastructure/repositories/organization.py:122-139 | an organization whose building stands at the centre is found by every positive radius |
| OrganizationRepository.OrganizationRepository.Create | app/infrastructure/repositories/organization.py:33-63 | fails exactly as the create check does, writing nothing; otherwise stores name, phones, building and exactly the given activity set under a fresh id |
| OrganizationRepository.OrganizationRepository.Update | app/infrastructure/repositories/organization.py:65-93 | fails exactly as the activity check does, writing nothing; otherwise the row becomes the patched organization |
| OrganizationRepository.OrganizationRepository.Delete | app/infrastructure/repositories/organization.py:95-97 | removes exactly that organization |
| OrganizationService.FirstMissing | app/services/organiztion.py:40-42 | None exactly when every id exists; otherwise an unknown id with every earlier id known |
| OrganizationService.CreateOutcome | app/services/organiztion.py:37-43 | a missing building is reported first, then the first unknown activity id; the create succeeds exactly when the building and every id exist and no id repeats, giving the id set |
| OrganizationService.UpdateOutcome | app/services/organiztion.py:45-53 | a given missing building is reported first, and no building is looked up when none is given; past that check, with no `activity_ids` the associations are kept, and with a list the update succeeds exactly when the ids are distinct and all exist, giving their set; the first unknown id is reported as not found, and repeated ids that all exist as duplicates; unresolved ids are never reported |
| OrganizationService.CreateOutcomeCases | app/services/organiztion.py:37-43 | the service never reports unresolved ids; with an existing building and existing ids, repeated ids fail as duplicates and distinct ones succeed |
| OrganizationService.OrganizationService.FindMissingActivity | app/services/organiztion.py:40-42 | the loop finds the first id in list order that `get_by_id` does not find |
| OrganizationService.OrganizationService.Create | app/services/organiztion.py:37-43 | a missing building fails first, then the first unknown activity, then the repository checks; nothing is written on error; success stores exactly the record and adds the new id to its building's list only |
| OrganizationService.OrganizationService.Update | app/services/organiztion.py:45-53 | answers what `UpdateOutcome` answers: the building is checked only when given, the activities only when given (an unknown id as not found, a repeated one as a duplicate), then the repository update; nothing is written on error; on success the id is on the list of its resulting building only |
| OrganizationService.OrganizationService.Delete | app/services/organiztion.py:55-56 | removes exactly that organization, and from its building's list |
| OrganizationService.OrganizationService.GetByActivity | app/services/organiztion.py:23-26 | the organizations tagged with an activity within 3 child links of the given one, each once; nothing for an unknown activity |
| OrganizationService.OrganizationService.GetByBuilding | app/services/organiztion.py:20-21 | the organizations whose `building_id` is the one given; for a stored building, all of them are found by the rectangle search at its coordinates |
| OrganizationService.OrganizationService.GetInRect | app/services/organiztion.py:31-32 | the repository's inclusive rectangle filter |
| OrganizationService.OrganizationService.GetInRadius | app/services/organiztion.py:28-29 | the repository's radius box filter |
| Schemas.IsSpace | app/adapters/schemas/organization.py:17 | Python's whitespace set: space, tab, newline and carriage return are in it; no digit, `+`, `-` or `.` is |
| Schemas.Strip | app/adapters/schemas/organization.py:17 | `str.strip()`: a prefix of the left-stripped string with only whitespace after it, neither starting nor ending with whitespace |
| Schemas.LStrip | app/adapters/schemas/organization.py:17 | drops exactly the leading whitespace: a suffix, all dropped characters whitespace, the rest starting with a non-space |
| Schemas.RStrip | app/adapters/schemas/organization.py:17 | drops exactly the trailing whitespace |
| Schemas.StripEmptyIffBlank | app/adapters/schemas/organization.py:17 | `not v.strip()` holds exactly when every character is whitespace |
| Schemas.ActivityNameProblem | app/adapters/schemas/activity.py:7-14 | accepted exactly when non-blank and at most 100 characters; a blank name is reported as blank, whatever its length |
| Schemas.NonBlankProblem | app/adapters/schemas/building.py:9-14 | the address and organization-name validator accepts exactly the non-blank strings |
| Schemas.PhoneFormDigits | app/adapters/schemas/organization.py:24-37 | the mobile and long forms carry 11 digits, the short form 7 |
| Schemas.IsPhoneForm | app/adapters/schemas/organization.py:24-37 | the alternation of the three forms: an accepted string ends in a digit and starts with `+` or a digit |
| Schemas.ValidPhone | app/adapters/schemas/organization.py:24-39 | `re.match` with the `$` anchor: every form is accepted, and so is a form followed by one newline, but not by two |
| Schemas.ValidPhoneLength | app/adapters/schemas/organization.py:24-39 | an accepted phone has length 9, 12 or 15, plus one for a final newline, and starts with `+`, `2`, `3` or `8` |
| Schemas.FirstInvalidPhone | app/adapters/schemas/organization.py:38-40 | None exactly when every phone matches; otherwise a non-matching phone with all earlier phones matching |
| Schemas.PhonesProblem | app/adapters/schemas/organization.py:21-41 | the list passes exactly when every phone matches, so the empty list passes; otherwise it names a bad phone |
| Schemas.BuildingCreateErrors | app/adapters/schemas/building.py:4-14 | no errors exactly when the address is non-blank, latitude in [-90, 90] and longitude in [-180, 180]; each violation is reported on its field |
| Schemas.ActivityCreateErrors | app/adapters/schemas/activity.py:3-17 | accepted exactly when the name passes; any `parent_id`, None included, is accepted |
| Schemas.ActivityUpdateErrors | app/adapters/schemas/activity.py:19-21 | accepted exactly when `parent_id` is None or at least 1; the name is not checked |
| Schemas.OrganizationCreateErrors | app/adapters/schemas/organization.py:9-52 | accepted exactly when the name is non-blank, every phone matches and `activity_ids` is non-empty |
| Schemas.OrganizationUpdateErrors | app/adapters/schemas/organization.py:55-66 | accepted exactly unless `activity_ids` is the empty list; name and phones are not checked |
| Schemas.RadiusSearchErrors | app/adapters/schemas/organization.py:83-86 | accepted exactly when lat in [-90, 90], lon in [-180, 180] and the radius positive |
| Schemas.RectSearchErrors | app/adapters/schemas/organization.py:89-93 | accepted exactly when each bound is in its range; no ordering of the bounds is required |
| Schemas.InvertedRectAcceptedButEmpty | app/adapters/schemas/organization.py:89-93 | an accepted rectangle with `min_lat > max_lat` lies within range and matches no organization |
| Schemas.AcceptedRadiusFindsCentre | app/adapters/schemas/organization.py:83-86 | accepted radius parameters always find an organization standing at the centre |
| Scenarios.SeedLevels | seed.py:32-42 | the seeded activities are acyclic and within the cap; a root has depth 0, a child depth 1 |
| Scenarios.FoodSubtree | seed.py:32-42 | the sub-activities of the first root are it and its two children |
| Scenarios.ByFoodFindsSeedOrganization | seed.py:44-57 | the seeded organization is found once by its root activity, and the old direct filter finds it by a child but not by the other root |
| Scenarios.LevelCapScenario | app/services/activity.py:26-29 | a child may go under a level-1 activity, and nothing may go under that grandchild |
| Scenarios.UpdateClosesCycle | app/services/activity.py:35-47 | moving the first seeded root under its own child passes the source's check, the corrected check refuses it, and afterwards the root's walk never ends |
| Scenarios.CreateScenarios | app/services/organiztion.py:37-43 | repeated existing ids fail as duplicates, an unknown id is named, a missing building comes first, distinct ids succeed |
| Scenarios.AcceptedMobileExamples | app/adapters/schemas/organization.py:27-28 | the seeded mobile number is accepted, also followed by one newline; the empty phone list passes |
| Scenarios.AcceptedLandlineExamples | app/adapters/schemas/organization.py:30-34 | the short and the long form are accepted with `-`, `.` and space separators |
| Scenarios.RefusedPhoneExamples | app/adapters/schemas/organization.py:24-40 | a wrong lead digit, a four-digit group, a short mobile number, a missing `+` and a doubled separator are refused |
| Scenarios.ActivityNameLengthCap | app/adapters/schemas/activity.py:12-13 | 100 characters pass, 101 fail as too long |
| Scenarios.ActivityNameBlankFirst | app/adapters/schemas/activity.py:10-13 | a blank 101-character name is reported as blank |
| Scenarios.TabNewlineIsBlank | app/adapters/schemas/activity.py:10-11 | a name of a tab and a newline is blank |
| Scenarios.PaddedAddressAccepted | app/adapters/schemas/building.py:9-14 | surrounding spaces do not make an address blank |
| Scenarios.UpdateSkipsNameAndPhones | app/adapters/schemas/organization.py:55-66 | the update schema lets a blank name and a bad phone through but refuses `[]` |
| Scenarios.CreateRefusesBlankName | app/adapters/schemas/organization.py:14-19 | the create schema refuses the same blank name, and only it |

## Left out

- HTTP routing, dependency injection, sessions, commit/refresh, eager loading and async execution are not modelled. Each operation runs to completion on the in-memory tables, and concurrent requests are out of scope.
- `search_by_name` (`ilike '%name%'`) is not modelled, because its matching depends on the database collation. `ActivityRepository.get_by_name` is not modelled either.
- `OrganizationService.get_all`, `get_by_id` and `ActivityService.get_all`, `get_by_id` are not modelled separately. The activity ones call the base repository's `GetAll` and `GetById` and nothing else. The organization repository overrides both (app/infrastructure/repositories/organization.py:20-31): they return the same rows, with the building and the activities eager-loaded through `joinedload` and `.unique()`. The model has no relation loading, so they are the base `GetAll` and `GetById` here.
- `math.cos(math.radians(lat))` is an input (`cosLat`). Floating-point rounding is not modelled: coordinates are mathematical reals. The model does not claim that the box contains the great-circle disc. Pydantic floats admit infinity by default, so `radius_km=inf` passes `gt=0` (app/adapters/schemas/organization.py:86). The radius box then matches every organization that has a building. Reals cannot express an infinite radius, so the model has no such input.
- Python's `\d` also matches non-ASCII decimal digits. The model accepts only ASCII `0`-`9`.
- Deleting a building or an activity only removes that row. The ORM would also null the referencing `building_id` or `parent_id` columns and drop the join rows. Here the reference is left dangling instead. Both activity queries and the joined organization filters treat a dangling reference as null. However, `ByBuilding` on a deleted building's id still lists the organizations that referred to it.
- The repository `update` of an organization does not check a given `building_id`. The database would reject an unknown id at commit through its foreign key. That rejection is not modelled. The service checks the building first.
- The create schema admits `building_id: None`. The service then fails to find a building. The model's create takes an integer building id.
- ActivityService.ActivityService.Update: the contract does not claim to keep the level cap. The source checks only the new parent's own depth, so moving an activity that has children can push them below level 2. Moving an activity into its own subtree is covered under "## Findings".
- ActivityService.ActivityService.Create: on a unique-name violation the model leaves the id counter as it was. PostgreSQL advances the serial sequence for the failed `INSERT`, so in the source the next id skips one. No property of the model depends on the values of ids.
- BuildingService.BuildingService.Create: the same holds for a unique-address violation: the counter stays, while the source's sequence skips one.
- Ids are unbounded integers. The id columns are PostgreSQL `integer`, so in the source an id of 2^31 or more passed to `get_by_id` or `in_()` makes the driver raise an out-of-range error. The model reports `ActivityNotFound`, `BuildingNotFound` or `UnresolvedActivityIds` instead.
- The activity service's methods require that the chain of the parent they query ends. Where it does not, the source's `get_depth` never returns (see "## Findings"); the model has no result for such a call.
- The building update schema has no checks to model. All three fields are optional and unconstrained.

## Findings

| source | as written | input that shows it | evidently intended | confidence | as-written member | corrected member |
|---|---|---|---|---|---|---|
| app/services/activity.py:35-47 | `update` checks only that the new parent is not the activity itself, exists and is below level 2. A parent inside the activity's own subtree passes, and the update closes a cycle. After that, `get_depth` (app/infrastructure/repositories/activity.py:53-77) started on any row of the cycle never returns, because its recursive CTE has no cycle guard | seeded activities, `update(activity 1, parent_id=3)`; activity 3 is a child of 1 at level 1 | refuse a parent that lies in the activity's own subtree, so the activities stay a forest | not executed | ActivityService.ParentCheckAdmitsCycle | ActivityService.MoveCheckKeepsAcyclic |

`ActivityService.ActivityService.Update` keeps the source's check, so that it
models the code as written. Its contract states both outcomes: the table stays
acyclic when the new parent lies outside the activity's subtree, and the
activity's walk never ends when the parent lies inside it. `MoveCheck` is the
corrected check, and `MoveCheckKeepsAcyclic` proves the intended property for it.
