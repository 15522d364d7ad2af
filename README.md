# Activity registry of the Mergington High School signup service

This project models the in-memory activity registry of the Mergington High School management API. The registry is a process-wide table from activity name to an activity record. Each record holds a description, a schedule, an advisory `max_participants` and a participant list of email strings. Three requests use it:

- **list** returns the whole table.
- **signup** adds a student's email to one activity. It fails with *activity not found* for an unknown activity and with *already signed up* when the email is already on that roster.
- **remove** deletes a student's email from one activity. It fails with *activity not found* for an unknown activity and with *participant not found* when the email is not on that roster.

The application module itself (`app`, imported at tests/test_api.py:13) is not part of this model. The behaviour modelled here is the one the test suite fixes: the seeding fixture and the assertions about what each request answers and how the table looks afterwards.

Files:

- `text.dfy`, module `Text`: substring containment (`Contains`). Messages are judged only by the text they contain.
- `roster.dfy`, module `Roster`: one participant list. It has the no-duplicates invariant, `Without` (delete the first occurrence, as Python's `list.remove` does) and `Find` (the linear membership search).
- `registry.dfy`, module `Registry`: the data model (`Activity`, `Table`, `Outcome`) and the seeded table. `SignupStep` and `RemoveStep` say what one request does to the table. `SignupEach`, `JoinEach` and `RemoveEach` describe series of requests. The module also holds the lemmas about all of these.
- `app.dfy`, module `App`: class `ActivityRegistry`. It keeps the table in a field that its handlers change in place (`modifies this`). Each handler is proved to produce exactly the outcome and table that the matching `Registry` function gives. The handlers also keep the invariant `Valid()`, which says no roster holds an email twice.
- `scenarios.dfy`, module `Scenarios`: one client method per request sequence in the test suite. Each starts from the seeded registry, returns what that test observes and states the test's assertions in its contract. The proofs use the class contracts, the `Registry` lemmas and the seeded rosters written in `Seed`'s definition (for example, that michael and daniel are the Chess Club members).

Design decisions:

- Signup appends the new email at the end of the roster. Removal deletes the first occurrence. The contracts of `SignupStep` and `RemoveStep` speak of membership and of the roster's multiset, not of order. Four contracts do commit to order. `SignupThenRemove` proves that the table returns to exactly what it was. `SignupEachFresh` proves that the roster ends as exactly the old roster followed by the new emails, in request order. `Roster.WithoutAppended` proves that deleting the email just appended gives back the previous sequence. `Roster.WithoutAt` proves that deleting the first occurrence cuts out exactly that index.
- Confirmation messages are "Signed up E for A" and "Removed E from A". The error details are "Activity not found", "Participant not found" and "E already signed up". The exact wording is a choice of this model. The contracts state only what the tests check: which email, activity name or key phrase the text contains.
- HTTP status codes are replaced by the `Outcome` datatype. The mapping is `Ok` = 200, `ActivityNotFound` and `ParticipantNotFound` = 404, and `AlreadySignedUp` = 400.

## Model

| member | source | states |
|---|---|---|
| `Registry.Seed` | tests/test_api.py:22-45 | the seeded table has exactly the keys "Chess Club", "Soccer Team" and "Programming Class"; Chess Club and Soccer Team have two participants each and Programming Class none; no roster holds a duplicate |
| `App.ActivityRegistry.constructor` | tests/test_api.py:22-45 | a new registry holds the seeded table and satisfies the no-duplicates invariant |
| `App.ActivityRegistry.Reset` | tests/test_api.py:25-26 | clearing the table and then updating it with the seed leaves exactly the seeded table |
| `App.ActivityRegistry.List` | tests/test_api.py:51-71 | listing returns the whole table as it is and always succeeds |
| `Registry.SignupStep` | tests/test_api.py:77-113 | signup succeeds exactly when the activity exists and the email is not yet on its roster; it answers activity-not-found exactly for an unknown name and already-signed-up exactly for an email already on the roster; a failure changes nothing; after any signup to an existing activity the email is on its roster; a success adds exactly one copy of the email (multiset); the success message contains the email and the activity name; the other fields, the other activities and the set of names are unchanged |
| `Registry.RemoveStep` | tests/test_api.py:146-178 | remove succeeds exactly when the activity exists and the email is on its roster; it answers activity-not-found exactly for an unknown name and participant-not-found exactly for an email not on the roster; a failure changes nothing; the roster loses exactly one copy of the email (multiset); the success message contains "Removed" and the email; the other fields, the other activities and the set of names are unchanged |
| `Registry.SignedUpMessage` | tests/test_api.py:84-86 | the signup confirmation contains both the student's email and the activity name |
| `Registry.RemovedMessage` | tests/test_api.py:152-154 | the removal confirmation contains "Removed", the email and the activity name |
| `Registry.Detail` | tests/test_api.py:98-113 | the detail of each error contains the phrase the client checks: "Activity not found", "Participant not found", or "already signed up" together with the email |
| `App.ActivityRegistry.Signup` | tests/test_api.py:77-113 | the signup handler, which updates the table in place, yields exactly the outcome and new table of `SignupStep` and keeps the no-duplicates invariant |
| `App.ActivityRegistry.Remove` | tests/test_api.py:146-178 | the remove handler, which cuts the email out of the roster in place, yields exactly the outcome and new table of `RemoveStep` and keeps the no-duplicates invariant |
| `Registry.SignupKeepsWellFormed` | tests/test_api.py:102-113 | because a duplicate signup is refused, a signup keeps every roster free of duplicate emails |
| `Registry.RemoveKeepsWellFormed` | tests/test_api.py:146-160 | a removal keeps every roster free of duplicate emails |
| `Registry.RemoveLeavesOthers` | tests/test_api.py:156-160 | after a removal from a duplicate-free table, the removed email is absent from that roster and every other email is on it exactly when it was before |
| `Registry.SignupTwice` | tests/test_api.py:102-113 | signing up a new email twice gives success and then already-signed-up; the second request changes nothing and the roster grew by exactly one |
| `Registry.SignupThenRemove` | tests/test_api.py:205-224 | signing up a new email and then removing it both succeed, and the table afterwards equals the table before |
| `Registry.SignupEach` | tests/test_api.py:131-133 | a series of signups yields one outcome per request and never adds or drops an activity |
| `Registry.SignupEachFresh` | tests/test_api.py:123-140 | signing up new emails for one activity in turn, where the old roster followed by those emails holds no email twice: every request succeeds and the roster ends as exactly the old roster followed by those emails |
| `Registry.SignupEachFrame` | tests/test_api.py:123-140 | a series of signups for one activity changes only that activity's participant list: the rest of the table and its other fields stay as they were |
| `App.ActivityRegistry.SignupEach` | tests/test_api.py:131-133 | the loop of signups yields exactly the outcomes and table of `Registry.SignupEach` and keeps the no-duplicates invariant |
| `Registry.JoinEach` | tests/test_api.py:231-233 | a series of signups of one email yields one outcome per request and never adds or drops an activity |
| `Registry.JoinEachFresh` | tests/test_api.py:226-239 | one email signed up for several distinct activities it is not yet on: every request succeeds, so there is no cross-activity uniqueness |
| `Registry.JoinEachMembers` | tests/test_api.py:235-239 | after one email is signed up for several existing activities, it is on every one of those rosters |
| `Registry.JoinEachFrame` | tests/test_api.py:231-233 | signing one email up for several activities leaves every activity not named exactly as it was, and changes only the participant lists of the named ones |
| `App.ActivityRegistry.JoinEach` | tests/test_api.py:231-233 | the loop of signups yields exactly the outcomes and table of `Registry.JoinEach` and keeps the no-duplicates invariant |
| `Registry.RemoveEach` | tests/test_api.py:183-184 | a series of removals yields one outcome per request and never adds or drops an activity |
| `Registry.RemoveEachFrame` | tests/test_api.py:183-184 | a series of removals from one activity changes only that activity's participant list |
| `Registry.RemoveEachKeepsWellFormed` | tests/test_api.py:183-184 | a series of removals keeps every roster free of duplicate emails |
| `Registry.RemoveEachLeaves` | tests/test_api.py:180-189 | after removing a series of emails from one activity of a duplicate-free table, an email is on that roster exactly when it was there before and is not among the removed ones |
| `Registry.RemoveEachEmpties` | tests/test_api.py:180-189 | removing in turn a list of emails that covers a whole duplicate-free roster leaves that roster empty |
| `Roster.Find` | tests/test_api.py:102-113 | the membership search reports found exactly when the email is on the roster, and then gives the first index that holds it |
| `Roster.Without` | tests/test_api.py:146-160 | deleting an email shortens the roster by one exactly when the email was on it |
| `Roster.WithoutMultiset` | tests/test_api.py:146-160 | deleting an email takes exactly one copy of it off the roster, if there is one, and nothing else (multiset difference) |
| `Roster.WithoutRemovesAll` | tests/test_api.py:156-159 | on a duplicate-free roster, the deleted email is no longer on it |
| `Roster.WithoutKeepsOthers` | tests/test_api.py:160 | deleting one email neither removes nor adds any other email |
| `Roster.WithoutAppended` | tests/test_api.py:205-224 | deleting the email that was just appended gives back the previous roster |
| `Roster.WithoutAt` | tests/test_api.py:146-160 | when an index holds the first occurrence of an email, deleting that email cuts out exactly that index; this is how the remove handler updates the roster in place |
| `Roster.WithoutKeepsNoDuplicates` | tests/test_api.py:146-160 | deleting an email keeps a duplicate-free roster duplicate-free |
| `Text.Contains` | tests/test_api.py:85-86 | Python's substring test `part in s`: a string contains only parts no longer than itself |
| `Text.ContainsAtOffset` | tests/test_api.py:85-86 | `s` contains `part` exactly when `part` starts at some offset of `s` |
| `Scenarios.ListSeeded` | tests/test_api.py:51-59 | listing the seeded registry shows Chess Club, Soccer Team and Programming Class, with two Chess Club participants |
| `Scenarios.SignupNewStudent` | tests/test_api.py:77-91 | signing newstudent up for the seeded Programming Class succeeds, the message names the email and the activity, and the email is then on that roster |
| `Scenarios.SignupUnknownActivity` | tests/test_api.py:93-100 | signing up for "Non Existent Activity" answers activity-not-found, whose detail says "Activity not found", and the table stays the seeded one |
| `Scenarios.SignupTwiceRefused` | tests/test_api.py:102-113 | signing duplicate up twice for Programming Class succeeds first and is then refused as already signed up, with "already signed up" in the detail |
| `Scenarios.SignupSeveralStudents` | tests/test_api.py:123-140 | signing student1, student2 and student3 up for Programming Class in turn gives three successes, and the roster is then exactly those three emails |
| `Scenarios.RemoveMember` | tests/test_api.py:146-160 | after removing michael from the seeded Chess Club the confirmation says Removed and the email, michael is off the roster and daniel is on it |
| `Scenarios.RemoveFromUnknownActivity` | tests/test_api.py:162-169 | removing from "Non Existent" answers activity-not-found with "Activity not found" in the detail |
| `Scenarios.RemoveNonMember` | tests/test_api.py:171-178 | removing notregistered from Chess Club answers participant-not-found with "Participant not found" in the detail |
| `Scenarios.RemoveWholeRoster` | tests/test_api.py:180-189 | removing michael and then daniel from the seeded Chess Club leaves its roster empty |
| `Scenarios.SignupThenRemoveWorkflow` | tests/test_api.py:205-224 | signing workflow up for Programming Class succeeds and puts the email on the roster; removing it succeeds, the table is the seeded one again and the email is off the roster |
| `Scenarios.OneStudentSeveralActivities` | tests/test_api.py:226-239 | signing multitask up for Chess Club, Soccer Team and Programming Class gives three successes, and the email is then on all three rosters |

## Left out

- HTTP routing, status-code numbers, JSON encoding and URL-encoding of activity names with spaces (tests/test_api.py:115-121). These belong to the web framework. The model passes activity names as plain strings and reports results as the `Outcome` datatype.
- The root endpoint's redirect to `/static/index.html` (tests/test_api.py:195-199). It is web-framework behaviour and does not touch the registry.
- The test client, the fixtures' dependency injection and the `sys.path` setup (tests/test_api.py:5-19). These are test-harness I/O.
- Capacity. `max_participants` is stored but never checked against a signup, as in the service. `SignupStep`'s contract therefore lets a signup succeed whatever the roster size.
- Exact message wording. The tests check only substring containment, so the contracts promise no more than that.
- Participant order after a single request. `SignupStep` and `RemoveStep` state membership and the multiset only. Order is stated only by `SignupThenRemove`, `SignupEachFresh`, `Roster.WithoutAppended` and `Roster.WithoutAt`.
- Concurrent requests. The model handles one request at a time. A race between two handlers on the shared table is outside it.
- Removing every participant is modelled as a fold, `RemoveEach`, with no handler method of its own. The test makes two separate remove requests rather than looping, and each request is `App.ActivityRegistry.Remove`.
