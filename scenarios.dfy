/**
 * Clients of the registry, one per request sequence the service's test suite
 * exercises, each starting from the seeded table. Each returns what that test
 * observes and states in its contract what the test asserts about it. The
 * proofs use the contracts of App.ActivityRegistry, the lemmas of Registry
 * and the seeded rosters written in Registry.Seed.
 */
module Scenarios {
  import opened Text
  import opened Registry
  import opened App

  // As in tests/test_api.py:51-59.
  method ListSeeded() returns (data: Table)
    ensures ChessClub in data && SoccerTeam in data && ProgrammingClass in data
    ensures |data[ChessClub].participants| == 2
  {
    var r := new ActivityRegistry();
    data := r.List();
  }

  // As in tests/test_api.py:77-91.
  method SignupNewStudent() returns (o: Outcome, data: Table)
    ensures o.Ok? && Contains(o.message, "newstudent@mergington.edu") && Contains(o.message, ProgrammingClass)
    ensures ProgrammingClass in data && "newstudent@mergington.edu" in data[ProgrammingClass].participants
  {
    var r := new ActivityRegistry();
    o := r.Signup(ProgrammingClass, "newstudent@mergington.edu");
    data := r.List();
  }

  // As in tests/test_api.py:93-100.
  method SignupUnknownActivity() returns (o: Outcome, data: Table)
    ensures o == ActivityNotFound && Contains(Detail(o), "Activity not found")
    ensures data == Seed()
  {
    var r := new ActivityRegistry();
    o := r.Signup("Non Existent Activity", "test@mergington.edu");
    data := r.List();
  }

  // As in tests/test_api.py:102-113.
  method SignupTwiceRefused() returns (first: Outcome, second: Outcome)
    ensures first.Ok?
    ensures second == AlreadySignedUp("duplicate@mergington.edu") && Contains(Detail(second), "already signed up")
  {
    var r := new ActivityRegistry();
    var email := "duplicate@mergington.edu";
    first := r.Signup(ProgrammingClass, email);
    second := r.Signup(ProgrammingClass, email);
  }

  // As in tests/test_api.py:123-140.
  method SignupSeveralStudents() returns (outcomes: seq<Outcome>, roster: seq<string>)
    ensures |outcomes| == 3 && AllOk(outcomes)
    ensures roster == ["student1@mergington.edu", "student2@mergington.edu", "student3@mergington.edu"]
  {
    var r := new ActivityRegistry();
    var emails := ["student1@mergington.edu", "student2@mergington.edu", "student3@mergington.edu"];
    assert emails[0][7] == '1' && emails[1][7] == '2' && emails[2][7] == '3';
    assert r.activities[ProgrammingClass].participants + emails == emails;
    SignupEachFresh(r.activities, ProgrammingClass, emails);
    outcomes := r.SignupEach(ProgrammingClass, emails);
    var data := r.List();
    roster := data[ProgrammingClass].participants;
    assert roster == [] + emails;
  }

  // As in tests/test_api.py:146-160.
  method RemoveMember() returns (o: Outcome, roster: seq<string>)
    ensures o.Ok? && Contains(o.message, "Removed") && Contains(o.message, "michael@mergington.edu")
    ensures "michael@mergington.edu" !in roster && "daniel@mergington.edu" in roster
  {
    var r := new ActivityRegistry();
    ghost var before := r.activities;
    o := r.Remove(ChessClub, "michael@mergington.edu");
    RemoveLeavesOthers(before, ChessClub, "michael@mergington.edu");
    var data := r.List();
    roster := data[ChessClub].participants;
  }

  // As in tests/test_api.py:162-169.
  method RemoveFromUnknownActivity() returns (o: Outcome)
    ensures o == ActivityNotFound && Contains(Detail(o), "Activity not found")
  {
    var r := new ActivityRegistry();
    o := r.Remove("Non Existent", "test@mergington.edu");
  }

  // As in tests/test_api.py:171-178.
  method RemoveNonMember() returns (o: Outcome)
    ensures o == ParticipantNotFound && Contains(Detail(o), "Participant not found")
  {
    var r := new ActivityRegistry();
    o := r.Remove(ChessClub, "notregistered@mergington.edu");
  }

  // As in tests/test_api.py:180-189.
  method RemoveWholeRoster() returns (roster: seq<string>)
    ensures |roster| == 0
  {
    var r := new ActivityRegistry();
    ghost var before := r.activities;
    var emails := ["michael@mergington.edu", "daniel@mergington.edu"];
    var first := r.Remove(ChessClub, emails[0]);
    var second := r.Remove(ChessClub, emails[1]);
    assert r.activities == RemoveEach(before, ChessClub, emails).table;
    RemoveEachEmpties(before, ChessClub, emails);
    var data := r.List();
    roster := data[ChessClub].participants;
  }

  // As in tests/test_api.py:205-224.
  method SignupThenRemoveWorkflow() returns (signedUp: Outcome, joined: seq<string>, removed: Outcome, data: Table)
    ensures signedUp.Ok? && "workflow@mergington.edu" in joined
    ensures removed.Ok? && data == Seed()
    ensures "workflow@mergington.edu" !in data[ProgrammingClass].participants
  {
    var r := new ActivityRegistry();
    var email := "workflow@mergington.edu";
    signedUp := r.Signup(ProgrammingClass, email);
    data := r.List();
    joined := data[ProgrammingClass].participants;
    removed := r.Remove(ProgrammingClass, email);
    data := r.List();
  }

  // As in tests/test_api.py:226-239.
  method OneStudentSeveralActivities() returns (outcomes: seq<Outcome>, data: Table)
    ensures |outcomes| == 3 && AllOk(outcomes)
    ensures ChessClub in data && "multitask@mergington.edu" in data[ChessClub].participants
    ensures SoccerTeam in data && "multitask@mergington.edu" in data[SoccerTeam].participants
    ensures ProgrammingClass in data && "multitask@mergington.edu" in data[ProgrammingClass].participants
  {
    var r := new ActivityRegistry();
    var email := "multitask@mergington.edu";
    var names := [ChessClub, SoccerTeam, ProgrammingClass];
    assert email !in r.activities[ChessClub].participants;
    assert email !in r.activities[SoccerTeam].participants;
    JoinEachFresh(r.activities, names, email);
    JoinEachMembers(r.activities, names, email);
    outcomes := r.JoinEach(names, email);
    data := r.List();
    assert forall k :: 0 <= k < |names| ==> email in data[names[k]].participants;
    assert names[0] == ChessClub && names[1] == SoccerTeam && names[2] == ProgrammingClass;
  }
}
