/**
 * The activity registry: a table from activity name to activity record, and
 * what a signup and a removal do to it, as values. The class in module App
 * holds one such table and changes it in place; the functions here say what
 * each change is.
 */
module Registry {
  import opened Text
  import opened Roster

  /** One extracurricular activity. `maxParticipants` is advisory: nothing checks a signup against it. */
  datatype Activity = Activity(
    description: string,
    schedule: string,
    maxParticipants: int,
    participants: seq<string>)

  /** The registry, keyed by activity name (a dictionary, so names are unique). */
  type Table = map<string, Activity>

  /** Every roster in the table is free of duplicate emails. */
  predicate WellFormed(t: Table)
  {
    forall name :: name in t ==> NoDuplicates(t[name].participants)
  }

  /** What a request answers: a confirmation message, or one of the error cases. */
  datatype Outcome =
    | Ok(message: string)
    | ActivityNotFound
    | ParticipantNotFound
    | AlreadySignedUp(email: string)

  /** The outcome of one request together with the table it leaves behind. */
  datatype Step = Step(outcome: Outcome, table: Table)

  /** The outcomes of a series of requests, in order, and the table after the last one. */
  datatype Run = Run(outcomes: seq<Outcome>, table: Table)

  /** True when every request of a run succeeded. */
  predicate AllOk(outcomes: seq<Outcome>)
  {
    forall k :: 0 <= k < |outcomes| ==> outcomes[k].Ok?
  }

  /** One more successful request keeps a run all successful. */
  lemma AllOkSnoc(outcomes: seq<Outcome>, o: Outcome)
    requires AllOk(outcomes) && o.Ok?
    ensures AllOk(outcomes + [o])
  {
  }

  const ChessClub := "Chess Club"
  const SoccerTeam := "Soccer Team"
  const ProgrammingClass := "Programming Class"

  const ChessClubDescription: string := "Learn strategies and compete in chess tournaments"
  const ChessClubSchedule: string := "Fridays, 3:30 PM - 5:00 PM"
  const SoccerTeamDescription: string := "Join our varsity soccer team and compete in regional tournaments"
  const SoccerTeamSchedule: string := "Mondays, Wednesdays, Fridays, 4:00 PM - 6:00 PM"
  const ProgrammingClassDescription: string := "Learn programming fundamentals and build software projects"
  const ProgrammingClassSchedule: string := "Tuesdays and Thursdays, 3:30 PM - 4:30 PM"

  /** The seeded registry: three activities, two of them with two participants each. */
  function Seed(): (t: Table)
    ensures t.Keys == {ChessClub, SoccerTeam, ProgrammingClass}
    ensures WellFormed(t)
    ensures |t[ChessClub].participants| == 2
    ensures |t[SoccerTeam].participants| == 2
    ensures t[ProgrammingClass].participants == []
  {
    map[
      ChessClub := Activity(
        ChessClubDescription,
        ChessClubSchedule,
        12,
        ["michael@mergington.edu", "daniel@mergington.edu"]),
      SoccerTeam := Activity(
        SoccerTeamDescription,
        SoccerTeamSchedule,
        25,
        ["alex@mergington.edu", "sarah@mergington.edu"]),
      ProgrammingClass := Activity(
        ProgrammingClassDescription,
        ProgrammingClassSchedule,
        20,
        [])
    ]
  }

  /** Confirmation of a signup; it names the student and the activity. */
  function SignedUpMessage(name: string, email: string): (m: string)
    ensures Contains(m, email) && Contains(m, name)
  {
    ContainsPieces("Signed up ", email, " for ", name);
    "Signed up " + email + " for " + name
  }

  /** Confirmation of a removal; it says "Removed" and names the student and the activity. */
  function RemovedMessage(name: string, email: string): (m: string)
    ensures Contains(m, "Removed") && Contains(m, email) && Contains(m, name)
  {
    ContainsPieces("Removed ", email, " from ", name);
    assert "Removed" <= "Removed " + email + " from " + name;
    "Removed " + email + " from " + name
  }

  /** The detail text of an error outcome; it carries the phrase a client looks for. */
  function Detail(o: Outcome): (d: string)
    requires !o.Ok?
    ensures o == ActivityNotFound ==> Contains(d, "Activity not found")
    ensures o == ParticipantNotFound ==> Contains(d, "Participant not found")
    ensures o.AlreadySignedUp? ==> Contains(d, "already signed up") && Contains(d, o.email)
  {
    match o
    case ActivityNotFound =>
      ContainsEnds("", "Activity not found");
      assert "" + "Activity not found" == "Activity not found";
      "Activity not found"
    case ParticipantNotFound =>
      ContainsEnds("", "Participant not found");
      assert "" + "Participant not found" == "Participant not found";
      "Participant not found"
    case AlreadySignedUp(email) =>
      ContainsEnds(email + " ", "already signed up");
      ContainsEnds(" already signed up", email);
      assert email + " " + "already signed up" == email + " already signed up";
      email + " already signed up"
  }

  /**
   * Signing `email` up for activity `name`: unknown activity, or email already
   * on that roster, is an error that changes nothing; otherwise the email is
   * appended to that roster and nothing else in the table changes.
   */
  function SignupStep(t: Table, name: string, email: string): (r: Step)
    ensures r.table.Keys == t.Keys
    ensures r.outcome == ActivityNotFound <==> name !in t
    ensures r.outcome == AlreadySignedUp(email) <==> name in t && email in t[name].participants
    ensures r.outcome.Ok? <==> name in t && email !in t[name].participants
    ensures r.outcome.Ok? ==> Contains(r.outcome.message, email) && Contains(r.outcome.message, name)
    ensures !r.outcome.Ok? ==> r.table == t
    ensures name in t ==> email in r.table[name].participants
    ensures r.outcome.Ok? ==>
      multiset(r.table[name].participants) == multiset(t[name].participants) + multiset{email}
    ensures name in t ==> r.table == t[name := t[name].(participants := r.table[name].participants)]
  {
    if name !in t then Step(ActivityNotFound, t)
    else if email in t[name].participants then Step(AlreadySignedUp(email), t)
    else
      var a := t[name];
      Step(Ok(SignedUpMessage(name, email)), t[name := a.(participants := a.participants + [email])])
  }

  /**
   * Removing `email` from activity `name`: unknown activity, or email not on
   * that roster, is an error that changes nothing; otherwise exactly one
   * occurrence of the email leaves that roster and nothing else changes.
   */
  function RemoveStep(t: Table, name: string, email: string): (r: Step)
    ensures r.table.Keys == t.Keys
    ensures r.outcome == ActivityNotFound <==> name !in t
    ensures r.outcome == ParticipantNotFound <==> name in t && email !in t[name].participants
    ensures r.outcome.Ok? <==> name in t && email in t[name].participants
    ensures r.outcome.Ok? ==>
      Contains(r.outcome.message, "Removed") && Contains(r.outcome.message, email)
    ensures !r.outcome.Ok? ==> r.table == t
    ensures name in t ==>
      multiset(r.table[name].participants) == multiset(t[name].participants) - multiset{email}
    ensures name in t ==> r.table == t[name := t[name].(participants := r.table[name].participants)]
  {
    if name !in t then Step(ActivityNotFound, t)
    else if email !in t[name].participants then Step(ParticipantNotFound, t)
    else
      var a := t[name];
      WithoutMultiset(a.participants, email);
      Step(Ok(RemovedMessage(name, email)), t[name := a.(participants := Without(a.participants, email))])
  }

  /** Signing up each email in turn for the one activity `name`; the last request is the outermost step. */
  function SignupEach(t: Table, name: string, emails: seq<string>): (r: Run)
    ensures |r.outcomes| == |emails|
    ensures r.table.Keys == t.Keys
    decreases |emails|
  {
    if emails == [] then Run([], t)
    else
      var prev := SignupEach(t, name, emails[..|emails| - 1]);
      var s := SignupStep(prev.table, name, emails[|emails| - 1]);
      Run(prev.outcomes + [s.outcome], s.table)
  }

  /** Signing the one email up for each activity in turn. */
  function JoinEach(t: Table, names: seq<string>, email: string): (r: Run)
    ensures |r.outcomes| == |names|
    ensures r.table.Keys == t.Keys
    decreases |names|
  {
    if names == [] then Run([], t)
    else
      var prev := JoinEach(t, names[..|names| - 1], email);
      var s := SignupStep(prev.table, names[|names| - 1], email);
      Run(prev.outcomes + [s.outcome], s.table)
  }

  /** Removing each email in turn from the one activity `name`. */
  function RemoveEach(t: Table, name: string, emails: seq<string>): (r: Run)
    ensures |r.outcomes| == |emails|
    ensures r.table.Keys == t.Keys
    decreases |emails|
  {
    if emails == [] then Run([], t)
    else
      var prev := RemoveEach(t, name, emails[..|emails| - 1]);
      var s := RemoveStep(prev.table, name, emails[|emails| - 1]);
      Run(prev.outcomes + [s.outcome], s.table)
  }
  /** A signup keeps every roster free of duplicates. */
  lemma SignupKeepsWellFormed(t: Table, name: string, email: string)
    requires WellFormed(t)
    ensures WellFormed(SignupStep(t, name, email).table)
  {
  }

  /** A removal keeps every roster free of duplicates. */
  lemma RemoveKeepsWellFormed(t: Table, name: string, email: string)
    requires WellFormed(t)
    ensures WellFormed(RemoveStep(t, name, email).table)
  {
    if name in t && email in t[name].participants {
      WithoutKeepsNoDuplicates(t[name].participants, email);
    }
  }

  /**
   * After a removal from a well-formed table the email is gone from that
   * roster, and every other participant of the activity is still there.
   */
  lemma RemoveLeavesOthers(t: Table, name: string, email: string)
    requires WellFormed(t) && name in t
    ensures email !in RemoveStep(t, name, email).table[name].participants
    ensures forall y :: y != email ==>
      (y in RemoveStep(t, name, email).table[name].participants <==> y in t[name].participants)
  {
    var p := t[name].participants;
    if email in p {
      WithoutRemovesAll(p, email);
      forall y | y != email
        ensures y in Without(p, email) <==> y in p
      {
        WithoutKeepsOthers(p, email, y);
      }
    }
  }

  /**
   * Signing up the same new email twice: the first request succeeds, the
   * second is refused as a duplicate and changes nothing, so the roster grew
   * by exactly one.
   */
  lemma SignupTwice(t: Table, name: string, email: string)
    requires name in t && email !in t[name].participants
    ensures SignupStep(t, name, email).outcome.Ok?
    ensures SignupStep(SignupStep(t, name, email).table, name, email)
      == Step(AlreadySignedUp(email), SignupStep(t, name, email).table)
    ensures |SignupStep(t, name, email).table[name].participants| == |t[name].participants| + 1
  {
  }

  /** Signing a new email up and then removing it succeeds twice and gives back the table as it was. */
  lemma SignupThenRemove(t: Table, name: string, email: string)
    requires name in t && email !in t[name].participants
    ensures SignupStep(t, name, email).outcome.Ok?
    ensures RemoveStep(SignupStep(t, name, email).table, name, email).outcome.Ok?
    ensures RemoveStep(SignupStep(t, name, email).table, name, email).table == t
  {
    var a := t[name];
    WithoutAppended(a.participants, email);
    assert a.(participants := a.participants) == a;
  }

  /** A series of signups for one activity changes no other activity and no other field. */
  lemma {:induction false} SignupEachFrame(t: Table, name: string, emails: seq<string>)
    ensures name !in t ==> SignupEach(t, name, emails).table == t
    ensures name in t ==>
      SignupEach(t, name, emails).table == t[name := t[name].(participants := SignupEach(t, name, emails).table[name].participants)]
    decreases |emails|
  {
    if emails != [] {
      SignupEachFrame(t, name, emails[..|emails| - 1]);
    }
  }

  /**
   * Signing up new emails one after another for one activity, where the old
   * roster followed by those emails holds no email twice: every request
   * succeeds and the roster ends as exactly that sequence.
   */
  lemma {:induction false} SignupEachFresh(t: Table, name: string, emails: seq<string>)
    requires name in t && NoDuplicates(t[name].participants + emails)
    ensures AllOk(SignupEach(t, name, emails).outcomes)
    ensures SignupEach(t, name, emails).table[name].participants == t[name].participants + emails
    decreases |emails|
  {
    if emails != [] {
      var n := |emails| - 1;
      var p, init, last := t[name].participants, emails[..n], emails[n];
      var q := p + emails;
      NoDuplicatesSnoc(q);
      assert q[..|q| - 1] == p + init;
      SignupEachFresh(t, name, init);
      var prev := SignupEach(t, name, init);
      var step := SignupStep(prev.table, name, last);
      assert SignupEach(t, name, emails) == Run(prev.outcomes + [step.outcome], step.table);
      AllOkSnoc(prev.outcomes, step.outcome);
      assert p + init + [last] == q;
    }
  }

  /**
   * Signing one email up for several activities changes only the activities
   * named, and of those only their participant lists.
   */
  lemma {:induction false} JoinEachFrame(t: Table, names: seq<string>, email: string)
    ensures forall other :: other in t && other !in names ==> JoinEach(t, names, email).table[other] == t[other]
    ensures forall other :: other in t ==>
      JoinEach(t, names, email).table[other] == t[other].(participants := JoinEach(t, names, email).table[other].participants)
    decreases |names|
  {
    if names != [] {
      var init := names[..|names| - 1];
      JoinEachFrame(t, init, email);
      var prev := JoinEach(t, init, email).table;
      var after := JoinEach(t, names, email).table;
      assert after == SignupStep(prev, names[|names| - 1], email).table;
      forall other | other in t && other !in names
        ensures after[other] == t[other]
      {
        assert other !in init && other != names[|names| - 1];
      }
      forall other | other in t
        ensures after[other] == t[other].(participants := after[other].participants)
      {
        assert prev[other] == t[other].(participants := prev[other].participants);
      }
    }
  }

  /**
   * After signing one email up for several existing activities, the email is
   * on every one of those rosters, whether each request succeeded or found it
   * already there.
   */
  lemma {:induction false} JoinEachMembers(t: Table, names: seq<string>, email: string)
    requires forall k :: 0 <= k < |names| ==> names[k] in t
    ensures forall k :: 0 <= k < |names| ==> email in JoinEach(t, names, email).table[names[k]].participants
    decreases |names|
  {
    if names != [] {
      var n := |names| - 1;
      var init := names[..n];
      JoinEachMembers(t, init, email);
      var prev := JoinEach(t, init, email);
      forall k | 0 <= k < |names| ensures email in JoinEach(t, names, email).table[names[k]].participants {
        if k < n && names[k] != names[n] {
          assert names[k] == init[k];
        }
      }
    }
  }

  /**
   * Signing one email up for several distinct activities whose rosters do not
   * hold it: every request succeeds; no rule keeps a student to a single
   * activity.
   */
  lemma {:induction false} JoinEachFresh(t: Table, names: seq<string>, email: string)
    requires NoDuplicates(names)
    requires forall k :: 0 <= k < |names| ==> names[k] in t && email !in t[names[k]].participants
    ensures AllOk(JoinEach(t, names, email).outcomes)
    decreases |names|
  {
    if names != [] {
      var n := |names| - 1;
      var init, last := names[..n], names[n];
      assert NoDuplicates(init);
      JoinEachFresh(t, init, email);
      JoinEachFrame(t, init, email);
      assert last !in init by {
        forall k | 0 <= k < n ensures init[k] != last { assert init[k] == names[k]; }
      }
    }
  }

  /** A series of removals from one activity changes no other activity and no other field. */
  lemma {:induction false} RemoveEachFrame(t: Table, name: string, emails: seq<string>)
    ensures name !in t ==> RemoveEach(t, name, emails).table == t
    ensures name in t ==>
      RemoveEach(t, name, emails).table == t[name := t[name].(participants := RemoveEach(t, name, emails).table[name].participants)]
    decreases |emails|
  {
    if emails != [] {
      RemoveEachFrame(t, name, emails[..|emails| - 1]);
    }
  }

  /** A series of removals keeps every roster free of duplicates. */
  lemma {:induction false} RemoveEachKeepsWellFormed(t: Table, name: string, emails: seq<string>)
    requires WellFormed(t)
    ensures WellFormed(RemoveEach(t, name, emails).table)
    decreases |emails|
  {
    if emails != [] {
      var init := emails[..|emails| - 1];
      RemoveEachKeepsWellFormed(t, name, init);
      RemoveKeepsWellFormed(RemoveEach(t, name, init).table, name, emails[|emails| - 1]);
    }
  }

  /**
   * Removing emails one after another from one activity of a well-formed
   * table: the roster keeps exactly the participants that are not among those
   * emails.
   */
  lemma {:induction false} RemoveEachLeaves(t: Table, name: string, emails: seq<string>)
    requires WellFormed(t) && name in t
    ensures forall y :: y in RemoveEach(t, name, emails).table[name].participants <==>
      y in t[name].participants && y !in emails
    decreases |emails|
  {
    if emails != [] {
      var n := |emails| - 1;
      var init, last := emails[..n], emails[n];
      var prev := RemoveEach(t, name, init).table;
      RemoveEachLeaves(t, name, init);
      RemoveEachKeepsWellFormed(t, name, init);
      RemoveLeavesOthers(prev, name, last);
      SplitLast(emails);
      MembersAfterOneMore(t[name].participants, prev[name].participants,
        RemoveStep(prev, name, last).table[name].participants, init, last);
    }
  }

  /** Bookkeeping for RemoveEachLeaves: the survivors of one more removal. */
  lemma MembersAfterOneMore(
    original: seq<string>, prev: seq<string>, after: seq<string>, removed: seq<string>, last: string)
    requires forall y :: y in prev <==> y in original && y !in removed
    requires last !in after
    requires forall y :: y != last ==> (y in after <==> y in prev)
    ensures forall y :: y in after <==> y in original && y !in removed + [last]
  {
  }

  /** Removing, one after another, emails that cover the whole roster leaves that roster empty. */
  lemma RemoveEachEmpties(t: Table, name: string, emails: seq<string>)
    requires WellFormed(t) && name in t
    requires forall y :: y in t[name].participants ==> y in emails
    ensures RemoveEach(t, name, emails).table[name].participants == []
  {
    RemoveEachLeaves(t, name, emails);
    EmptyIffNoMembers(RemoveEach(t, name, emails).table[name].participants);
  }
}
