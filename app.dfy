/**
 * The service's shared registry: one object whose table the request handlers
 * change in place. Each handler is proved to leave exactly the table and
 * outcome that the matching function of module Registry describes.
 */
module App {
  import opened Roster
  import opened Registry

  class ActivityRegistry {
    /** Activity name to activity record. */
    var activities: Table

    /** The object invariant: no roster holds an email twice. */
    ghost predicate Valid()
      reads this
    {
      WellFormed(activities)
    }

    /** A registry holding the seeded activities. */
    constructor ()
      ensures activities == Seed() && Valid()
    {
      activities := Seed();
    }

    /** Empties the table, then fills it with the seeded activities. */
    method Reset()
      modifies this
      ensures activities == Seed() && Valid()
    {
      activities := map[];
      activities := activities + Seed();
    }

    /** The whole table, as it is; this request cannot fail. */
    method List() returns (t: Table)
      ensures t == activities
    {
      t := activities;
    }

    /** Handles a signup request. */
    method Signup(name: string, email: string) returns (o: Outcome)
      modifies this
      ensures Step(o, activities) == SignupStep(old(activities), name, email)
      ensures old(Valid()) ==> Valid()
    {
      if name !in activities {
        return ActivityNotFound;
      }
      var a := activities[name];
      var found, _ := Find(a.participants, email);
      if found {
        return AlreadySignedUp(email);
      }
      if Valid() {
        SignupKeepsWellFormed(activities, name, email);
      }
      activities := activities[name := a.(participants := a.participants + [email])];
      o := Ok(SignedUpMessage(name, email));
    }

    /** Handles a removal request; the email is cut out at the first place it is found. */
    method Remove(name: string, email: string) returns (o: Outcome)
      modifies this
      ensures Step(o, activities) == RemoveStep(old(activities), name, email)
      ensures old(Valid()) ==> Valid()
    {
      if name !in activities {
        return ActivityNotFound;
      }
      var a := activities[name];
      var found, i := Find(a.participants, email);
      if !found {
        return ParticipantNotFound;
      }
      WithoutAt(a.participants, email, i);
      if Valid() {
        RemoveKeepsWellFormed(activities, name, email);
      }
      activities := activities[name := a.(participants := a.participants[..i] + a.participants[i + 1..])];
      o := Ok(RemovedMessage(name, email));
    }

    /** Signs each email up for activity `name`, one request after another. */
    method SignupEach(name: string, emails: seq<string>) returns (outcomes: seq<Outcome>)
      modifies this
      ensures Run(outcomes, activities) == Registry.SignupEach(old(activities), name, emails)
      ensures old(Valid()) ==> Valid()
    {
      outcomes := [];
      var i := 0;
      while i < |emails|
        invariant i <= |emails|
        invariant old(Valid()) ==> Valid()
        invariant Run(outcomes, activities) == Registry.SignupEach(old(activities), name, emails[..i])
      {
        assert emails[..i + 1][..i] == emails[..i];
        var o := Signup(name, emails[i]);
        outcomes := outcomes + [o];
        i := i + 1;
      }
      assert emails[..i] == emails;
    }

    /** Signs the one email up for each activity in `names`, one request after another. */
    method JoinEach(names: seq<string>, email: string) returns (outcomes: seq<Outcome>)
      modifies this
      ensures Run(outcomes, activities) == Registry.JoinEach(old(activities), names, email)
      ensures old(Valid()) ==> Valid()
    {
      outcomes := [];
      var i := 0;
      while i < |names|
        invariant i <= |names|
        invariant old(Valid()) ==> Valid()
        invariant Run(outcomes, activities) == Registry.JoinEach(old(activities), names[..i], email)
      {
        assert names[..i + 1][..i] == names[..i];
        var o := Signup(names[i], email);
        outcomes := outcomes + [o];
        i := i + 1;
      }
      assert names[..i] == names;
    }
  }
}
