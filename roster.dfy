/** A roster is the participant list of one activity: a sequence of email strings. */
module Roster {

  /** No email occurs twice on the roster. */
  predicate NoDuplicates(s: seq<string>)
  {
    forall i, j :: 0 <= i < j < |s| ==> s[i] != s[j]
  }

  /**
   * The roster with the first occurrence of `x` deleted, as Python's
   * `list.remove` does; the roster unchanged when `x` is not on it.
   */
  function Without(s: seq<string>, x: string): (r: seq<string>)
    ensures |r| == if x in s then |s| - 1 else |s|
  {
    if s == [] then []
    else if s[0] == x then s[1..]
    else [s[0]] + Without(s[1..], x)
  }

  /** Deleting `x` takes exactly one copy of it off the roster, if there is one, and nothing else. */
  lemma {:induction false} WithoutMultiset(s: seq<string>, x: string)
    ensures multiset(Without(s, x)) == multiset(s) - multiset{x}
  {
    if s != [] {
      assert s == [s[0]] + s[1..];
      if s[0] != x {
        WithoutMultiset(s[1..], x);
      }
    }
  }

  /** Deleting `x` keeps every other email and brings in none. */
  lemma {:induction false} WithoutKeepsOthers(s: seq<string>, x: string, y: string)
    requires y != x
    ensures y in Without(s, x) <==> y in s
  {
    if s != [] && s[0] != x {
      WithoutKeepsOthers(s[1..], x, y);
    }
  }

  /** On a roster without duplicates, deleting `x` leaves no trace of it. */
  lemma {:induction false} WithoutRemovesAll(s: seq<string>, x: string)
    requires NoDuplicates(s)
    ensures x !in Without(s, x)
  {
    if s != [] && s[0] != x {
      assert NoDuplicates(s[1..]);
      WithoutRemovesAll(s[1..], x);
    } else if s != [] {
      assert forall k :: 0 <= k < |s[1..]| ==> s[1..][k] == s[k + 1];
    }
  }

  /** Deleting an email keeps the roster free of duplicates. */
  lemma {:induction false} WithoutKeepsNoDuplicates(s: seq<string>, x: string)
    requires NoDuplicates(s)
    ensures NoDuplicates(Without(s, x))
  {
    if s != [] && s[0] != x {
      assert NoDuplicates(s[1..]);
      WithoutKeepsNoDuplicates(s[1..], x);
      var r := Without(s[1..], x);
      forall y | y in r ensures y != s[0] {
        if y != x { WithoutKeepsOthers(s[1..], x, y); }
      }
      PrependKeepsNoDuplicates(s[0], r);
    }
  }

  /** Putting an absent email in front keeps the roster free of duplicates. */
  lemma PrependKeepsNoDuplicates(y: string, r: seq<string>)
    requires NoDuplicates(r) && y !in r
    ensures NoDuplicates([y] + r)
  {
  }

  /** Deleting `x` from a roster that begins with a run free of `x` leaves that run in place. */
  lemma {:induction false} WithoutAfter(p: seq<string>, q: seq<string>, x: string)
    requires x !in p
    ensures Without(p + q, x) == p + Without(q, x)
  {
    if p != [] {
      var t := p[1..];
      assert p + q == [p[0]] + (t + q);
      WithoutAfter(t, q, x);
      assert [p[0]] + (t + Without(q, x)) == p + Without(q, x);
    } else {
      assert p + q == q;
    }
  }

  /** A non-empty sequence is its front followed by its last element. */
  lemma SplitLast<T>(s: seq<T>)
    requires s != []
    ensures s == s[..|s| - 1] + [s[|s| - 1]]
  {
  }

  /** Dropping the last email of a duplicate-free roster leaves it duplicate-free and without that email. */
  lemma NoDuplicatesSnoc(s: seq<string>)
    requires NoDuplicates(s) && s != []
    ensures NoDuplicates(s[..|s| - 1]) && s[|s| - 1] !in s[..|s| - 1]
  {
  }

  /** Deleting the email just appended gives back the roster as it was. */
  lemma WithoutAppended(s: seq<string>, x: string)
    requires x !in s
    ensures Without(s + [x], x) == s
  {
    WithoutAfter(s, [x], x);
    assert Without([x], x) == [];
  }

  /** When `i` is the first place `x` occurs, deleting `x` cuts out exactly position `i`. */
  lemma WithoutAt(s: seq<string>, x: string, i: nat)
    requires i < |s| && s[i] == x && x !in s[..i]
    ensures Without(s, x) == s[..i] + s[i + 1..]
  {
    assert s == s[..i] + s[i..];
    WithoutAfter(s[..i], s[i..], x);
    assert s[i..] == [x] + s[i + 1..];
  }

  /** A roster is empty exactly when no email is on it. */
  lemma EmptyIffNoMembers(s: seq<string>)
    ensures s == [] <==> forall y :: y !in s
  {
    if s != [] {
      assert s[0] in s;
    }
  }

  /** Linear search for the first occurrence of `x`, as Python's `x in s` and `s.remove(x)` perform it. */
  method Find(s: seq<string>, x: string) returns (found: bool, i: nat)
    ensures found <==> x in s
    ensures found ==> i < |s| && s[i] == x && x !in s[..i]
  {
    i := 0;
    while i < |s|
      invariant i <= |s|
      invariant x !in s[..i]
    {
      if s[i] == x {
        return true, i;
      }
      assert s[..i + 1] == s[..i] + [s[i]];
      i := i + 1;
    }
    assert s[..i] == s;
    return false, i;
  }
}
