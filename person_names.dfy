/**
 * Person-name deduplication: a detected name that is contained in another detected
 * name ("Bob" in "Bob Smith") is taken to be a partial capture of the same person.
 */
module PersonNames {
  import opened TextOps

  /** `name` stands at some index of `people` and is contained in the name at another index. */
  predicate IsDuplicate(people: seq<string>, name: string) {
    exists i, j | 0 <= i < |people| && 0 <= j < |people| :: i != j && people[i] == name && Contains(people[j], name)
  }

  predicate NoRepeats(s: seq<string>) {
    forall a, b :: 0 <= a < b < |s| ==> s[a] != s[b]
  }

  /** The names find_duplicate_person reports, as a set. */
  function DuplicateNames(people: seq<string>): (d: set<string>)
    ensures forall x :: x in d <==> x in people && IsDuplicate(people, x)
  {
    set x | x in people && IsDuplicate(people, x)
  }

  /** Every pair (a, b) with a < i whose names contain one another has been reported. */
  predicate ReportedBefore(people: seq<string>, duplicates: seq<string>, i: int) {
    forall a, b :: 0 <= a < i && a < b < |people| ==>
      (Contains(people[b], people[a]) ==> people[a] in duplicates) && (Contains(people[a], people[b]) ==> people[b] in duplicates)
  }

  /** Every pair (i, b) with i < b < j whose names contain one another has been reported. */
  predicate ReportedInRow(people: seq<string>, duplicates: seq<string>, i: int, j: int)
    requires 0 <= i < |people|
  {
    forall b :: i < b < j && b < |people| ==>
      (Contains(people[b], people[i]) ==> people[i] in duplicates) && (Contains(people[i], people[b]) ==> people[b] in duplicates)
  }

  predicate Sound(people: seq<string>, duplicates: seq<string>) {
    forall d :: d in duplicates ==> IsDuplicate(people, d)
  }

  /**
   * find_duplicate_person: for every pair i < j, reports people[i] when it is contained in
   * people[j] and people[j] when it is contained in people[i], each name at most once.
   */
  method FindDuplicatePerson(people: seq<string>) returns (duplicates: seq<string>)
    ensures NoRepeats(duplicates)
    ensures forall d :: d in duplicates <==> IsDuplicate(people, d)
  {
    duplicates := [];
    for i := 0 to |people|
      invariant NoRepeats(duplicates) && Sound(people, duplicates)
      invariant ReportedBefore(people, duplicates, i)
    {
      duplicates := ReportRow(people, i, duplicates);
    }
    forall d | IsDuplicate(people, d) ensures d in duplicates {
      var i, j :| 0 <= i < |people| && 0 <= j < |people| && i != j && people[i] == d && Contains(people[j], d);
      if j < i {
        assert Contains(people[j], people[i]);
      }
    }
  }

  /** The inner loop of find_duplicate_person for people[i]: compares it with every later name. */
  method ReportRow(people: seq<string>, i: nat, duplicates: seq<string>) returns (result: seq<string>)
    requires i < |people|
    requires NoRepeats(duplicates) && Sound(people, duplicates) && ReportedBefore(people, duplicates, i)
    ensures NoRepeats(result) && Sound(people, result) && ReportedBefore(people, result, i + 1)
  {
    result := duplicates;
    var person := people[i];
    for j := i + 1 to |people|
      invariant NoRepeats(result) && Sound(people, result)
      invariant ReportedBefore(people, result, i)
      invariant ReportedInRow(people, result, i, j)
    {
      ghost var before := result;
      if Contains(people[j], person) {
        if person !in result {
          assert IsDuplicate(people, person) by {
            assert people[i] == person && Contains(people[j], person);
          }
          AppendFresh(people, result, person);
          result := result + [person];
        }
      }
      if Contains(person, people[j]) {
        if people[j] !in result {
          assert IsDuplicate(people, people[j]) by {
            assert Contains(people[i], people[j]);
          }
          AppendFresh(people, result, people[j]);
          result := result + [people[j]];
        }
      }
      Grown(people, before, result, i, j);
    }
    RowDone(people, result, i);
  }

  /** Reporting more names keeps everything reported so far, and reporting the names of pair
      (i, j) extends the row to j + 1. */
  lemma Grown(people: seq<string>, before: seq<string>, after: seq<string>, i: int, j: int)
    requires 0 <= i < j < |people|
    requires forall x :: x in before ==> x in after
    requires ReportedBefore(people, before, i) && ReportedInRow(people, before, i, j)
    requires Contains(people[j], people[i]) ==> people[i] in after
    requires Contains(people[i], people[j]) ==> people[j] in after
    ensures ReportedBefore(people, after, i) && ReportedInRow(people, after, i, j + 1)
  {
  }

  lemma AppendFresh(people: seq<string>, duplicates: seq<string>, x: string)
    requires NoRepeats(duplicates) && Sound(people, duplicates) && x !in duplicates && IsDuplicate(people, x)
    ensures NoRepeats(duplicates + [x]) && Sound(people, duplicates + [x])
  {
  }

  /** A finished row extends the reported pairs to the next index. */
  lemma RowDone(people: seq<string>, duplicates: seq<string>, i: int)
    requires 0 <= i < |people|
    requires ReportedBefore(people, duplicates, i) && ReportedInRow(people, duplicates, i, |people|)
    ensures ReportedBefore(people, duplicates, i + 1)
  {
  }

  /** A name that occurs at two indices is contained in itself, so it is a duplicate. */
  lemma RepeatedNameIsDuplicate(people: seq<string>, i: int, j: int)
    requires 0 <= i < |people| && 0 <= j < |people| && i != j && people[i] == people[j]
    ensures IsDuplicate(people, people[i])
  {
    ContainsItself(people[i]);
  }

  // ---------------------------------------------------------------------------
  // Removing the reported names (`for d in duplicates: people.remove(d)`)
  // ---------------------------------------------------------------------------

  /** list.remove(x): drops the first occurrence of `x`; Python raises when `x` is absent. */
  function RemoveFirst(s: seq<string>, x: string): (r: seq<string>)
    requires x in s
    ensures |r| == |s| - 1
    ensures multiset(r) == multiset(s) - multiset{x}
  {
    if s[0] == x then
      assert s == [s[0]] + s[1..];
      s[1..]
    else
      assert s == [s[0]] + s[1..];
      [s[0]] + RemoveFirst(s[1..], x)
  }

  /** Drops the first occurrence of each name of `names`, keeping the order of the rest. */
  function RemoveFirstOccurrences(s: seq<string>, names: set<string>): seq<string>
    decreases |s|
  {
    if s == [] then []
    else if s[0] in names then RemoveFirstOccurrences(s[1..], names - {s[0]})
    else [s[0]] + RemoveFirstOccurrences(s[1..], names)
  }

  /** Removing one of the names first and the others afterwards gives the same list,
      so the order in which the reported names are removed does not matter. */
  lemma {:induction false} RemoveOneThenRest(s: seq<string>, x: string, names: set<string>)
    requires x in names && x in s
    ensures RemoveFirstOccurrences(RemoveFirst(s, x), names - {x}) == RemoveFirstOccurrences(s, names)
    decreases |s|
  {
    if s[0] != x {
      var r := RemoveFirst(s[1..], x);
      assert RemoveFirst(s, x) == [s[0]] + r;
      assert ([s[0]] + r)[1..] == r;
      if s[0] in names {
        RemoveOneThenRest(s[1..], x, names - {s[0]});
        assert names - {x} - {s[0]} == names - {s[0]} - {x};
      } else {
        RemoveOneThenRest(s[1..], x, names);
      }
    }
  }

  /** The list a caller keeps after removing every reported name once. */
  function Deduplicated(people: seq<string>): seq<string> {
    RemoveFirstOccurrences(people, DuplicateNames(people))
  }

  /** `s` without every element of `names`, in order. */
  function Without(s: seq<string>, names: set<string>): (r: seq<string>)
    ensures forall x :: x in r <==> x in s && x !in names
    ensures NoRepeats(s) ==> NoRepeats(r)
    decreases |s|
  {
    if s == [] then []
    else
      var rest := Without(s[1..], names);
      assert forall x :: x in s <==> x == s[0] || x in s[1..];
      if s[0] in names then rest else [s[0]] + rest
  }

  lemma {:induction false} WithoutIgnoresAbsent(s: seq<string>, names: set<string>, x: string)
    requires x !in s
    ensures Without(s, names - {x}) == Without(s, names)
    decreases |s|
  {
    if s != [] {
      WithoutIgnoresAbsent(s[1..], names, x);
    }
  }

  /** On a list without repeated names, removing first occurrences is plain filtering. */
  lemma {:induction false} RemoveFirstOccurrencesOfDistinct(s: seq<string>, names: set<string>)
    requires NoRepeats(s)
    ensures RemoveFirstOccurrences(s, names) == Without(s, names)
    decreases |s|
  {
    if s != [] {
      assert NoRepeats(s[1..]);
      if s[0] in names {
        RemoveFirstOccurrencesOfDistinct(s[1..], names - {s[0]});
        assert s[0] !in s[1..];
        WithoutIgnoresAbsent(s[1..], names, s[0]);
      } else {
        RemoveFirstOccurrencesOfDistinct(s[1..], names);
      }
    }
  }

  lemma {:induction false} RemoveNothing(s: seq<string>)
    ensures RemoveFirstOccurrences(s, {}) == s
    decreases |s|
  {
    if s != [] {
      RemoveNothing(s[1..]);
      assert {} - {s[0]} == {};
    }
  }

  /** No name of the list is contained in the name at another index. */
  predicate ContainmentFree(s: seq<string>) {
    forall a, b :: 0 <= a < |s| && 0 <= b < |s| && a != b ==> !Contains(s[b], s[a])
  }

  /**
   * For a list of distinct names (the entity aggregator's lists come from sets), the
   * deduplicated list keeps the order of the input, keeps exactly the names that are not
   * duplicates, and no kept name is contained in another kept name.
   */
  lemma DeduplicatedIsContainmentFree(people: seq<string>)
    requires NoRepeats(people)
    ensures Deduplicated(people) == Without(people, DuplicateNames(people))
    ensures forall x :: x in Deduplicated(people) <==> x in people && !IsDuplicate(people, x)
    ensures NoRepeats(Deduplicated(people)) && ContainmentFree(Deduplicated(people))
  {
    var d := DuplicateNames(people);
    RemoveFirstOccurrencesOfDistinct(people, d);
    var r := Without(people, d);
    forall a, b | 0 <= a < |r| && 0 <= b < |r| && a != b ensures !Contains(r[b], r[a]) {
      assert r[a] in people && r[b] in people && r[a] != r[b];
      assert !IsDuplicate(people, r[a]);
      var i :| 0 <= i < |people| && people[i] == r[a];
      var j :| 0 <= j < |people| && people[j] == r[b];
      assert i != j;
    }
  }

  /** Deduplicating an already deduplicated list of distinct names changes nothing. */
  lemma DeduplicatedIdempotent(people: seq<string>)
    requires NoRepeats(people)
    ensures Deduplicated(Deduplicated(people)) == Deduplicated(people)
  {
    DeduplicatedIsContainmentFree(people);
    var r := Deduplicated(people);
    assert DuplicateNames(r) == {};
    RemoveNothing(r);
  }

  /** "Bob" is contained in "Bob Smith" and is dropped; "Alice" survives. */
  lemma BobSmithExample()
    ensures Deduplicated(["Bob", "Bob Smith", "Alice"]) == ["Bob Smith", "Alice"]
  {
    var people := ["Bob", "Bob Smith", "Alice"];
    assert people[1][0..0 + |people[0]|] == people[0];
    assert OccursAt(people[1], people[0], 0);
    assert IsDuplicate(people, "Bob");
    assert !IsDuplicate(people, "Bob Smith");
    forall k | 0 <= k <= |people[1]| - |people[2]| ensures !OccursAt(people[1], people[2], k) {
      assert people[1][k..k + |people[2]|][0] == people[1][k];
    }
    assert !IsDuplicate(people, "Alice");
    assert DuplicateNames(people) == {"Bob"};
    assert people[1..] == ["Bob Smith", "Alice"];
    RemoveNothing(["Bob Smith", "Alice"]);
  }
}
