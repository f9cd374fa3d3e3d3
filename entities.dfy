/**
 * The entity aggregator (parse_detected_entities_response), the key-phrase parser and the
 * clean-up step (clean_up_entity_results) that run on the results of batch entity detection
 * over the transcript chunks.
 */
module Entities {
  import opened Wrappers
  import opened TextOps
  import opened PersonNames

  const ENTITY_CONFIDENCE_THRESHOLD: real := 0.5
  const KEY_PHRASES_CONFIDENCE_THRESHOLD: real := 0.7

  const PERSON := "PERSON"
  const COMMERCIAL_ITEM := "COMMERCIAL_ITEM"
  const TITLE := "TITLE"
  const PRODUCTS_AND_TITLES := "Products_and_Titles"
  /** The key the merge test looks for; no detected type has this name. */
  const MISSPELT_PRODUCTS_KEY := "PRODUCTS / TTTLES"

  /** One hit of entity detection: its type, its text and its score. */
  datatype DetectedEntity = DetectedEntity(entityType: string, text: string, score: real)

  /** One hit of key-phrase detection. */
  datatype KeyPhrase = KeyPhrase(text: string, score: real)

  // ---------------------------------------------------------------------------
  // Aggregating detected entities into per-type sets
  // ---------------------------------------------------------------------------

  /** An entity is kept when its score reaches the threshold and its type is not QUANTITY. */
  predicate Retained(e: DetectedEntity) {
    e.score >= ENTITY_CONFIDENCE_THRESHOLD && e.entityType != "QUANTITY"
  }

  predicate IsNameType(entityType: string) {
    entityType == "LOCATION" || entityType == "PERSON" || entityType == "ORGANIZATION"
  }

  /** The text recorded for an entity: names of places, people and organisations get capwords
      casing unless they are all upper case (acronyms); other texts are kept as they are. */
  function NormalizedText(e: DetectedEntity): string {
    if IsNameType(e.entityType) && !IsUpperText(e.text) then Capwords(e.text) else e.text
  }

  /** Normalizing is idempotent: a recorded text is recorded unchanged when detected again. */
  lemma NormalizedTextIdempotent(e: DetectedEntity)
    ensures NormalizedText(e.(text := NormalizedText(e))) == NormalizedText(e)
  {
    if IsNameType(e.entityType) && !IsUpperText(e.text) {
      CapwordsIdempotent(e.text);
    }
  }

  /** Recording one detected entity. */
  function AddEntity(sets: map<string, set<string>>, e: DetectedEntity): map<string, set<string>> {
    if !Retained(e) then sets
    else if e.entityType in sets then sets[e.entityType := sets[e.entityType] + {NormalizedText(e)}]
    else sets[e.entityType := {NormalizedText(e)}]
  }

  /** Recording detected entities in order. */
  function AddAll(sets: map<string, set<string>>, es: seq<DetectedEntity>): map<string, set<string>>
    decreases |es|
  {
    if es == [] then sets else AddEntity(AddAll(sets, es[..|es| - 1]), es[|es| - 1])
  }

  /** The entities of all the documents of a batch result, in order. */
  function Flatten(results: seq<seq<DetectedEntity>>): seq<DetectedEntity>
    decreases |results|
  {
    if results == [] then [] else Flatten(results[..|results| - 1]) + results[|results| - 1]
  }

  /** Entity k of es is recorded under type ty. */
  predicate RecordedAs(es: seq<DetectedEntity>, k: int, ty: string) {
    0 <= k < |es| && Retained(es[k]) && es[k].entityType == ty
  }

  /** The normalized texts of the retained entities of type ty. */
  function TextsOfType(es: seq<DetectedEntity>, ty: string): set<string> {
    set k | 0 <= k < |es| && RecordedAs(es, k, ty) :: NormalizedText(es[k])
  }

  /**
   * What the aggregation produces, independently of the order of the hits: a type is a key
   * exactly when it was one before or some retained entity has it, and its set is the old set
   * together with the normalized texts of the retained entities of that type.
   */
  lemma {:induction false} AddAllCollects(sets: map<string, set<string>>, es: seq<DetectedEntity>)
    ensures forall ty :: ty in AddAll(sets, es) <==> ty in sets || exists k :: RecordedAs(es, k, ty)
    ensures forall ty :: ty in AddAll(sets, es) ==>
      AddAll(sets, es)[ty] == (if ty in sets then sets[ty] else {}) + TextsOfType(es, ty)
    decreases |es|
  {
    if es != [] {
      var prefix, e := es[..|es| - 1], es[|es| - 1];
      assert es == prefix + [e];
      AddAllCollects(sets, prefix);
      forall ty ensures ty in AddAll(sets, es) <==> ty in sets || exists k :: RecordedAs(es, k, ty) {
        RecordedInSnoc(prefix, e, ty);
      }
      forall ty | ty in AddAll(sets, es)
        ensures AddAll(sets, es)[ty] == (if ty in sets then sets[ty] else {}) + TextsOfType(es, ty)
      {
        TextsOfTypeSnoc(prefix, e, ty);
      }
    }
  }

  lemma RecordedInSnoc(prefix: seq<DetectedEntity>, e: DetectedEntity, ty: string)
    ensures (exists k :: RecordedAs(prefix + [e], k, ty)) <==>
      (exists k :: RecordedAs(prefix, k, ty)) || (Retained(e) && e.entityType == ty)
  {
    var es := prefix + [e];
    if exists k :: RecordedAs(es, k, ty) {
      var k :| RecordedAs(es, k, ty);
      if k < |prefix| {
        assert RecordedAs(prefix, k, ty);
      }
    }
    if exists k :: RecordedAs(prefix, k, ty) {
      var k :| RecordedAs(prefix, k, ty);
      assert RecordedAs(es, k, ty);
    }
    if Retained(e) && e.entityType == ty {
      assert RecordedAs(es, |prefix|, ty);
    }
  }

  lemma TextsOfTypeSnoc(prefix: seq<DetectedEntity>, e: DetectedEntity, ty: string)
    ensures TextsOfType(prefix + [e], ty) ==
      TextsOfType(prefix, ty) + (if Retained(e) && e.entityType == ty then {NormalizedText(e)} else {})
  {
    var es := prefix + [e];
    var extra := if Retained(e) && e.entityType == ty then {NormalizedText(e)} else {};
    forall x | x in TextsOfType(es, ty) ensures x in TextsOfType(prefix, ty) + extra {
      var k :| 0 <= k < |es| && RecordedAs(es, k, ty) && x == NormalizedText(es[k]);
      if k < |prefix| {
        assert RecordedAs(prefix, k, ty);
      }
    }
    forall x | x in TextsOfType(prefix, ty) ensures x in TextsOfType(es, ty) {
      var k :| 0 <= k < |prefix| && RecordedAs(prefix, k, ty) && x == NormalizedText(prefix[k]);
      assert RecordedAs(es, k, ty);
    }
    if extra != {} {
      assert RecordedAs(es, |prefix|, ty);
    }
  }

  /** No QUANTITY entity and no entity scoring below the threshold is ever recorded. */
  lemma NothingBelowThreshold(sets: map<string, set<string>>, es: seq<DetectedEntity>)
    ensures "QUANTITY" in AddAll(sets, es) ==> "QUANTITY" in sets && AddAll(sets, es)["QUANTITY"] == sets["QUANTITY"]
    ensures forall ty, x :: ty in AddAll(sets, es) && x in AddAll(sets, es)[ty] && (ty !in sets || x !in sets[ty]) ==>
      exists k :: RecordedAs(es, k, ty) && es[k].score >= ENTITY_CONFIDENCE_THRESHOLD && NormalizedText(es[k]) == x
  {
    AddAllCollects(sets, es);
    if "QUANTITY" in AddAll(sets, es) {
      assert TextsOfType(es, "QUANTITY") == {};
    }
  }

  /** The dictionary passed to parse_detected_entities_response, extended in place. */
  class EntitySets {
    var sets: map<string, set<string>>

    constructor ()
      ensures sets == map[]
    {
      sets := map[];
    }

    /**
     * parse_detected_entities_response: with a result list, records every retained entity of
     * every document into the sets and returns them; without one, returns an empty map and
     * leaves the sets alone.
     */
    method ParseDetectedEntitiesResponse(resultList: Option<seq<seq<DetectedEntity>>>) returns (r: map<string, set<string>>)
      modifies this
      ensures resultList.Some? ==> sets == AddAll(old(sets), Flatten(resultList.value)) && r == sets
      ensures resultList.None? ==> sets == old(sets) && r == map[]
    {
      if resultList.None? {
        return map[];
      }
      var results := resultList.value;
      for i := 0 to |results|
        invariant sets == AddAll(old(sets), Flatten(results[..i]))
      {
        var detectedEntities := results[i];
        assert results[..i + 1][..i] == results[..i];
        assert Flatten(results[..i]) + detectedEntities[..0] == Flatten(results[..i]);
        for j := 0 to |detectedEntities|
          invariant sets == AddAll(old(sets), Flatten(results[..i]) + detectedEntities[..j])
        {
          var detectedEntity := detectedEntities[j];
          AddAllSnoc(old(sets), Flatten(results[..i]) + detectedEntities[..j], detectedEntity);
          assert Flatten(results[..i]) + detectedEntities[..j + 1] == Flatten(results[..i]) + detectedEntities[..j] + [detectedEntity];
          if detectedEntity.score >= ENTITY_CONFIDENCE_THRESHOLD {
            var entityType := detectedEntity.entityType;
            if entityType != "QUANTITY" {
              var text := detectedEntity.text;
              if entityType == "LOCATION" || entityType == "PERSON" || entityType == "ORGANIZATION" {
                if !IsUpperText(text) {
                  text := Capwords(text);
                }
              }
              if entityType in sets {
                sets := sets[entityType := sets[entityType] + {text}];
              } else {
                sets := sets[entityType := {text}];
              }
            }
          }
        }
        assert detectedEntities[..|detectedEntities|] == detectedEntities;
      }
      assert results[..|results|] == results;
      r := sets;
    }
  }

  lemma AddAllSnoc(sets: map<string, set<string>>, es: seq<DetectedEntity>, e: DetectedEntity)
    ensures AddAll(sets, es + [e]) == AddEntity(AddAll(sets, es), e)
  {
    assert (es + [e])[..|es|] == es;
  }

  // ---------------------------------------------------------------------------
  // Key phrases
  // ---------------------------------------------------------------------------

  predicate KeptPhrase(results: seq<seq<KeyPhrase>>, threshold: real, x: string) {
    exists i, j | 0 <= i < |results| && 0 <= j < |results[i]| :: results[i][j].score >= threshold && results[i][j].text == x
  }

  /**
   * parse_detected_key_phrases_response as written: the texts of the phrases scoring at least
   * the ENTITY threshold 0.5 (the order of list(set) is not modelled), or nothing without a result list.
   */
  method ParseDetectedKeyPhrasesResponse(resultList: Option<seq<seq<KeyPhrase>>>) returns (keyPhrases: set<string>)
    ensures resultList.None? ==> keyPhrases == {}
    ensures resultList.Some? ==> forall x :: x in keyPhrases <==> KeptPhrase(resultList.value, ENTITY_CONFIDENCE_THRESHOLD, x)
  {
    keyPhrases := {};
    if resultList.None? {
      return;
    }
    var results := resultList.value;
    for i := 0 to |results|
      invariant forall x :: x in keyPhrases <==> KeptPhrase(results[..i], ENTITY_CONFIDENCE_THRESHOLD, x)
    {
      var phrases := results[i];
      for j := 0 to |phrases|
        invariant forall x :: x in keyPhrases <==>
          KeptPhrase(results[..i], ENTITY_CONFIDENCE_THRESHOLD, x)
          || exists k | 0 <= k < j :: phrases[k].score >= ENTITY_CONFIDENCE_THRESHOLD && phrases[k].text == x
      {
        if phrases[j].score >= ENTITY_CONFIDENCE_THRESHOLD {
          keyPhrases := keyPhrases + {phrases[j].text};
        }
      }
      KeptPhraseStep(results, i, ENTITY_CONFIDENCE_THRESHOLD);
    }
    assert results[..|results|] == results;
  }

  lemma KeptPhraseStep(results: seq<seq<KeyPhrase>>, i: nat, threshold: real)
    requires i < |results|
    ensures forall x :: KeptPhrase(results[..i + 1], threshold, x) <==>
      KeptPhrase(results[..i], threshold, x)
      || exists k | 0 <= k < |results[i]| :: results[i][k].score >= threshold && results[i][k].text == x
  {
    var p := results[..i + 1];
    forall x ensures KeptPhrase(p, threshold, x) <==>
      KeptPhrase(results[..i], threshold, x)
      || exists k | 0 <= k < |results[i]| :: results[i][k].score >= threshold && results[i][k].text == x
    {
      if KeptPhrase(p, threshold, x) {
        var a, b :| 0 <= a < |p| && 0 <= b < |p[a]| && p[a][b].score >= threshold && p[a][b].text == x;
        if a < i {
          assert results[..i][a] == p[a];
        } else {
          assert p[a][b] == results[i][b];
        }
      }
      if KeptPhrase(results[..i], threshold, x) {
        var a, b :| 0 <= a < i && 0 <= b < |results[..i][a]| && results[..i][a][b].score >= threshold && results[..i][a][b].text == x;
        assert p[a] == results[..i][a];
      }
      if exists k | 0 <= k < |results[i]| :: results[i][k].score >= threshold && results[i][k].text == x {
        var k :| 0 <= k < |results[i]| && results[i][k].score >= threshold && results[i][k].text == x;
        assert p[i][k] == results[i][k];
      }
    }
  }

  /** The phrases the parser keeps with a given threshold. */
  function KeyPhrasesAbove(results: seq<seq<KeyPhrase>>, threshold: real): (kept: set<string>)
    ensures forall x :: x in kept <==> KeptPhrase(results, threshold, x)
  {
    set i, j | 0 <= i < |results| && 0 <= j < |results[i]| && results[i][j].score >= threshold :: results[i][j].text
  }

  /** As written, a phrase scoring 0.6 is kept although the key-phrase threshold is 0.7. */
  lemma KeyPhraseBelowItsThresholdIsKept()
    ensures var results := [[KeyPhrase("amazon transcribe", 0.6)]];
      && "amazon transcribe" in KeyPhrasesAbove(results, ENTITY_CONFIDENCE_THRESHOLD)
      && 0.6 < KEY_PHRASES_CONFIDENCE_THRESHOLD
  {
    var results := [[KeyPhrase("amazon transcribe", 0.6)]];
    assert KeptPhrase(results, ENTITY_CONFIDENCE_THRESHOLD, "amazon transcribe") by {
      assert results[0][0].score >= ENTITY_CONFIDENCE_THRESHOLD;
    }
  }

  /** With the key-phrase threshold, every kept phrase scored at least 0.7 somewhere, and a
      phrase kept at 0.7 is also kept at any lower threshold. */
  lemma KeyPhrasesAboveIntendedThreshold(results: seq<seq<KeyPhrase>>)
    ensures forall x :: x in KeyPhrasesAbove(results, KEY_PHRASES_CONFIDENCE_THRESHOLD) ==>
      exists i, j | 0 <= i < |results| && 0 <= j < |results[i]| :: results[i][j].text == x && results[i][j].score >= 0.7
    ensures KeyPhrasesAbove(results, KEY_PHRASES_CONFIDENCE_THRESHOLD) <= KeyPhrasesAbove(results, ENTITY_CONFIDENCE_THRESHOLD)
  {
  }

  // ---------------------------------------------------------------------------
  // Clean-up of the per-type lists
  // ---------------------------------------------------------------------------

  /** The lists built from the sets: the same types, each list enumerating its set once,
      in some order. */
  ghost predicate ListsOf(sets: map<string, set<string>>, lists: map<string, seq<string>>) {
    && sets.Keys == lists.Keys
    && forall ty :: ty in lists ==> NoRepeats(lists[ty]) && (forall x :: x in lists[ty] <==> x in sets[ty])
  }

  /**
   * clean_up_entity_results as written: PERSON loses the reported duplicates; the
   * COMMERCIAL_ITEM list, then the TITLE list, is moved to Products_and_Titles, so a TITLE
   * list replaces a COMMERCIAL_ITEM list; both old keys are removed.
   */
  function CleanedUp(lists: map<string, seq<string>>): (r: map<string, seq<string>>)
    requires MISSPELT_PRODUCTS_KEY !in lists
    ensures COMMERCIAL_ITEM !in r && TITLE !in r
    ensures PERSON in r <==> PERSON in lists
    ensures PERSON in lists ==> r[PERSON] == Deduplicated(lists[PERSON])
    ensures PRODUCTS_AND_TITLES in r <==> PRODUCTS_AND_TITLES in lists || COMMERCIAL_ITEM in lists || TITLE in lists
    ensures TITLE in lists ==> r[PRODUCTS_AND_TITLES] == lists[TITLE]
    ensures TITLE !in lists && COMMERCIAL_ITEM in lists ==> r[PRODUCTS_AND_TITLES] == lists[COMMERCIAL_ITEM]
    ensures PRODUCTS_AND_TITLES in lists && COMMERCIAL_ITEM !in lists && TITLE !in lists ==>
      r[PRODUCTS_AND_TITLES] == lists[PRODUCTS_AND_TITLES]
    ensures forall ty :: ty in lists && ty !in {PERSON, COMMERCIAL_ITEM, TITLE, PRODUCTS_AND_TITLES} ==> ty in r && r[ty] == lists[ty]
    ensures forall ty :: ty in r ==> ty in lists || ty == PRODUCTS_AND_TITLES
  {
    var people := if PERSON in lists then lists[PERSON := Deduplicated(lists[PERSON])] else lists;
    var products := if COMMERCIAL_ITEM in people
      then people[PRODUCTS_AND_TITLES := people[COMMERCIAL_ITEM]] - {COMMERCIAL_ITEM}
      else people;
    if TITLE in products then products[PRODUCTS_AND_TITLES := products[TITLE]] - {TITLE} else products
  }

  /** The clean-up the code evidently intends: TITLE names are added to the products list
      instead of replacing it. */
  function CleanedUpMerged(lists: map<string, seq<string>>): (r: map<string, seq<string>>)
    ensures COMMERCIAL_ITEM !in r && TITLE !in r
    ensures PERSON in lists ==> PERSON in r && r[PERSON] == Deduplicated(lists[PERSON])
  {
    var people := if PERSON in lists then lists[PERSON := Deduplicated(lists[PERSON])] else lists;
    var products := if COMMERCIAL_ITEM in people
      then people[PRODUCTS_AND_TITLES := people[COMMERCIAL_ITEM]] - {COMMERCIAL_ITEM}
      else people;
    if TITLE in products then
      if PRODUCTS_AND_TITLES in products
      then products[PRODUCTS_AND_TITLES := products[PRODUCTS_AND_TITLES] + products[TITLE]] - {TITLE}
      else products[PRODUCTS_AND_TITLES := products[TITLE]] - {TITLE}
    else products
  }

  /** With the merge, every commercial item and every title ends up among the products, and
      nothing else does (when there was no products list before). */
  lemma MergedKeepsAllProducts(lists: map<string, seq<string>>)
    requires PRODUCTS_AND_TITLES !in lists && (COMMERCIAL_ITEM in lists || TITLE in lists)
    ensures var r := CleanedUpMerged(lists);
      && PRODUCTS_AND_TITLES in r
      && forall x :: x in r[PRODUCTS_AND_TITLES] <==>
           (COMMERCIAL_ITEM in lists && x in lists[COMMERCIAL_ITEM]) || (TITLE in lists && x in lists[TITLE])
  {
  }

  /** As written, a commercial item "Widget" is lost when a title "CEO" is also detected. */
  lemma TitleReplacesCommercialItems()
    ensures var r := CleanedUp(map[COMMERCIAL_ITEM := ["Widget"], TITLE := ["CEO"]]);
      PRODUCTS_AND_TITLES in r && r[PRODUCTS_AND_TITLES] == ["CEO"] && "Widget" !in r[PRODUCTS_AND_TITLES]
  {
  }

  /** For lists built from sets, the cleaned PERSON list keeps exactly the names that are not
      contained in another detected name, none contained in another, in the original order. */
  lemma CleanedPeopleAreContainmentFree(sets: map<string, set<string>>, lists: map<string, seq<string>>)
    requires ListsOf(sets, lists) && MISSPELT_PRODUCTS_KEY !in lists && PERSON in lists
    ensures var people := CleanedUp(lists)[PERSON];
      && NoRepeats(people) && ContainmentFree(people)
      && forall x :: x in people <==> x in sets[PERSON] && !IsDuplicate(lists[PERSON], x)
  {
    DeduplicatedIsContainmentFree(lists[PERSON]);
  }

  /** The dictionary of per-type lists that clean_up_entity_results updates in place. */
  class EntityLists {
    var lists: map<string, seq<string>>

    constructor (lists: map<string, seq<string>>)
      ensures this.lists == lists
    {
      this.lists := lists;
    }

    /**
     * clean_up_entity_results: removes the reported duplicate names from PERSON one by one,
     * then moves COMMERCIAL_ITEM and TITLE to Products_and_Titles.
     */
    method CleanUpEntityResults()
      requires MISSPELT_PRODUCTS_KEY !in lists
      modifies this
      ensures lists == CleanedUp(old(lists))
    {
      if PERSON in lists {
        var people := lists[PERSON];
        var duplicates := FindDuplicatePerson(people);
        ghost var original := people;
        assert ToSet(duplicates[0..]) == DuplicateNames(original) by {
          assert duplicates[0..] == duplicates;
        }
        for i := 0 to |duplicates|
          invariant RemoveFirstOccurrences(people, ToSet(duplicates[i..])) == Deduplicated(original)
          invariant forall d :: d in duplicates[i..] ==> d in people
          invariant lists == old(lists)
        {
          var d := duplicates[i];
          DropFirstOfDistinct(duplicates, i);
          RemoveOneThenRest(people, d, ToSet(duplicates[i..]));
          RemovalKeepsOthers(people, duplicates, i);
          people := RemoveFirst(people, d);
        }
        assert ToSet(duplicates[|duplicates|..]) == {};
        RemoveNothing(people);
        lists := lists[PERSON := people];
      }
      if COMMERCIAL_ITEM in lists {
        lists := lists[PRODUCTS_AND_TITLES := lists[COMMERCIAL_ITEM]];
        lists := lists - {COMMERCIAL_ITEM};
      }
      assert MISSPELT_PRODUCTS_KEY != PERSON && MISSPELT_PRODUCTS_KEY != PRODUCTS_AND_TITLES;
      if TITLE in lists {
        if MISSPELT_PRODUCTS_KEY in lists {
          assert false;
        } else {
          lists := lists[PRODUCTS_AND_TITLES := lists[TITLE]];
        }
        lists := lists - {TITLE};
      }
    }
  }

  function ToSet(s: seq<string>): set<string> {
    set x | x in s
  }

  /** Taking the first name off a list of distinct names takes it off the set of its names. */
  lemma DropFirstOfDistinct(s: seq<string>, i: nat)
    requires NoRepeats(s) && i < |s|
    ensures s[i] in s[i..]
    ensures ToSet(s[i..]) - {s[i]} == ToSet(s[i + 1..])
  {
    assert s[i..][0] == s[i];
    forall k | i + 1 <= k < |s| ensures s[k] != s[i] {
    }
    assert s[i] !in s[i + 1..];
    assert s[i..] == [s[i]] + s[i + 1..];
    assert ToSet(s[i..]) == {s[i]} + ToSet(s[i + 1..]);
  }

  /** Removing one reported name keeps the names reported after it. */
  lemma RemovalKeepsOthers(people: seq<string>, duplicates: seq<string>, i: nat)
    requires NoRepeats(duplicates) && i < |duplicates|
    requires forall d :: d in duplicates[i..] ==> d in people
    ensures forall x :: x in duplicates[i + 1..] ==> x in RemoveFirst(people, duplicates[i])
  {
    var d := duplicates[i];
    assert d in duplicates[i..] by {
      assert duplicates[i..][0] == d;
    }
    forall x | x in duplicates[i + 1..] ensures x in RemoveFirst(people, d) {
      var k :| 0 <= k < |duplicates[i + 1..]| && duplicates[i + 1..][k] == x;
      assert duplicates[i + 1 + k] == x;
      assert x in duplicates[i..] by {
        assert duplicates[i..][k + 1] == x;
      }
      assert x in multiset(people);
      assert x in multiset(RemoveFirst(people, d));
    }
  }
}
