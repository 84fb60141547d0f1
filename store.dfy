/** The store of src/db.js: the five tables and the functions that read and write them. */
module Store {
  import opened Wrappers
  import opened Text
  import opened Normalize
  import opened AnswerKeys
  import opened Tables
  import opened Similarity
  import opened Fold
  import opened Join
  import opened Details
  import opened Views

  class QuestionStore {
    var users: seq<string>
    var groups: seq<Group>
    var variants: seq<Variant>
    var options: seq<OptionRow>
    var answers: seq<AnswerRow>

    /** The constraints of the schema that the code relies on. */
    ghost predicate Valid()
      reads this
    {
      ValidTables(users, groups, variants, options, answers)
    }

    /** An empty database, as the `CREATE TABLE IF NOT EXISTS` statements leave a new file. */
    constructor ()
      ensures Valid()
      ensures users == [] && groups == [] && variants == [] && options == [] && answers == []
    {
      users, groups, variants, options, answers := [], [], [], [], [];
    }

    /** `getOrCreateUser`: a blank trimmed name is refused and nothing is written; otherwise the
        name is inserted unless known, and the user with that name is returned. */
    method GetOrCreateUser(name: string) returns (r: Result<User, string>)
      requires Valid()
      modifies this
      ensures Valid()
      ensures groups == old(groups) && variants == old(variants) && options == old(options) && answers == old(answers)
      ensures Trim(name) == [] ==> r == Failure("Name required") && users == old(users)
      ensures Trim(name) != [] ==> && users == InsertUser(old(users), Trim(name))
                                   && UserIdOf(users, Trim(name)).Some?
                                   && r == Success(User(UserIdOf(users, Trim(name)).value, Trim(name)))
    {
      var trimmed := Trim(name);
      if |trimmed| == 0 {
        return Failure("Name required");
      }
      InsertUserKeepsValid(users, trimmed);
      users := InsertUser(users, trimmed);
      var id := UserIdOf(users, trimmed);
      r := Success(User(id.value, trimmed));
    }

    /** `findOrCreateGroupForQuestion`: the first group with the largest similarity is reused when
        that similarity reaches the threshold; otherwise a group with the normalized text and the
        embedding is appended. A truthy user id records the normalized text as a variant. */
    method FindOrCreateGroupForQuestion(quot: Quotient, questionText: string, embedding: seq<real>, userId: nat)
      returns (groupId: nat)
      requires Valid()
      modifies this
      ensures Valid()
      ensures users == old(users) && options == old(options) && answers == old(answers)
      ensures SomeRowAbove(quot, embedding, old(groups)) ==>
        && groups == old(groups)
        && exists k: nat :: FirstBestAmong(quot, embedding, groups, |groups|, k) && groups[k].id == groupId
      ensures !SomeRowAbove(quot, embedding, old(groups)) ==>
        && groupId == NextGroupId(old(groups))
        && groups == old(groups) + [Group(groupId, NormalizeQuestionText(questionText), Encoded(embedding))]
      ensures variants == old(variants) + (if userId != 0 then [Variant(groupId, userId, NormalizeQuestionText(questionText))] else [])
      ensures exists k :: 0 <= k < |groups| && groups[k].id == groupId
    {
      var normalized := NormalizeQuestionText(questionText);
      var best := SelectBest(quot, embedding, groups);
      ReusesIffSomeRowAbove(quot, embedding, groups, best);
      if Reuses(best) {
        groupId := best.id.value;
        ghost var k: nat :| FirstBestAmong(quot, embedding, groups, |groups|, k)
                 && best == Best(Some(groups[k].id), ScoreAt(quot, embedding, groups, k).value);
      } else {
        groupId := NextGroupId(groups);
        var g := Group(groupId, normalized, Encoded(embedding));
        AppendKeepsAscending(groups, g);
        groups := groups + [g];
        assert groups[|groups| - 1].id == groupId;
      }
      if userId != 0 {
        variants := variants + [Variant(groupId, userId, normalized)];
      }
    }

    /** `storeOptions`: nothing for a non-array; otherwise each option trimmed and, unless empty,
        inserted or ignored. */
    method StoreOptions(groupId: nat, opts: Option<seq<string>>)
      requires Valid()
      modifies this
      ensures Valid()
      ensures users == old(users) && groups == old(groups) && variants == old(variants) && answers == old(answers)
      ensures opts.None? ==> options == old(options)
      ensures opts.Some? ==> options == AddOptions(old(options), groupId, opts.value)
    {
      if opts.None? {
        return;
      }
      var items := opts.value;
      AddOptionsKeepsValid(options, groupId, items);
      for i := 0 to |items|
        invariant AddOptions(options, groupId, items[i..]) == AddOptions(old(options), groupId, items)
        invariant users == old(users) && groups == old(groups) && variants == old(variants) && answers == old(answers)
      {
        assert items[i..][1..] == items[i + 1..];
        var cleaned := Trim(items[i]);
        if cleaned != "" {
          options := InsertOption(options, groupId, cleaned);
        }
      }
    }

    /** `storeAnswer`: the key of the chosen answers replaces the user's answer in the group, or
        is added; every other answer stays. */
    method StoreAnswer(groupId: nat, userId: nat, chosen: ChosenAnswers)
      requires Valid()
      modifies this
      ensures Valid()
      ensures users == old(users) && groups == old(groups) && variants == old(variants) && options == old(options)
      ensures answers == Upsert(old(answers), groupId, userId, AnswerKey(chosen))
      ensures AnswerOf(answers, groupId, userId) == Some(AnswerKey(chosen))
      ensures forall g: nat, u: nat :: (g, u) != (groupId, userId) ==> AnswerOf(answers, g, u) == AnswerOf(old(answers), g, u)
    {
      var value := AnswerKey(chosen);
      UpsertKeepsUnique(answers, groupId, userId, value);
      forall g: nat, u: nat | (g, u) != (groupId, userId)
        ensures AnswerOf(Upsert(answers, groupId, userId, value), g, u) == AnswerOf(answers, g, u)
      {
        UpsertKeepsOthers(answers, groupId, userId, value, g, u);
      }
      answers := Upsert(answers, groupId, userId, value);
    }

    /** `listGroupsWithDetails`: the joined rows folded into records, then into views. */
    method ListGroupsWithDetails() returns (result: seq<GroupView>)
      requires Valid()
      ensures result == TableViews(users, groups, variants, options, answers)
    {
      var rows := JoinRows(users, groups, variants, options, answers);
      var byId := FoldJoinedRows(rows);
      FoldJoinIsExpected(users, groups, variants, options, answers);
      result := BuildViews(byId);
    }

    /** `clearAllData`: answers, variants, options and groups are deleted; users stay. */
    method ClearAllData()
      requires Valid()
      modifies this
      ensures Valid()
      ensures users == old(users)
      ensures groups == [] && variants == [] && options == [] && answers == []
    {
      answers := [];
      variants := [];
      options := [];
      groups := [];
    }

    /** One extracted item of an upload (src/server.js:88-94): the question text is normalized,
        assigned to a group (which normalizes it again), its options stored when there are any,
        and the user's answer stored. */
    method IngestItem(quot: Quotient, questionText: string, embedding: seq<real>, userId: nat,
                      opts: Option<seq<string>>, chosen: ChosenAnswers) returns (groupId: nat)
      requires Valid()
      modifies this
      ensures Valid()
      ensures users == old(users)
      ensures SomeRowAbove(quot, embedding, old(groups)) ==>
        && groups == old(groups)
        && exists k: nat :: FirstBestAmong(quot, embedding, groups, |groups|, k) && groups[k].id == groupId
      ensures !SomeRowAbove(quot, embedding, old(groups)) ==>
        && groupId == NextGroupId(old(groups))
        && groups == old(groups) + [Group(groupId, NormalizeQuestionText(NormalizeQuestionText(questionText)), Encoded(embedding))]
      ensures exists k :: 0 <= k < |groups| && groups[k].id == groupId
      ensures variants == old(variants) +
        (if userId != 0 then [Variant(groupId, userId, NormalizeQuestionText(NormalizeQuestionText(questionText)))] else [])
      ensures opts.Some? && |opts.value| > 0 ==> options == AddOptions(old(options), groupId, opts.value)
      ensures !(opts.Some? && |opts.value| > 0) ==> options == old(options)
      ensures answers == Upsert(old(answers), groupId, userId, AnswerKey(chosen))
      ensures AnswerOf(answers, groupId, userId) == Some(AnswerKey(chosen))
    {
      var normalized := NormalizeQuestionText(questionText);
      groupId := FindOrCreateGroupForQuestion(quot, normalized, embedding, userId);
      if opts.Some? && |opts.value| > 0 {
        StoreOptions(groupId, opts);
      }
      StoreAnswer(groupId, userId, chosen);
    }
  }
}
