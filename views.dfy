/** The second loop of `listGroupsWithDetails` (src/db.js:182-205): each record becomes a view,
    its answers grouped by answer key to decide the conflict flag. */
module Views {
  import opened Wrappers
  import opened Tables
  import opened OrderedMaps
  import opened Join
  import opened Fold
  import opened Details

  /** The object pushed to `result`. */
  datatype GroupView = GroupView(
    id: nat, canonicalQuestion: string,
    options: seq<string>,
    answers: seq<AnswerView>,
    variants: seq<VariantView>,
    conflict: bool,
    differingUsers: seq<string>)

  // ---------------------------------------------------------------------------
  // Grouping the answers by key

  /** One iteration over `answers`: the user's name is pushed onto the list of its answer key,
      created empty the first time the key is seen (the key is the chosen answer itself, as
      a NULL answer is the empty string here). */
  function Push(uniques: seq<(string, seq<string>)>, a: AnswerView): seq<(string, seq<string>)> {
    match Get(uniques, a.chosenAnswer)
    case None => Put(uniques, a.chosenAnswer, [a.userName])
    case Some(names) => Put(uniques, a.chosenAnswer, names + [a.userName])
  }

  function GroupByAnswer(uniques: seq<(string, seq<string>)>, answers: seq<AnswerView>): seq<(string, seq<string>)>
    decreases |answers|
  {
    if answers == [] then uniques else GroupByAnswer(Push(uniques, answers[0]), answers[1..])
  }

  /** An empty list is set for a key that is not there yet. */
  function WithKey(uniques: seq<(string, seq<string>)>, key: string): seq<(string, seq<string>)> {
    if Get(uniques, key).None? then Put(uniques, key, []) else uniques
  }

  /** Creating the empty list and pushing onto it is one `set`. */
  lemma PushWrites(uniques: seq<(string, seq<string>)>, a: AnswerView)
    requires KeysDistinct(uniques)
    ensures Get(WithKey(uniques, a.chosenAnswer), a.chosenAnswer).Some?
    ensures KeysDistinct(WithKey(uniques, a.chosenAnswer))
    ensures Put(WithKey(uniques, a.chosenAnswer), a.chosenAnswer,
                Get(WithKey(uniques, a.chosenAnswer), a.chosenAnswer).value + [a.userName])
         == Push(uniques, a)
  {
    var k := a.chosenAnswer;
    if Get(uniques, k).None? {
      PutThenGet(uniques, k, []);
      PutPut(uniques, k, [], [a.userName]);
      assert [] + [a.userName] == [a.userName];
    }
  }

  /** The loop building `uniques`: get, push, and write back. */
  method GroupNamesByAnswer(answers: seq<AnswerView>) returns (uniques: seq<(string, seq<string>)>)
    ensures uniques == GroupByAnswer([], answers)
  {
    uniques := [];
    for i := 0 to |answers|
      invariant KeysDistinct(uniques)
      invariant GroupByAnswer(uniques, answers[i..]) == GroupByAnswer([], answers)
    {
      var a := answers[i];
      assert answers[i..][1..] == answers[i + 1..];
      PushWrites(uniques, a);
      ghost var before := uniques;
      var key := a.chosenAnswer;
      if Get(uniques, key).None? {
        uniques := Put(uniques, key, []);
      }
      var names := Get(uniques, key).value;
      uniques := Put(uniques, key, names + [a.userName]);
      assert uniques == Push(before, a);
    }
  }

  /** The names of the answers, in order. */
  function Names(answers: seq<AnswerView>): (r: seq<string>)
    ensures |r| == |answers| && forall i :: 0 <= i < |answers| ==> r[i] == answers[i].userName
  {
    if answers == [] then [] else [answers[0].userName] + Names(answers[1..])
  }

  /** The lists of names, one after the other. */
  function Flatten(lists: seq<seq<string>>): seq<string> {
    if lists == [] then [] else lists[0] + Flatten(lists[1..])
  }

  /** Two answers with different keys. */
  predicate HasConflict(answers: seq<AnswerView>) {
    exists i, j :: 0 <= i < |answers| && 0 <= j < |answers| && answers[i].chosenAnswer != answers[j].chosenAnswer
  }

  /** One push adds its key, if new, and keeps the keys distinct. */
  lemma PushKeys(uniques: seq<(string, seq<string>)>, a: AnswerView)
    requires KeysDistinct(uniques)
    ensures KeysDistinct(Push(uniques, a))
    ensures forall k :: k in Keys(Push(uniques, a)) <==> k in Keys(uniques) || k == a.chosenAnswer
  {
    var r := Push(uniques, a);
    if a.chosenAnswer !in Keys(uniques) {
      assert forall i :: 0 <= i < |uniques| ==> Keys(r)[i] == Keys(uniques)[i];
      assert Keys(r)[|uniques|] == a.chosenAnswer;
    }
  }

  /** Some answer has key `k`. */
  predicate HasKey(answers: seq<AnswerView>, k: string) {
    exists i :: 0 <= i < |answers| && answers[i].chosenAnswer == k
  }

  /** The keys of `uniques` are the distinct answer keys. */
  lemma {:induction false} GroupByAnswerKeys(uniques: seq<(string, seq<string>)>, answers: seq<AnswerView>)
    requires KeysDistinct(uniques)
    ensures KeysDistinct(GroupByAnswer(uniques, answers))
    ensures forall k :: k in Keys(GroupByAnswer(uniques, answers)) <==> k in Keys(uniques) || HasKey(answers, k)
    decreases |answers|
  {
    if answers != [] {
      PushKeys(uniques, answers[0]);
      GroupByAnswerKeys(Push(uniques, answers[0]), answers[1..]);
      HasKeyCons(answers);
    }
  }

  lemma HasKeyCons(answers: seq<AnswerView>)
    requires answers != []
    ensures forall k :: HasKey(answers, k) <==> k == answers[0].chosenAnswer || HasKey(answers[1..], k)
  {
    forall k ensures HasKey(answers, k) <==> k == answers[0].chosenAnswer || HasKey(answers[1..], k) {
      if HasKey(answers, k) {
        var i :| 0 <= i < |answers| && answers[i].chosenAnswer == k;
        if i > 0 {
          assert answers[1..][i - 1] == answers[i];
        }
      }
      if HasKey(answers[1..], k) {
        var i :| 0 <= i < |answers[1..]| && answers[1..][i].chosenAnswer == k;
        assert answers[i + 1] == answers[1..][i];
      }
    }
  }

  /** More than one key is seen exactly when two answers have different keys. */
  lemma ConflictIff(answers: seq<AnswerView>)
    ensures |GroupByAnswer([], answers)| > 1 <==> HasConflict(answers)
  {
    var u := GroupByAnswer([], answers);
    GroupByAnswerKeys([], answers);
    var ks := Keys(u);
    if |u| > 1 {
      assert ks[0] in ks && ks[1] in ks;
      var i :| 0 <= i < |answers| && answers[i].chosenAnswer == ks[0];
      var j :| 0 <= j < |answers| && answers[j].chosenAnswer == ks[1];
      assert answers[i].chosenAnswer != answers[j].chosenAnswer;
    }
    if HasConflict(answers) {
      var i, j :| 0 <= i < |answers| && 0 <= j < |answers| && answers[i].chosenAnswer != answers[j].chosenAnswer;
      assert answers[i].chosenAnswer in ks && answers[j].chosenAnswer in ks;
    }
  }

  lemma {:induction false} FlattenConcat(a: seq<seq<string>>, b: seq<seq<string>>)
    ensures Flatten(a + b) == Flatten(a) + Flatten(b)
    decreases |a|
  {
    if a == [] {
      assert a + b == b;
    } else {
      assert (a + b)[1..] == a[1..] + b;
      FlattenConcat(a[1..], b);
    }
  }

  /** Pushing onto one list adds one name to the flattened lists. */
  lemma {:induction false} FlattenPushAt(lists: seq<seq<string>>, i: nat, n: string)
    requires i < |lists|
    ensures multiset(Flatten(lists[i := lists[i] + [n]])) == multiset(Flatten(lists)) + multiset{n}
    decreases i
  {
    var after := lists[i := lists[i] + [n]];
    var rest := Flatten(lists[1..]);
    assert Flatten(lists) == lists[0] + rest;
    if i == 0 {
      assert after[1..] == lists[1..];
      assert Flatten(after) == (lists[0] + [n]) + rest;
      assert multiset(Flatten(after)) == multiset(lists[0]) + multiset{n} + multiset(rest);
    } else {
      assert after[1..] == lists[1..][i - 1 := lists[1..][i - 1] + [n]];
      FlattenPushAt(lists[1..], i - 1, n);
      assert Flatten(after) == lists[0] + Flatten(after[1..]);
      assert multiset(Flatten(after)) == multiset(lists[0]) + multiset(Flatten(after[1..]));
    }
  }

  lemma ValuesUpdate(m: seq<(string, seq<string>)>, i: nat, e: (string, seq<string>))
    requires i < |m|
    ensures Values(m[i := e]) == Values(m)[i := e.1]
  {
  }

  lemma ValuesAppend(m: seq<(string, seq<string>)>, e: (string, seq<string>))
    ensures Values(m + [e]) == Values(m) + [e.1]
  {
  }

  /** One push adds the user's name to the flattened lists. */
  lemma PushNames(uniques: seq<(string, seq<string>)>, a: AnswerView)
    ensures multiset(Flatten(Values(Push(uniques, a)))) == multiset(Flatten(Values(uniques))) + multiset{a.userName}
  {
    var k := a.chosenAnswer;
    match IndexOf(uniques, k)
    case None =>
      ValuesAppend(uniques, (k, [a.userName]));
      FlattenConcat(Values(uniques), [[a.userName]]);
      assert Flatten([[a.userName]]) == [a.userName];
    case Some(i) =>
      ValuesUpdate(uniques, i, (k, uniques[i].1 + [a.userName]));
      FlattenPushAt(Values(uniques), i, a.userName);
  }

  /** Every name lands in exactly one list: the flattened lists hold the answering users. */
  lemma {:induction false} GroupByAnswerNames(uniques: seq<(string, seq<string>)>, answers: seq<AnswerView>)
    ensures multiset(Flatten(Values(GroupByAnswer(uniques, answers))))
         == multiset(Flatten(Values(uniques))) + multiset(Names(answers))
    decreases |answers|
  {
    if answers != [] {
      PushNames(uniques, answers[0]);
      GroupByAnswerNames(Push(uniques, answers[0]), answers[1..]);
      assert Names(answers) == [answers[0].userName] + Names(answers[1..]);
    }
  }

  // ---------------------------------------------------------------------------
  // Views

  /** The view of one record. */
  function ViewOf(g: GroupAcc): (r: GroupView)
    ensures r.conflict <==> HasConflict(r.answers)
    ensures !r.conflict ==> r.differingUsers == []
  {
    var answers := Values(g.answers);
    var uniques := GroupByAnswer([], answers);
    ConflictIff(answers);
    var conflict := |uniques| > 1;
    GroupView(g.id, g.canonical, g.options, answers, Values(g.variants), conflict,
              if conflict then Flatten(Values(uniques)) else [])
  }

  /** `result`: one view per record, in the map's order. */
  function ViewsOf(byId: seq<(nat, GroupAcc)>): (r: seq<GroupView>)
    ensures |r| == |byId| && forall i :: 0 <= i < |byId| ==> r[i] == ViewOf(byId[i].1)
  {
    if byId == [] then [] else [ViewOf(byId[0].1)] + ViewsOf(byId[1..])
  }

  lemma ViewsOfAppend(byId: seq<(nat, GroupAcc)>, i: nat)
    requires i < |byId|
    ensures ViewsOf(byId[..i + 1]) == ViewsOf(byId[..i]) + [ViewOf(byId[i].1)]
  {
    var a := ViewsOf(byId[..i + 1]);
    var b := ViewsOf(byId[..i]) + [ViewOf(byId[i].1)];
    assert |a| == |b|;
    forall j | 0 <= j < |a| ensures a[j] == b[j] {
      assert byId[..i + 1][j] == byId[j];
    }
  }

  /** The loop over `byId.values()`. */
  method BuildViews(byId: seq<(nat, GroupAcc)>) returns (result: seq<GroupView>)
    ensures result == ViewsOf(byId)
  {
    result := [];
    for i := 0 to |byId|
      invariant result == ViewsOf(byId[..i])
    {
      var g := byId[i].1;
      var opts := g.options;
      var answers := Values(g.answers);
      var variants := Values(g.variants);
      var uniques := GroupNamesByAnswer(answers);
      var conflict := |uniques| > 1;
      var differingUsers := if conflict then Flatten(Values(uniques)) else [];
      var view := GroupView(g.id, g.canonical, opts, answers, variants, conflict, differingUsers);
      assert view == ViewOf(byId[i].1);
      ViewsOfAppend(byId, i);
      result := result + [view];
    }
    assert byId[..|byId|] == byId;
  }

  /** The conflict flag and the differing users of any view. */
  lemma ViewConflict(g: GroupAcc)
    ensures ViewOf(g).conflict <==> HasConflict(ViewOf(g).answers)
    ensures ViewOf(g).conflict ==> multiset(ViewOf(g).differingUsers) == multiset(Names(ViewOf(g).answers))
    ensures !ViewOf(g).conflict ==> ViewOf(g).differingUsers == []
  {
    var answers := Values(g.answers);
    ConflictIff(answers);
    GroupByAnswerNames([], answers);
    assert Flatten(Values<string, seq<string>>([])) == [];
  }

  // ---------------------------------------------------------------------------
  // What `listGroupsWithDetails` returns, stated on the tables

  /** The views of the groups, computed from the tables without the join: one per group, in
      table order (which is ascending id order), answered or not. */
  function TableViews(users: seq<string>, groups: seq<Group>, variants: seq<Variant>,
                      options: seq<OptionRow>, answers: seq<AnswerRow>): (r: seq<GroupView>)
    ensures |r| == |groups|
    ensures forall i :: 0 <= i < |groups| ==> r[i] == ViewOf(ExpectedAcc(users, variants, options, answers, groups[i]))
    ensures forall i :: 0 <= i < |groups| ==> r[i].id == groups[i].id && r[i].canonicalQuestion == groups[i].canonical
  {
    ViewsOf(ExpectedById(users, groups, variants, options, answers))
  }

  /** A group nobody answered has no answers, no variants and no conflict. */
  lemma UnansweredView(users: seq<string>, variants: seq<Variant>, options: seq<OptionRow>,
                       answers: seq<AnswerRow>, g: Group)
    requires AnswersIn(answers, g.id) == []
    ensures ViewOf(ExpectedAcc(users, variants, options, answers, g)).answers == []
    ensures ViewOf(ExpectedAcc(users, variants, options, answers, g)).variants == []
    ensures !ViewOf(ExpectedAcc(users, variants, options, answers, g)).conflict
    ensures ViewOf(ExpectedAcc(users, variants, options, answers, g)).differingUsers == []
  {
    assert GroupByAnswer([], []) == [];
  }

  /** A view's options are the group's option texts, each once and none empty. */
  lemma ViewOptions(users: seq<string>, variants: seq<Variant>, options: seq<OptionRow>,
                    answers: seq<AnswerRow>, g: Group)
    requires ValidOptions(options)
    ensures Distinct(ViewOf(ExpectedAcc(users, variants, options, answers, g)).options)
    ensures forall t :: t in ViewOf(ExpectedAcc(users, variants, options, answers, g)).options <==>
      OptionRow(g.id, t) in options
  {
    OptionTextsDistinct(options, g.id);
  }

  /** The answers of a view: one per answering user with a known name, in table order. */
  lemma {:induction false} AnswerEntriesOf(cs: seq<AnswerCell>)
    ensures forall e :: e in AnswerEntries(cs) <==>
      e.0 != 0 && e.1.userName != "" && AnswerCell(e.0, e.1.userName, e.1.chosenAnswer) in cs
    decreases |cs|
  {
    if cs != [] {
      AnswerEntriesOf(cs[1..]);
      assert forall c :: c in cs <==> c == cs[0] || c in cs[1..];
    }
  }

  /** Every variant entry belongs to an answering user with a known name, is that user's
      latest non-empty variant text in the group, and is flagged exactly when it equals the
      canonical text. */
  lemma {:induction false} VariantEntriesOf(variants: seq<Variant>, g: Group, cs: seq<AnswerCell>)
    ensures forall e :: e in VariantEntries(variants, g, cs) ==>
      && e.0 != 0 && e.1.userName != ""
      && (exists c :: c in cs && c.userId == e.0 && c.userName == e.1.userName)
      && LatestText(VariantsFor(variants, g.id, e.0)) == Some(e.1.questionText)
      && (e.1.matchesCanonical <==> e.1.questionText == g.canonical)
    decreases |cs|
  {
    if cs != [] {
      VariantEntriesOf(variants, g, cs[1..]);
      assert forall c :: c in cs[1..] ==> c in cs;
      assert VariantEntries(variants, g, cs) == VariantEntry(variants, g, cs[0]) + VariantEntries(variants, g, cs[1..]);
    }
  }

  lemma {:induction false} FoldVariantsKeysDistinct(m: seq<(nat, VariantView)>, rows: seq<JoinedRow>, canonical: string)
    requires KeysDistinct(m)
    ensures KeysDistinct(FoldVariants(m, rows, canonical))
    decreases |rows|
  {
    if rows != [] {
      FoldVariantsKeysDistinct(AddVariant(m, rows[0], canonical), rows[1..], canonical);
    }
  }

  lemma {:induction false} FoldAnswersKeysDistinct(m: seq<(nat, AnswerView)>, rows: seq<JoinedRow>)
    requires KeysDistinct(m)
    ensures KeysDistinct(FoldAnswers(m, rows))
    decreases |rows|
  {
    if rows != [] {
      FoldAnswersKeysDistinct(AddAnswer(m, rows[0]), rows[1..]);
    }
  }

  /** The variants of a group's record: at most one per user, each of a user who answered that
      group (same id, same name), the user's latest non-empty text there, flagged exactly when
      equal to the canonical text. The answers too hold one entry per user. */
  lemma RecordVariants(users: seq<string>, variants: seq<Variant>, options: seq<OptionRow>,
                       answers: seq<AnswerRow>, g: Group)
    requires UniqueAnswers(answers)
    ensures KeysDistinct(ExpectedAcc(users, variants, options, answers, g).answers)
    ensures KeysDistinct(ExpectedAcc(users, variants, options, answers, g).variants)
    ensures forall e :: e in ExpectedAcc(users, variants, options, answers, g).variants ==>
      && (exists a :: a in ExpectedAcc(users, variants, options, answers, g).answers && a.0 == e.0 && a.1.userName == e.1.userName)
      && LatestText(VariantsFor(variants, g.id, e.0)) == Some(e.1.questionText)
      && (e.1.matchesCanonical <==> e.1.questionText == g.canonical)
  {
    var acc := ExpectedAcc(users, variants, options, answers, g);
    var cs := AnswerCells(users, AnswersIn(answers, g.id));
    var rows := GroupRows(users, variants, options, answers, g);
    GroupAnswers(users, variants, options, answers, g);
    GroupVariants(users, variants, options, answers, g);
    FoldAnswersKeysDistinct([], rows);
    FoldVariantsKeysDistinct([], rows, g.canonical);
    AnswerEntriesOf(cs);
    VariantEntriesOf(variants, g, cs);
    forall e | e in acc.variants
      ensures exists a :: a in acc.answers && a.0 == e.0 && a.1.userName == e.1.userName
    {
      var c :| c in cs && c.userId == e.0 && c.userName == e.1.userName;
      assert (c.userId, AnswerView(c.userName, c.key)) in acc.answers;
    }
  }
}
