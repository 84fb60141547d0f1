/** What the fold of the joined rows computes, stated directly on the tables, and the proof that
    the fold computes it. */
module Details {
  import opened Wrappers
  import opened Tables
  import opened OrderedMaps
  import opened Join
  import opened Fold

  // ---------------------------------------------------------------------------
  // The expected record of a group

  /** The answers of a group that the view lists: answers whose user id and user name are both
      truthy, keyed by user id, in table order. */
  function AnswerEntries(cs: seq<AnswerCell>): seq<(nat, AnswerView)> {
    if cs == [] then []
    else
      var head := if cs[0].userId != 0 && cs[0].userName != "" then [(cs[0].userId, AnswerView(cs[0].userName, cs[0].key))] else [];
      head + AnswerEntries(cs[1..])
  }

  /** The text of the latest variant with a non-empty text, if any. */
  function LatestText(vs: seq<Variant>): (r: Option<string>)
    ensures r.Some? ==> r.value != "" && exists v :: v in vs && v.text == r.value
    ensures r.None? ==> forall v :: v in vs ==> v.text == ""
  {
    if vs == [] then None
    else match LatestText(vs[1..])
      case Some(t) => Some(t)
      case None => if vs[0].text != "" then Some(vs[0].text) else None
  }

  /** The variant shown for an answering user: the latest non-empty variant of that user in the
      group, flagged with whether it equals the canonical text. */
  function VariantEntry(variants: seq<Variant>, g: Group, c: AnswerCell): seq<(nat, VariantView)> {
    var latest := LatestText(VariantsFor(variants, g.id, c.userId));
    if c.userId != 0 && c.userName != "" && latest.Some? then
      [(c.userId, VariantView(c.userName, latest.value, latest.value == g.canonical))]
    else []
  }

  function VariantEntries(variants: seq<Variant>, g: Group, cs: seq<AnswerCell>): seq<(nat, VariantView)> {
    if cs == [] then [] else VariantEntry(variants, g, cs[0]) + VariantEntries(variants, g, cs[1..])
  }

  /** The record the first loop of `listGroupsWithDetails` leaves for a group. */
  function ExpectedAcc(users: seq<string>, variants: seq<Variant>, options: seq<OptionRow>,
                       answers: seq<AnswerRow>, g: Group): GroupAcc {
    var cs := AnswerCells(users, AnswersIn(answers, g.id));
    GroupAcc(g.id, g.canonical, OptionTextsIn(options, g.id), AnswerEntries(cs), VariantEntries(variants, g, cs))
  }

  function ExpectedById(users: seq<string>, groups: seq<Group>, variants: seq<Variant>,
                        options: seq<OptionRow>, answers: seq<AnswerRow>): (r: seq<(nat, GroupAcc)>)
    ensures |r| == |groups|
    ensures forall i :: 0 <= i < |groups| ==> r[i] == (groups[i].id, ExpectedAcc(users, variants, options, answers, groups[i]))
  {
    if groups == [] then []
    else
      var head := (groups[0].id, ExpectedAcc(users, variants, options, answers, groups[0]));
      [head] + ExpectedById(users, groups[1..], variants, options, answers)
  }

  // ---------------------------------------------------------------------------
  // Options

  function NonEmpty(ts: seq<string>): (r: seq<string>)
    ensures forall t :: t in r <==> t in ts && t != ""
  {
    if ts == [] then [] else (if ts[0] != "" then [ts[0]] else []) + NonEmpty(ts[1..])
  }

  lemma {:induction false} FoldOptionsConcat(s: seq<string>, a: seq<JoinedRow>, b: seq<JoinedRow>)
    ensures FoldOptions(s, a + b) == FoldOptions(FoldOptions(s, a), b)
    decreases |a|
  {
    if a == [] {
      assert a + b == b;
    } else {
      assert (a + b)[1..] == a[1..] + b;
      FoldOptionsConcat(AddOption(s, a[0]), a[1..], b);
    }
  }

  /** Adding options that are already in the set changes nothing. */
  lemma {:induction false} OptionsAbsorb(s: seq<string>, rows: seq<JoinedRow>)
    requires forall x :: x in rows && x.optionText != "" ==> x.optionText in s
    ensures FoldOptions(s, rows) == s
    decreases |rows|
  {
    if rows != [] {
      assert rows[0] in rows;
      OptionsAbsorb(s, rows[1..]);
    }
  }

  lemma {:induction false} OptionRowsAdd(s: seq<string>, g: Group, a: AnswerCell, v: VariantCell, opts: seq<string>)
    requires Distinct(opts) && forall t :: t in opts ==> t !in s
    ensures FoldOptions(s, OptionRows(g, a, v, opts)) == s + NonEmpty(opts)
    decreases |opts|
  {
    if opts != [] {
      var added := if opts[0] != "" then [opts[0]] else [];
      var rest := OptionRows(g, a, v, opts[1..]);
      assert FoldOptions(s, OptionRows(g, a, v, opts)) == FoldOptions(s + added, rest) by {
        var row := JoinedRow(g.id, g.canonical, a.userId, a.userName, a.key, v.userId, v.text, opts[0]);
        FoldOptionsCons(s, row, rest);
        assert opts[0] in opts;
        AddOptionFresh(s, row);
      }
      assert FoldOptions(s + added, rest) == (s + added) + NonEmpty(opts[1..]) by {
        OptionStepFresh(s, opts);
        OptionRowsAdd(s + added, g, a, v, opts[1..]);
      }
      NonEmptyCons(s, opts);
    }
  }

  lemma NonEmptyCons(s: seq<string>, opts: seq<string>)
    requires opts != []
    ensures s + NonEmpty(opts) == (s + (if opts[0] != "" then [opts[0]] else [])) + NonEmpty(opts[1..])
  {
    var added := if opts[0] != "" then [opts[0]] else [];
    assert NonEmpty(opts) == added + NonEmpty(opts[1..]);
    ConcatAssoc(s, added, NonEmpty(opts[1..]));
  }

  /** A non-empty option text not yet in the set is appended to it. */
  lemma AddOptionFresh(s: seq<string>, row: JoinedRow)
    requires row.optionText !in s
    ensures AddOption(s, row) == s + (if row.optionText != "" then [row.optionText] else [])
  {
  }

  /** After the first option is added, the remaining ones are still distinct and not in the set. */
  lemma OptionStepFresh(s: seq<string>, opts: seq<string>)
    requires opts != [] && Distinct(opts) && forall t :: t in opts ==> t !in s
    ensures Distinct(opts[1..])
    ensures forall t :: t in opts[1..] ==> t !in s + (if opts[0] != "" then [opts[0]] else [])
  {
    assert opts[0] in opts;
    DistinctTail(opts);
    forall t | t in opts[1..] ensures t in opts {
    }
  }

  lemma FoldOptionsCons(s: seq<string>, row: JoinedRow, rest: seq<JoinedRow>)
    ensures FoldOptions(s, [row] + rest) == FoldOptions(AddOption(s, row), rest)
  {
    assert ([row] + rest)[1..] == rest;
  }

  /** The tail of a sequence without repetitions has none, and lacks the head. */
  lemma DistinctTail<T>(xs: seq<T>)
    requires xs != [] && Distinct(xs)
    ensures Distinct(xs[1..]) && xs[0] !in xs[1..]
  {
    var t := xs[1..];
    forall i, j | 0 <= i < j < |t| ensures t[i] != t[j] {
      assert t[i] == xs[i + 1] && t[j] == xs[j + 1];
    }
    forall k | 0 <= k < |t| ensures t[k] != xs[0] {
      assert t[k] == xs[k + 1];
    }
  }

  lemma {:induction false} OptionTextsDistinct(options: seq<OptionRow>, groupId: nat)
    requires ValidOptions(options)
    ensures Distinct(OptionTextsIn(options, groupId))
    ensures forall t :: t in OptionTextsIn(options, groupId) ==> t != ""
    decreases |options|
  {
    if options != [] {
      var tail := options[1..];
      assert ValidOptions(tail) by {
        forall i, j | 0 <= i < j < |tail| ensures tail[i] != tail[j] {
          assert tail[i] == options[i + 1] && tail[j] == options[j + 1];
        }
        forall i | 0 <= i < |tail| ensures tail[i].text != "" && Text.IsTrimmed(tail[i].text) {
          assert tail[i] == options[i + 1];
        }
      }
      OptionTextsDistinct(tail, groupId);
      if options[0].groupId == groupId {
        forall t | t in OptionTextsIn(tail, groupId) ensures t != options[0].text {
          assert OptionRow(groupId, t) in tail;
          var j :| 0 <= j < |tail| && tail[j] == OptionRow(groupId, t);
          assert options[j + 1] == tail[j];
        }
      }
    }
  }

  lemma {:induction false} NonEmptyOfNonEmpty(ts: seq<string>)
    requires forall i :: 0 <= i < |ts| ==> ts[i] != ""
    ensures NonEmpty(ts) == ts
    decreases |ts|
  {
    if ts != [] {
      NonEmptyOfNonEmpty(ts[1..]);
    }
  }

  /** Folding the rows of one group's answers adds each option cell once. */
  lemma OptionsOfAnswerRows(variants: seq<Variant>, g: Group, cs: seq<AnswerCell>, isNull: bool, opts: seq<string>)
    requires cs != [] && Distinct(opts)
    ensures FoldOptions([], AnswerRows(variants, g, cs, isNull, opts)) == NonEmpty(opts)
  {
    var vs := VariantCellsOrNull(variants, g.id, cs[0], isNull);
    var first := OptionRows(g, cs[0], vs[0], opts);
    var more := VariantRows(g, cs[0], vs[1..], opts);
    var others := AnswerRows(variants, g, cs[1..], isNull, opts);
    assert AnswerRows(variants, g, cs, isNull, opts) == VariantRows(g, cs[0], vs, opts) + others;
    assert VariantRows(g, cs[0], vs, opts) == first + more;
    FoldOptionsConcat([], VariantRows(g, cs[0], vs, opts), others);
    FoldOptionsConcat([], first, more);
    OptionRowsAdd([], g, cs[0], vs[0], opts);
    assert [] + NonEmpty(opts) == NonEmpty(opts);
    OptionsAbsorb(NonEmpty(opts), more);
    OptionsAbsorb(NonEmpty(opts), others);
  }

  /** A group's option set is exactly its option texts in table order, each once. */
  lemma GroupOptions(users: seq<string>, variants: seq<Variant>, options: seq<OptionRow>,
                     answers: seq<AnswerRow>, g: Group)
    requires ValidOptions(options)
    ensures FoldOptions([], GroupRows(users, variants, options, answers, g)) == OptionTextsIn(options, g.id)
  {
    var own := OptionTextsIn(options, g.id);
    var cells := OptionCellsOrNull(options, g.id);
    assert Distinct(cells) && NonEmpty(cells) == own by {
      OptionTextsDistinct(options, g.id);
      if own != [] {
        assert forall i :: 0 <= i < |own| ==> own[i] in own;
        NonEmptyOfNonEmpty(own);
      } else {
        assert NonEmpty([""]) == [];
      }
    }
    OptionsOfAnswerRows(variants, g, AnswerCellsOrNull(users, answers, g.id), AnswersIn(answers, g.id) == [], cells);
  }

  // ---------------------------------------------------------------------------
  // Answers

  /** The update all rows of one answer make to the answer map. */
  function AddCell(m: seq<(nat, AnswerView)>, c: AnswerCell): seq<(nat, AnswerView)> {
    if c.userId != 0 && c.userName != "" then Put(m, c.userId, AnswerView(c.userName, c.key)) else m
  }

  lemma {:induction false} FoldAnswersConcat(m: seq<(nat, AnswerView)>, a: seq<JoinedRow>, b: seq<JoinedRow>)
    ensures FoldAnswers(m, a + b) == FoldAnswers(FoldAnswers(m, a), b)
    decreases |a|
  {
    if a == [] {
      assert a + b == b;
    } else {
      assert (a + b)[1..] == a[1..] + b;
      FoldAnswersConcat(AddAnswer(m, a[0]), a[1..], b);
    }
  }

  /** Rows that repeat one answer set it once. */
  lemma {:induction false} FoldAnswersSame(m: seq<(nat, AnswerView)>, rows: seq<JoinedRow>, c: AnswerCell)
    requires KeysDistinct(m) && rows != []
    requires forall x :: x in rows ==> x.answerUserId == c.userId && x.userName == c.userName && x.chosenAnswer == c.key
    ensures FoldAnswers(m, rows) == AddCell(m, c)
    decreases |rows|
  {
    assert rows[0] in rows;
    var m1 := AddCell(m, c);
    if |rows| > 1 {
      forall x | x in rows[1..]
        ensures x.answerUserId == c.userId && x.userName == c.userName && x.chosenAnswer == c.key
      {
        assert x in rows;
      }
      FoldAnswersSame(m1, rows[1..], c);
      if c.userId != 0 && c.userName != "" {
        PutPut(m, c.userId, AnswerView(c.userName, c.key), AnswerView(c.userName, c.key));
      }
    }
  }

  /** The cells name distinct users, none of them a key of `m` yet. */
  predicate FreshUsers<V>(m: seq<(nat, V)>, cs: seq<AnswerCell>) {
    && (forall i, j :: 0 <= i < j < |cs| ==> cs[i].userId != cs[j].userId)
    && (forall i :: 0 <= i < |cs| ==> cs[i].userId !in Keys(m))
  }

  lemma FreshUsersTail<V>(m: seq<(nat, V)>, cs: seq<AnswerCell>, added: seq<(nat, V)>)
    requires cs != [] && FreshUsers(m, cs)
    requires forall e :: e in added ==> e.0 == cs[0].userId
    ensures FreshUsers(m + added, cs[1..])
  {
    var tail := cs[1..];
    forall i | 0 <= i < |tail| ensures tail[i].userId !in Keys(m + added) {
      assert tail[i] == cs[i + 1];
    }
    forall i, j | 0 <= i < j < |tail| ensures tail[i].userId != tail[j].userId {
      assert tail[i] == cs[i + 1] && tail[j] == cs[j + 1];
    }
  }

  /** The rows of the first answer set that answer, if its user and name are truthy. */
  lemma FirstAnswerBlock(m: seq<(nat, AnswerView)>, variants: seq<Variant>, g: Group,
                         cs: seq<AnswerCell>, isNull: bool, opts: seq<string>)
    requires KeysDistinct(m) && opts != [] && cs != [] && cs[0].userId !in Keys(m)
    ensures FoldAnswers(m, AnswerRows(variants, g, cs, isNull, opts))
         == FoldAnswers(m + AnswerEntries(cs[..1]), AnswerRows(variants, g, cs[1..], isNull, opts))
  {
    var vr := VariantRows(g, cs[0], VariantCellsOrNull(variants, g.id, cs[0], isNull), opts);
    var others := AnswerRows(variants, g, cs[1..], isNull, opts);
    assert FoldAnswers(m, AnswerRows(variants, g, cs, isNull, opts)) == FoldAnswers(FoldAnswers(m, vr), others) by {
      AnswerRowsCons(variants, g, cs, isNull, opts);
      FoldAnswersConcat(m, vr, others);
    }
    FirstCellFold(m, variants, g, cs, isNull, opts);
  }

  /** The rows of the first answer add its entry, once. */
  lemma FirstCellFold(m: seq<(nat, AnswerView)>, variants: seq<Variant>, g: Group,
                      cs: seq<AnswerCell>, isNull: bool, opts: seq<string>)
    requires KeysDistinct(m) && opts != [] && cs != [] && cs[0].userId !in Keys(m)
    ensures FoldAnswers(m, VariantRows(g, cs[0], VariantCellsOrNull(variants, g.id, cs[0], isNull), opts))
         == m + AnswerEntries(cs[..1])
  {
    FoldAnswersSame(m, VariantRows(g, cs[0], VariantCellsOrNull(variants, g.id, cs[0], isNull), opts), cs[0]);
    assert cs[..1] == [cs[0]];
    AddCellAppends(m, cs[0]);
  }

  lemma AnswerRowsCons(variants: seq<Variant>, g: Group, cs: seq<AnswerCell>, isNull: bool, opts: seq<string>)
    requires cs != []
    ensures AnswerRows(variants, g, cs, isNull, opts)
         == VariantRows(g, cs[0], VariantCellsOrNull(variants, g.id, cs[0], isNull), opts)
          + AnswerRows(variants, g, cs[1..], isNull, opts)
  {
  }

  lemma AddCellAppends(m: seq<(nat, AnswerView)>, c: AnswerCell)
    requires KeysDistinct(m) && c.userId !in Keys(m)
    ensures AddCell(m, c) == m + AnswerEntries([c])
    ensures KeysDistinct(m + AnswerEntries([c]))
    ensures forall e :: e in AnswerEntries([c]) ==> e.0 == c.userId
  {
    assert [c][1..] == [];
  }

  lemma {:induction false} AnswersOfAnswerRows(m: seq<(nat, AnswerView)>, variants: seq<Variant>, g: Group,
                                               cs: seq<AnswerCell>, isNull: bool, opts: seq<string>)
    requires KeysDistinct(m) && opts != [] && FreshUsers(m, cs)
    ensures FoldAnswers(m, AnswerRows(variants, g, cs, isNull, opts)) == m + AnswerEntries(cs)
    decreases |cs|
  {
    if cs == [] {
      assert m + [] == m;
    } else {
      var head := AnswerEntries(cs[..1]);
      var tail := AnswerEntries(cs[1..]);
      FirstAnswerBlock(m, variants, g, cs, isNull, opts);
      SingleCellEntries(m, cs);
      FreshUsersTail(m, cs, head);
      AnswersOfAnswerRows(m + head, variants, g, cs[1..], isNull, opts);
      AnswerEntriesCons(cs);
      ConcatAssoc(m, head, tail);
    }
  }

  lemma ConcatAssoc<T>(a: seq<T>, b: seq<T>, c: seq<T>)
    ensures (a + b) + c == a + (b + c)
  {
  }

  lemma AnswerEntriesCons(cs: seq<AnswerCell>)
    requires cs != []
    ensures AnswerEntries(cs) == AnswerEntries(cs[..1]) + AnswerEntries(cs[1..])
  {
    assert cs == cs[..1] + cs[1..];
    AnswerEntriesConcat(cs[..1], cs[1..]);
  }

  lemma SingleCellEntries(m: seq<(nat, AnswerView)>, cs: seq<AnswerCell>)
    requires KeysDistinct(m) && cs != [] && cs[0].userId !in Keys(m)
    ensures KeysDistinct(m + AnswerEntries(cs[..1]))
    ensures forall e :: e in AnswerEntries(cs[..1]) ==> e.0 == cs[0].userId
  {
    assert cs[..1] == [cs[0]];
    AddCellAppends(m, cs[0]);
  }

  lemma {:induction false} AnswerEntriesConcat(a: seq<AnswerCell>, b: seq<AnswerCell>)
    ensures AnswerEntries(a + b) == AnswerEntries(a) + AnswerEntries(b)
    decreases |a|
  {
    if a == [] {
      assert a + b == b;
    } else {
      assert (a + b)[1..] == a[1..] + b;
      AnswerEntriesConcat(a[1..], b);
    }
  }

  predicate DistinctUsers(rows: seq<AnswerRow>) {
    forall i, j :: 0 <= i < j < |rows| ==> rows[i].userId != rows[j].userId
  }

  lemma UniqueAnswersTail(answers: seq<AnswerRow>)
    requires answers != [] && UniqueAnswers(answers)
    ensures UniqueAnswers(answers[1..])
    ensures forall x :: x in answers[1..] && x.groupId == answers[0].groupId ==> x.userId != answers[0].userId
  {
    var tail := answers[1..];
    forall i, j | 0 <= i < j < |tail| && tail[i].groupId == tail[j].groupId
      ensures tail[i].userId != tail[j].userId
    {
      assert tail[i] == answers[i + 1] && tail[j] == answers[j + 1];
    }
    forall x | x in tail && x.groupId == answers[0].groupId ensures x.userId != answers[0].userId {
      var k :| 0 <= k < |tail| && tail[k] == x;
      assert answers[k + 1] == x;
    }
  }

  lemma ConsDistinctUsers(x: AnswerRow, rest: seq<AnswerRow>)
    requires DistinctUsers(rest) && forall y :: y in rest ==> y.userId != x.userId
    ensures DistinctUsers([x] + rest)
  {
    var own := [x] + rest;
    forall i, j | 0 <= i < j < |own| ensures own[i].userId != own[j].userId {
      assert own[j] == rest[j - 1];
      if i == 0 {
        assert rest[j - 1] in rest;
      } else {
        assert own[i] == rest[i - 1];
      }
    }
  }

  /** `UNIQUE(group_id, user_id)`: a group's answers come from distinct users. */
  lemma {:induction false} AnswersInDistinctUsers(answers: seq<AnswerRow>, groupId: nat)
    requires UniqueAnswers(answers)
    ensures DistinctUsers(AnswersIn(answers, groupId))
    decreases |answers|
  {
    if answers != [] {
      UniqueAnswersTail(answers);
      AnswersInDistinctUsers(answers[1..], groupId);
      if answers[0].groupId == groupId {
        ConsDistinctUsers(answers[0], AnswersIn(answers[1..], groupId));
      }
    }
  }

  /** The NULL answer cell of a group without answers contributes no entry. */
  lemma NullCellEntries(users: seq<string>, answers: seq<AnswerRow>, groupId: nat)
    ensures AnswerEntries(AnswerCellsOrNull(users, answers, groupId))
         == AnswerEntries(AnswerCells(users, AnswersIn(answers, groupId)))
  {
    if AnswersIn(answers, groupId) == [] {
      assert [AnswerCell(0, "", "")][1..] == [];
    }
  }

  /** The answer cells of a group name distinct users. */
  lemma CellsFresh<V>(users: seq<string>, answers: seq<AnswerRow>, groupId: nat)
    requires UniqueAnswers(answers)
    ensures FreshUsers<V>([], AnswerCellsOrNull(users, answers, groupId))
  {
    var own := AnswersIn(answers, groupId);
    var cs := AnswerCellsOrNull(users, answers, groupId);
    assert forall i, j :: 0 <= i < j < |cs| ==> cs[i].userId != cs[j].userId by {
      if own != [] {
        AnswersInDistinctUsers(answers, groupId);
        assert forall i :: 0 <= i < |cs| ==> cs[i].userId == own[i].userId;
      }
    }
    assert Keys<nat, V>([]) == [];
  }

  /** A group's answer map lists each answering user once, in table order. */
  lemma GroupAnswers(users: seq<string>, variants: seq<Variant>, options: seq<OptionRow>,
                     answers: seq<AnswerRow>, g: Group)
    requires UniqueAnswers(answers)
    ensures FoldAnswers([], GroupRows(users, variants, options, answers, g))
         == AnswerEntries(AnswerCells(users, AnswersIn(answers, g.id)))
  {
    var cs := AnswerCellsOrNull(users, answers, g.id);
    CellsFresh<AnswerView>(users, answers, g.id);
    AnswersOfAnswerRows([], variants, g, cs, AnswersIn(answers, g.id) == [], OptionCellsOrNull(options, g.id));
    assert [] + AnswerEntries(cs) == AnswerEntries(cs);
    NullCellEntries(users, answers, g.id);
  }

  // ---------------------------------------------------------------------------
  // Variants

  /** The update all rows of one (answer, variant) pair make to the variant map. */
  function AddVCell(m: seq<(nat, VariantView)>, c: AnswerCell, v: VariantCell, canonical: string): seq<(nat, VariantView)> {
    if v.userId != 0 && c.userName != "" && v.text != "" then
      Put(m, v.userId, VariantView(c.userName, v.text, v.text == canonical))
    else m
  }

  /** The variant cells of one answer folded in order. */
  function FoldVCells(m: seq<(nat, VariantView)>, c: AnswerCell, vs: seq<VariantCell>, canonical: string): seq<(nat, VariantView)>
    decreases |vs|
  {
    if vs == [] then m else FoldVCells(AddVCell(m, c, vs[0], canonical), c, vs[1..], canonical)
  }

  lemma {:induction false} FoldVariantsConcat(m: seq<(nat, VariantView)>, a: seq<JoinedRow>, b: seq<JoinedRow>, canonical: string)
    ensures FoldVariants(m, a + b, canonical) == FoldVariants(FoldVariants(m, a, canonical), b, canonical)
    decreases |a|
  {
    if a == [] {
      assert a + b == b;
    } else {
      assert (a + b)[1..] == a[1..] + b;
      FoldVariantsConcat(AddVariant(m, a[0], canonical), a[1..], b, canonical);
    }
  }

  /** Rows that repeat one (answer, variant) pair set the variant once. */
  lemma {:induction false} FoldVariantsSame(m: seq<(nat, VariantView)>, rows: seq<JoinedRow>, c: AnswerCell,
                                            v: VariantCell, canonical: string)
    requires KeysDistinct(m) && rows != []
    requires forall x :: x in rows ==> x.variantUserId == v.userId && x.userName == c.userName && x.variantText == v.text
    ensures FoldVariants(m, rows, canonical) == AddVCell(m, c, v, canonical)
    decreases |rows|
  {
    assert rows[0] in rows;
    if |rows| > 1 {
      forall x | x in rows[1..]
        ensures x.variantUserId == v.userId && x.userName == c.userName && x.variantText == v.text
      {
        assert x in rows;
      }
      FoldVariantsSame(AddVCell(m, c, v, canonical), rows[1..], c, v, canonical);
      if v.userId != 0 && c.userName != "" && v.text != "" {
        var w := VariantView(c.userName, v.text, v.text == canonical);
        PutPut(m, v.userId, w, w);
      }
    }
  }

  /** The rows of one answer, variant cell by variant cell. */
  lemma {:induction false} FoldVariantRows(m: seq<(nat, VariantView)>, g: Group, c: AnswerCell,
                                           vs: seq<VariantCell>, opts: seq<string>)
    requires KeysDistinct(m) && opts != []
    ensures FoldVariants(m, VariantRows(g, c, vs, opts), g.canonical) == FoldVCells(m, c, vs, g.canonical)
    decreases |vs|
  {
    if vs != [] {
      var first := OptionRows(g, c, vs[0], opts);
      var rest := VariantRows(g, c, vs[1..], opts);
      assert VariantRows(g, c, vs, opts) == first + rest;
      FoldVariantsConcat(m, first, rest, g.canonical);
      assert first[0] in first;
      forall x | x in first
        ensures x.variantUserId == vs[0].userId && x.userName == c.userName && x.variantText == vs[0].text
      {
        var i :| 0 <= i < |first| && first[i] == x;
      }
      FoldVariantsSame(m, first, c, vs[0], g.canonical);
      FoldVariantRows(AddVCell(m, c, vs[0], g.canonical), g, c, vs[1..], opts);
    }
  }

  /** Stores the latest text of an answering user, if the user and the text are truthy. */
  function PutLatest(m: seq<(nat, VariantView)>, c: AnswerCell, latest: Option<string>, canonical: string): seq<(nat, VariantView)> {
    if c.userId != 0 && c.userName != "" && latest.Some? then
      Put(m, c.userId, VariantView(c.userName, latest.value, latest.value == canonical))
    else m
  }

  /** The variant cells of one answering user leave that user's latest non-empty text. */
  lemma {:induction false} FoldUserVariants(m: seq<(nat, VariantView)>, c: AnswerCell, own: seq<Variant>, canonical: string)
    requires KeysDistinct(m) && forall i :: 0 <= i < |own| ==> own[i].userId == c.userId
    ensures FoldVCells(m, c, VariantCells(own), canonical) == PutLatest(m, c, LatestText(own), canonical)
    decreases |own|
  {
    if own != [] {
      var cells := VariantCells(own);
      assert cells[1..] == VariantCells(own[1..]);
      var m1 := AddVCell(m, c, cells[0], canonical);
      FoldUserVariants(m1, c, own[1..], canonical);
      var tail := LatestText(own[1..]);
      if c.userId != 0 && c.userName != "" && tail.Some? && own[0].text != "" {
        PutPut(m, c.userId, VariantView(c.userName, own[0].text, own[0].text == canonical),
               VariantView(c.userName, tail.value, tail.value == canonical));
      }
    }
  }

  /** The block of one answer adds at most that user's entry. */
  lemma VariantBlock(m: seq<(nat, VariantView)>, variants: seq<Variant>, g: Group, c: AnswerCell,
                     isNull: bool, opts: seq<string>)
    requires KeysDistinct(m) && opts != [] && c.userId !in Keys(m) && (isNull ==> c.userId == 0)
    ensures FoldVariants(m, VariantRows(g, c, VariantCellsOrNull(variants, g.id, c, isNull), opts), g.canonical)
         == m + VariantEntry(variants, g, c)
  {
    var vcs := VariantCellsOrNull(variants, g.id, c, isNull);
    FoldVariantRows(m, g, c, vcs, opts);
    var own := if isNull then [] else VariantsFor(variants, g.id, c.userId);
    if own == [] {
      assert vcs == [VariantCell(0, "")];
      assert vcs[1..] == [];
      if !isNull {
        assert LatestText(VariantsFor(variants, g.id, c.userId)) == None;
      }
      assert VariantEntry(variants, g, c) == [];
      assert m + [] == m;
    } else {
      forall i | 0 <= i < |own| ensures own[i].userId == c.userId {
        assert own[i] in own;
      }
      FoldUserVariants(m, c, own, g.canonical);
      PutLatestEntry(m, variants, g, c);
    }
  }

  lemma PutLatestEntry(m: seq<(nat, VariantView)>, variants: seq<Variant>, g: Group, c: AnswerCell)
    requires c.userId !in Keys(m)
    ensures PutLatest(m, c, LatestText(VariantsFor(variants, g.id, c.userId)), g.canonical) == m + VariantEntry(variants, g, c)
  {
    if VariantEntry(variants, g, c) == [] {
      assert m + [] == m;
    }
  }

  lemma {:induction false} VariantEntriesCons(variants: seq<Variant>, g: Group, cs: seq<AnswerCell>)
    requires cs != []
    ensures VariantEntries(variants, g, cs) == VariantEntry(variants, g, cs[0]) + VariantEntries(variants, g, cs[1..])
  {
  }

  lemma VariantEntryKey(m: seq<(nat, VariantView)>, variants: seq<Variant>, g: Group, c: AnswerCell)
    requires KeysDistinct(m) && c.userId !in Keys(m)
    ensures KeysDistinct(m + VariantEntry(variants, g, c))
    ensures forall e :: e in VariantEntry(variants, g, c) ==> e.0 == c.userId
  {
    var e := VariantEntry(variants, g, c);
    if e != [] {
      assert m + e == Put(m, c.userId, e[0].1);
    } else {
      assert m + e == m;
    }
  }

  lemma {:induction false} VariantsOfAnswerRows(m: seq<(nat, VariantView)>, variants: seq<Variant>, g: Group,
                                                cs: seq<AnswerCell>, isNull: bool, opts: seq<string>)
    requires KeysDistinct(m) && opts != [] && FreshUsers(m, cs)
    requires isNull ==> forall i :: 0 <= i < |cs| ==> cs[i].userId == 0
    ensures FoldVariants(m, AnswerRows(variants, g, cs, isNull, opts), g.canonical) == m + VariantEntries(variants, g, cs)
    decreases |cs|
  {
    if cs == [] {
      assert m + [] == m;
    } else {
      var vr := VariantRows(g, cs[0], VariantCellsOrNull(variants, g.id, cs[0], isNull), opts);
      var others := AnswerRows(variants, g, cs[1..], isNull, opts);
      var head := VariantEntry(variants, g, cs[0]);
      var tail := VariantEntries(variants, g, cs[1..]);
      assert AnswerRows(variants, g, cs, isNull, opts) == vr + others;
      FoldVariantsConcat(m, vr, others, g.canonical);
      VariantBlock(m, variants, g, cs[0], isNull, opts);
      VariantEntryKey(m, variants, g, cs[0]);
      FreshUsersTail(m, cs, head);
      VariantsOfAnswerRows(m + head, variants, g, cs[1..], isNull, opts);
      VariantEntriesCons(variants, g, cs);
      ConcatAssoc(m, head, tail);
    }
  }

  /** A group's variant map holds, for each answering user in answer order, that user's latest
      non-empty variant. */
  lemma GroupVariants(users: seq<string>, variants: seq<Variant>, options: seq<OptionRow>,
                      answers: seq<AnswerRow>, g: Group)
    requires UniqueAnswers(answers)
    ensures FoldVariants([], GroupRows(users, variants, options, answers, g), g.canonical)
         == VariantEntries(variants, g, AnswerCells(users, AnswersIn(answers, g.id)))
  {
    var cs := AnswerCellsOrNull(users, answers, g.id);
    var isNull := AnswersIn(answers, g.id) == [];
    CellsFresh<VariantView>(users, answers, g.id);
    VariantsOfAnswerRows([], variants, g, cs, isNull, OptionCellsOrNull(options, g.id));
    assert [] + VariantEntries(variants, g, cs) == VariantEntries(variants, g, cs);
    if isNull {
      assert cs == [AnswerCell(0, "", "")];
      assert cs[1..] == [];
    }
  }

  // ---------------------------------------------------------------------------
  // Whole records

  /** The record's three collections evolve independently. */
  lemma {:induction false} FoldGroupFields(acc: GroupAcc, rows: seq<JoinedRow>)
    ensures FoldGroup(acc, rows)
         == GroupAcc(acc.id, acc.canonical, FoldOptions(acc.options, rows), FoldAnswers(acc.answers, rows),
                     FoldVariants(acc.variants, rows, acc.canonical))
    decreases |rows|
  {
    if rows != [] {
      FoldGroupFields(StepGroup(acc, rows[0]), rows[1..]);
    }
  }

  /** Folding a group's rows into a fresh record gives the expected record. */
  lemma GroupFoldIsExpected(users: seq<string>, variants: seq<Variant>, options: seq<OptionRow>,
                            answers: seq<AnswerRow>, g: Group)
    requires ValidOptions(options) && UniqueAnswers(answers)
    ensures FoldGroup(GroupAcc(g.id, g.canonical, [], [], []), GroupRows(users, variants, options, answers, g))
         == ExpectedAcc(users, variants, options, answers, g)
  {
    var rows := GroupRows(users, variants, options, answers, g);
    FoldGroupFields(GroupAcc(g.id, g.canonical, [], [], []), rows);
    GroupOptions(users, variants, options, answers, g);
    GroupAnswers(users, variants, options, answers, g);
    GroupVariants(users, variants, options, answers, g);
  }

  /** Rows of a group whose record is last in the map update that record in place. */
  lemma {:induction false} FoldByIdExisting(pre: seq<(nat, GroupAcc)>, gid: nat, acc: GroupAcc, rows: seq<JoinedRow>)
    requires KeysDistinct(pre) && gid !in Keys(pre)
    requires forall x :: x in rows ==> x.groupId == gid
    ensures FoldById(pre + [(gid, acc)], rows) == pre + [(gid, FoldGroup(acc, rows))]
    decreases |rows|
  {
    if rows != [] {
      assert rows[0] in rows;
      PutLast(pre, gid, acc, StepGroup(acc, rows[0]));
      forall x | x in rows[1..] ensures x.groupId == gid {
        assert x in rows;
      }
      FoldByIdExisting(pre, gid, StepGroup(acc, rows[0]), rows[1..]);
    }
  }

  /** The rows of a group not yet in the map add one record for it at the end. */
  lemma FoldByIdNew(pre: seq<(nat, GroupAcc)>, gid: nat, rows: seq<JoinedRow>)
    requires KeysDistinct(pre) && gid !in Keys(pre) && rows != []
    requires forall x :: x in rows ==> x.groupId == gid
    ensures FoldById(pre, rows) == pre + [(gid, FoldGroup(Fresh(rows[0]), rows))]
  {
    assert rows[0] in rows;
    var acc := StepGroup(Fresh(rows[0]), rows[0]);
    assert StepById(pre, rows[0]) == pre + [(gid, acc)];
    forall x | x in rows[1..] ensures x.groupId == gid {
      assert x in rows;
    }
    FoldByIdExisting(pre, gid, acc, rows[1..]);
  }

  /** The rows of one group, folded into a map that does not hold it yet. */
  lemma GroupBlock(pre: seq<(nat, GroupAcc)>, users: seq<string>, variants: seq<Variant>, options: seq<OptionRow>,
                   answers: seq<AnswerRow>, g: Group)
    requires KeysDistinct(pre) && g.id !in Keys(pre) && ValidOptions(options) && UniqueAnswers(answers)
    ensures FoldById(pre, GroupRows(users, variants, options, answers, g))
         == pre + [(g.id, ExpectedAcc(users, variants, options, answers, g))]
  {
    var rows := GroupRows(users, variants, options, answers, g);
    assert rows[0] in rows;
    assert Fresh(rows[0]) == GroupAcc(g.id, g.canonical, [], [], []);
    FoldByIdNew(pre, g.id, rows);
    GroupFoldIsExpected(users, variants, options, answers, g);
  }

  lemma {:induction false} FoldByIdGroups(pre: seq<(nat, GroupAcc)>, users: seq<string>, groups: seq<Group>,
                                          variants: seq<Variant>, options: seq<OptionRow>, answers: seq<AnswerRow>)
    requires KeysDistinct(pre) && IdsAscending(groups) && ValidOptions(options) && UniqueAnswers(answers)
    requires forall i :: 0 <= i < |groups| ==> groups[i].id !in Keys(pre)
    ensures FoldById(pre, JoinRows(users, groups, variants, options, answers))
         == pre + ExpectedById(users, groups, variants, options, answers)
    decreases |groups|
  {
    if groups == [] {
      assert pre + [] == pre;
    } else {
      var g := groups[0];
      var first := GroupRows(users, variants, options, answers, g);
      var rest := JoinRows(users, groups[1..], variants, options, answers);
      var head := (g.id, ExpectedAcc(users, variants, options, answers, g));
      var tail := ExpectedById(users, groups[1..], variants, options, answers);
      FoldByIdConcat(pre, first, rest);
      GroupBlock(pre, users, variants, options, answers, g);
      NextKeyFresh(pre, groups, head);
      FoldByIdGroups(pre + [head], users, groups[1..], variants, options, answers);
      assert ExpectedById(users, groups, variants, options, answers) == [head] + tail;
      ConcatAssoc(pre, [head], tail);
    }
  }

  lemma NextKeyFresh(pre: seq<(nat, GroupAcc)>, groups: seq<Group>, head: (nat, GroupAcc))
    requires groups != [] && IdsAscending(groups) && head.0 == groups[0].id && KeysDistinct(pre)
    requires forall i :: 0 <= i < |groups| ==> groups[i].id !in Keys(pre)
    ensures KeysDistinct(pre + [head]) && IdsAscending(groups[1..])
    ensures forall i :: 0 <= i < |groups[1..]| ==> groups[1..][i].id !in Keys(pre + [head])
  {
    assert pre + [head] == Put(pre, head.0, head.1);
    var tail := groups[1..];
    forall i | 0 <= i < |tail| ensures tail[i].id !in Keys(pre + [head]) {
      assert tail[i] == groups[i + 1];
    }
  }

  /** The first loop of `listGroupsWithDetails` leaves one record per group, in id order, each the
      expected record of that group. */
  lemma FoldJoinIsExpected(users: seq<string>, groups: seq<Group>, variants: seq<Variant>,
                           options: seq<OptionRow>, answers: seq<AnswerRow>)
    requires IdsAscending(groups) && ValidOptions(options) && UniqueAnswers(answers)
    ensures FoldById([], JoinRows(users, groups, variants, options, answers))
         == ExpectedById(users, groups, variants, options, answers)
  {
    FoldByIdGroups([], users, groups, variants, options, answers);
    assert [] + ExpectedById(users, groups, variants, options, answers) == ExpectedById(users, groups, variants, options, answers);
  }
}
