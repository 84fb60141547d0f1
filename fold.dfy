/** The first loop of `listGroupsWithDetails` (src/db.js:159-181): the joined rows folded into a
    `Map` from group id to a record holding an option `Set` and two `Map`s keyed by user id. */
module Fold {
  import opened Wrappers
  import opened Tables
  import opened OrderedMaps
  import opened Join

  datatype AnswerView = AnswerView(userName: string, chosenAnswer: string)

  datatype VariantView = VariantView(userName: string, questionText: string, matchesCanonical: bool)

  /** The per-group record `g` of the loop. */
  datatype GroupAcc = GroupAcc(
    id: nat, canonical: string,
    options: seq<string>,
    answers: seq<(nat, AnswerView)>,
    variants: seq<(nat, VariantView)>)

  /** A row with an option text adds it to the record's option set. */
  function AddOption(s: seq<string>, r: JoinedRow): seq<string> {
    if r.optionText != "" then SetAdd(s, r.optionText) else s
  }

  /** A row with a truthy answering user and user name sets that user's answer in the record. */
  function AddAnswer(m: seq<(nat, AnswerView)>, r: JoinedRow): seq<(nat, AnswerView)> {
    if r.answerUserId != 0 && r.userName != "" then Put(m, r.answerUserId, AnswerView(r.userName, r.chosenAnswer))
    else m
  }

  /** A row with a truthy variant user, user name and variant text sets that user's variant in the record. */
  function AddVariant(m: seq<(nat, VariantView)>, r: JoinedRow, canonical: string): seq<(nat, VariantView)> {
    if r.variantUserId != 0 && r.userName != "" && r.variantText != "" then
      Put(m, r.variantUserId, VariantView(r.userName, r.variantText, r.variantText == canonical))
    else m
  }

  function StepGroup(g: GroupAcc, r: JoinedRow): GroupAcc {
    g.(options := AddOption(g.options, r),
       answers := AddAnswer(g.answers, r),
       variants := AddVariant(g.variants, r, g.canonical))
  }

  /** The record created for the first row of a group. */
  function Fresh(r: JoinedRow): GroupAcc {
    GroupAcc(r.groupId, r.canonical, [], [], [])
  }

  /** One iteration of the loop over the joined rows. */
  function StepById(byId: seq<(nat, GroupAcc)>, r: JoinedRow): seq<(nat, GroupAcc)> {
    var g := match Get(byId, r.groupId) case None => Fresh(r) case Some(g) => g;
    Put(byId, r.groupId, StepGroup(g, r))
  }

  function FoldById(byId: seq<(nat, GroupAcc)>, rows: seq<JoinedRow>): (r: seq<(nat, GroupAcc)>)
    ensures forall k :: k in Keys(byId) ==> k in Keys(r)
    ensures forall x :: x in rows ==> x.groupId in Keys(r)
    ensures KeysDistinct(byId) ==> KeysDistinct(r)
    decreases |rows|
  {
    if rows == [] then byId else FoldById(StepById(byId, rows[0]), rows[1..])
  }

  function FoldGroup(g: GroupAcc, rows: seq<JoinedRow>): GroupAcc
    decreases |rows|
  {
    if rows == [] then g else FoldGroup(StepGroup(g, rows[0]), rows[1..])
  }

  function FoldOptions(s: seq<string>, rows: seq<JoinedRow>): seq<string>
    decreases |rows|
  {
    if rows == [] then s else FoldOptions(AddOption(s, rows[0]), rows[1..])
  }

  function FoldAnswers(m: seq<(nat, AnswerView)>, rows: seq<JoinedRow>): seq<(nat, AnswerView)>
    decreases |rows|
  {
    if rows == [] then m else FoldAnswers(AddAnswer(m, rows[0]), rows[1..])
  }

  function FoldVariants(m: seq<(nat, VariantView)>, rows: seq<JoinedRow>, canonical: string): seq<(nat, VariantView)>
    decreases |rows|
  {
    if rows == [] then m else FoldVariants(AddVariant(m, rows[0], canonical), rows[1..], canonical)
  }

  lemma {:induction false} FoldByIdConcat(byId: seq<(nat, GroupAcc)>, a: seq<JoinedRow>, b: seq<JoinedRow>)
    ensures FoldById(byId, a + b) == FoldById(FoldById(byId, a), b)
    decreases |a|
  {
    if a != [] {
      assert (a + b)[1..] == a[1..] + b;
      FoldByIdConcat(StepById(byId, a[0]), a[1..], b);
    } else {
      assert a + b == b;
    }
  }

  /** The record a row updates: the stored one, or a fresh one for the group's first row. */
  function RecordFor(byId: seq<(nat, GroupAcc)>, r: JoinedRow): GroupAcc {
    match Get(byId, r.groupId) case None => Fresh(r) case Some(g) => g
  }

  /** The map after the lookup of a row's group: a fresh record is stored for a new group. */
  function Stored(byId: seq<(nat, GroupAcc)>, r: JoinedRow): seq<(nat, GroupAcc)> {
    if Get(byId, r.groupId).None? then Put(byId, r.groupId, Fresh(r)) else byId
  }

  /** Storing the fresh record first and the updated one afterwards is one `set`. */
  lemma StepByIdWrites(byId: seq<(nat, GroupAcc)>, r: JoinedRow)
    requires KeysDistinct(byId)
    ensures StepById(byId, r) == Put(Stored(byId, r), r.groupId, StepGroup(RecordFor(byId, r), r))
  {
    if Get(byId, r.groupId).None? {
      PutPut(byId, r.groupId, Fresh(r), StepGroup(RecordFor(byId, r), r));
    }
  }

  /** Folding one more row is one more step. */
  lemma FoldPrefixStep(rows: seq<JoinedRow>, i: nat)
    requires i < |rows|
    ensures FoldById([], rows[..i + 1]) == StepById(FoldById([], rows[..i]), rows[i])
  {
    FoldByIdConcat([], rows[..i], [rows[i]]);
    assert rows[..i + 1] == rows[..i] + [rows[i]];
  }

  /** The loop, mutating the record in place: the record `g` is the value stored in `byId`, so
      each change is written back with `set`. */
  method FoldJoinedRows(rows: seq<JoinedRow>) returns (byId: seq<(nat, GroupAcc)>)
    ensures byId == FoldById([], rows)
  {
    byId := [];
    for i := 0 to |rows|
      invariant byId == FoldById([], rows[..i]) && KeysDistinct(byId)
    {
      var r := rows[i];
      ghost var before := byId;
      FoldPrefixStep(rows, i);
      StepByIdWrites(byId, r);
      var found := Get(byId, r.groupId);
      var g: GroupAcc;
      if found.None? {
        g := GroupAcc(r.groupId, r.canonical, [], [], []);
        byId := Put(byId, r.groupId, g);
      } else {
        g := found.value;
      }
      assert byId == Stored(before, r) && g == RecordFor(before, r);
      g := UpdateRecord(g, r);
      byId := Put(byId, r.groupId, g);
    }
    assert rows[..|rows|] == rows;
  }

  /** The updates of one row to the record `g`: the option added to its set, the answer and the
      variant set in their maps, each when its columns are truthy. */
  method UpdateRecord(g0: GroupAcc, r: JoinedRow) returns (g: GroupAcc)
    ensures g == StepGroup(g0, r)
  {
    g := g0;
    if r.optionText != "" {
      g := g.(options := SetAdd(g.options, r.optionText));
    }
    if r.answerUserId != 0 && r.userName != "" {
      g := g.(answers := Put(g.answers, r.answerUserId, AnswerView(r.userName, r.chosenAnswer)));
    }
    if r.variantUserId != 0 && r.userName != "" && r.variantText != "" {
      var matchesCanonical := r.variantText == g.canonical;
      g := g.(variants := Put(g.variants, r.variantUserId, VariantView(r.userName, r.variantText, matchesCanonical)));
    }
  }
}
