/** The `getGroupsJoined` query (src/db.js:89-100) as a function of the tables. */
module Join {
  import opened Tables

  /** One result row. A NULL column produced by a LEFT JOIN is 0 or "": every column of the row
      is only ever read through a JavaScript truthiness test, so NULL and 0 / "" act alike. */
  datatype JoinedRow = JoinedRow(
    groupId: nat, canonical: string,
    answerUserId: nat, userName: string, chosenAnswer: string,
    variantUserId: nat, variantText: string,
    optionText: string)

  /** The columns an `answers` row (joined with `users`) contributes, or NULLs. */
  datatype AnswerCell = AnswerCell(userId: nat, userName: string, key: string)

  /** The columns a `question_variants` row contributes, or NULLs. */
  datatype VariantCell = VariantCell(userId: nat, text: string)

  /** The answers of a group, in table order. */
  function AnswersIn(answers: seq<AnswerRow>, groupId: nat): (r: seq<AnswerRow>)
    ensures forall a :: a in r <==> a in answers && a.groupId == groupId
  {
    if answers == [] then []
    else (if answers[0].groupId == groupId then [answers[0]] else []) + AnswersIn(answers[1..], groupId)
  }

  /** The variants of a user in a group, in table order. */
  function VariantsFor(variants: seq<Variant>, groupId: nat, userId: nat): (r: seq<Variant>)
    ensures forall v :: v in r <==> v in variants && v.groupId == groupId && v.userId == userId
  {
    if variants == [] then []
    else
      var head := if variants[0].groupId == groupId && variants[0].userId == userId then [variants[0]] else [];
      head + VariantsFor(variants[1..], groupId, userId)
  }

  /** The option texts of a group, in table order. */
  function OptionTextsIn(options: seq<OptionRow>, groupId: nat): (r: seq<string>)
    ensures forall t :: t in r <==> OptionRow(groupId, t) in options
  {
    if options == [] then []
    else (if options[0].groupId == groupId then [options[0].text] else []) + OptionTextsIn(options[1..], groupId)
  }

  /** The left joins of a group with its answers and of each answer with its user. */
  function AnswerCells(users: seq<string>, answers: seq<AnswerRow>): (r: seq<AnswerCell>)
    ensures |r| == |answers|
    ensures forall i :: 0 <= i < |r| ==> r[i] == AnswerCell(answers[i].userId, NameOf(users, answers[i].userId), answers[i].key)
  {
    if answers == [] then []
    else [AnswerCell(answers[0].userId, NameOf(users, answers[0].userId), answers[0].key)] + AnswerCells(users, answers[1..])
  }

  function AnswerCellsOrNull(users: seq<string>, answers: seq<AnswerRow>, groupId: nat): (r: seq<AnswerCell>)
    ensures r != []
  {
    var own := AnswersIn(answers, groupId);
    if own == [] then [AnswerCell(0, "", "")] else AnswerCells(users, own)
  }

  function VariantCells(variants: seq<Variant>): (r: seq<VariantCell>)
    ensures |r| == |variants|
    ensures forall i :: 0 <= i < |r| ==> r[i] == VariantCell(variants[i].userId, variants[i].text)
  {
    if variants == [] then [] else [VariantCell(variants[0].userId, variants[0].text)] + VariantCells(variants[1..])
  }

  /** The left join with the variants of the same group and the same user as the answer: a NULL answer
      matches no variant. */
  function VariantCellsOrNull(variants: seq<Variant>, groupId: nat, a: AnswerCell, isNull: bool): (r: seq<VariantCell>)
    ensures r != []
  {
    var own := if isNull then [] else VariantsFor(variants, groupId, a.userId);
    if own == [] then [VariantCell(0, "")] else VariantCells(own)
  }

  /** The left join with the options of the group. */
  function OptionCellsOrNull(options: seq<OptionRow>, groupId: nat): (r: seq<string>)
    ensures r != []
    ensures forall t :: t in r ==> t == "" || OptionRow(groupId, t) in options
  {
    var own := OptionTextsIn(options, groupId);
    if own == [] then [""] else own
  }

  /** The rows for one (group, answer, variant) combination: one per option cell. */
  function OptionRows(g: Group, a: AnswerCell, v: VariantCell, opts: seq<string>): (r: seq<JoinedRow>)
    ensures |r| == |opts|
    ensures forall i :: 0 <= i < |r| ==>
      r[i] == JoinedRow(g.id, g.canonical, a.userId, a.userName, a.key, v.userId, v.text, opts[i])
  {
    if opts == [] then []
    else
      var row := JoinedRow(g.id, g.canonical, a.userId, a.userName, a.key, v.userId, v.text, opts[0]);
      [row] + OptionRows(g, a, v, opts[1..])
  }

  /** The rows for one (group, answer) combination, variant by variant. */
  function VariantRows(g: Group, a: AnswerCell, vs: seq<VariantCell>, opts: seq<string>): (r: seq<JoinedRow>)
    ensures forall x :: x in r ==> && x.groupId == g.id && x.canonical == g.canonical && x.optionText in opts
                                   && x.answerUserId == a.userId && x.userName == a.userName && x.chosenAnswer == a.key
    ensures vs != [] && opts != [] ==> r != []
  {
    if vs == [] then [] else OptionRows(g, a, vs[0], opts) + VariantRows(g, a, vs[1..], opts)
  }

  /** The rows for one group, answer by answer. */
  function AnswerRows(variants: seq<Variant>, g: Group, cs: seq<AnswerCell>, isNull: bool, opts: seq<string>): (r: seq<JoinedRow>)
    ensures forall x :: x in r ==> x.groupId == g.id && x.canonical == g.canonical && x.optionText in opts
    ensures cs != [] && opts != [] ==> r != []
  {
    if cs == [] then []
    else
      var first := VariantRows(g, cs[0], VariantCellsOrNull(variants, g.id, cs[0], isNull), opts);
      first + AnswerRows(variants, g, cs[1..], isNull, opts)
  }

  function GroupRows(users: seq<string>, variants: seq<Variant>, options: seq<OptionRow>,
                     answers: seq<AnswerRow>, g: Group): (r: seq<JoinedRow>)
    ensures r != []
    ensures forall x :: x in r ==> x.groupId == g.id && x.canonical == g.canonical
  {
    AnswerRows(variants, g, AnswerCellsOrNull(users, answers, g.id), AnswersIn(answers, g.id) == [],
               OptionCellsOrNull(options, g.id))
  }

  /** The whole result, `ORDER BY g.id ASC`. Group rows come in table order, which is id order
      (`IdsAscending`). Within a group SQL fixes no order; this model nests answers, then variants,
      then options, each in table order. */
  function JoinRows(users: seq<string>, groups: seq<Group>, variants: seq<Variant>,
                    options: seq<OptionRow>, answers: seq<AnswerRow>): (r: seq<JoinedRow>)
    ensures |r| >= |groups|
    ensures forall x :: x in r ==>
      exists i :: 0 <= i < |groups| && x.groupId == groups[i].id && x.canonical == groups[i].canonical
  {
    if groups == [] then []
    else GroupRows(users, variants, options, answers, groups[0]) + JoinRows(users, groups[1..], variants, options, answers)
  }
}
