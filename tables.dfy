/** The five tables of the store (src/db.js), each as a sequence of rows in rowid order,
    with the statements that write them as functions from a table to the next one. */
module Tables {
  import opened Wrappers
  import opened Text

  /** The stored `canonical_embedding` text, as `JSON.parse` sees it. */
  datatype StoredEmbedding =
    | Encoded(vector: seq<real>)  // the text of an array of numbers
    | NotArray                    // valid JSON that is not an array
    | Malformed                   // text that `JSON.parse` rejects

  /** A row of `question_groups`. */
  datatype Group = Group(id: nat, canonical: string, embedding: StoredEmbedding)

  /** A row of `question_variants`. */
  datatype Variant = Variant(groupId: nat, userId: nat, text: string)

  /** A row of `answer_options`. */
  datatype OptionRow = OptionRow(groupId: nat, text: string)

  /** A row of `answers`. */
  datatype AnswerRow = AnswerRow(groupId: nat, userId: nat, key: string)

  /** A row of `users`. */
  datatype User = User(id: nat, name: string)

  // ---------------------------------------------------------------------------
  // users: the names in id order; the user with id i + 1 is named users[i]. Users are never
  // deleted, so SQLite's rowids are exactly 1..|users|.

  /** `UNIQUE` on `users.name`, and every name trimmed and non-empty. */
  predicate ValidUsers(users: seq<string>) {
    && (forall i, j :: 0 <= i < j < |users| ==> users[i] != users[j])
    && (forall i :: 0 <= i < |users| ==> users[i] != "" && IsTrimmed(users[i]))
  }

  /** The id of the user with the given name, if any. */
  function UserIdOf(users: seq<string>, name: string): (r: Option<nat>)
    ensures r.Some? ==> 1 <= r.value <= |users| && users[r.value - 1] == name
    ensures r.None? ==> name !in users
  {
    if users == [] then None
    else if users[|users| - 1] == name then Some(|users|)
    else UserIdOf(users[..|users| - 1], name)
  }

  /** The name of the user with the given id as the join with `users` gives it: "" stands for NULL. */
  function NameOf(users: seq<string>, id: nat): string {
    if 1 <= id <= |users| then users[id - 1] else ""
  }

  /** Different users have different names. */
  lemma NameOfInjective(users: seq<string>, u: nat, v: nat)
    requires ValidUsers(users)
    requires NameOf(users, u) != "" && NameOf(users, u) == NameOf(users, v)
    ensures u == v
  {
  }

  // ---------------------------------------------------------------------------
  // question_groups

  /** Group ids are positive and strictly increasing in table order, as rowids are. */
  predicate IdsAscending(groups: seq<Group>) {
    && (forall i :: 0 <= i < |groups| ==> groups[i].id >= 1)
    && (forall i, j :: 0 <= i < j < |groups| ==> groups[i].id < groups[j].id)
  }

  /** The rowid SQLite gives the next inserted group: one more than the largest, or 1 when
      the table is empty (there is no AUTOINCREMENT, so ids restart after a wipe). */
  function NextGroupId(groups: seq<Group>): (r: nat)
    ensures r >= 1
    ensures IdsAscending(groups) ==> forall i :: 0 <= i < |groups| ==> groups[i].id < r
  {
    if groups == [] then 1 else groups[|groups| - 1].id + 1
  }

  /** Appending a group with the next id keeps the ids ascending. */
  lemma AppendKeepsAscending(groups: seq<Group>, g: Group)
    requires IdsAscending(groups) && g.id == NextGroupId(groups)
    ensures IdsAscending(groups + [g])
  {
  }

  // ---------------------------------------------------------------------------
  // answer_options

  /** `UNIQUE(group_id, option_text)`, and every text trimmed and non-empty. */
  predicate ValidOptions(rows: seq<OptionRow>) {
    && (forall i, j :: 0 <= i < j < |rows| ==> rows[i] != rows[j])
    && (forall i :: 0 <= i < |rows| ==> rows[i].text != "" && IsTrimmed(rows[i].text))
  }

  /** `INSERT OR IGNORE INTO answer_options`: the row is added unless it is there already. */
  function InsertOption(rows: seq<OptionRow>, groupId: nat, text: string): (r: seq<OptionRow>)
    ensures forall x :: x in r <==> x in rows || x == OptionRow(groupId, text)
    ensures |r| >= |rows| && r[..|rows|] == rows
    ensures OptionRow(groupId, text) in rows ==> r == rows
    ensures (forall i, j :: 0 <= i < j < |rows| ==> rows[i] != rows[j])
        ==> (forall i, j :: 0 <= i < j < |r| ==> r[i] != r[j])
  {
    if OptionRow(groupId, text) in rows then rows else rows + [OptionRow(groupId, text)]
  }

  /** One element of the `storeOptions` loop: trimmed, and inserted unless empty. */
  function StoreOne(rows: seq<OptionRow>, groupId: nat, opt: string): seq<OptionRow> {
    var cleaned := Trim(opt);
    if cleaned != "" then InsertOption(rows, groupId, cleaned) else rows
  }

  /** The loop of `storeOptions` over an array of options. */
  function AddOptions(rows: seq<OptionRow>, groupId: nat, opts: seq<string>): seq<OptionRow>
    decreases |opts|
  {
    if opts == [] then rows else AddOptions(StoreOne(rows, groupId, opts[0]), groupId, opts[1..])
  }

  /** The options, each trimmed. */
  function TrimAll(opts: seq<string>): (r: seq<string>)
    ensures |r| == |opts| && forall i :: 0 <= i < |opts| ==> r[i] == Trim(opts[i])
  {
    if opts == [] then [] else [Trim(opts[0])] + TrimAll(opts[1..])
  }

  /** After `storeOptions`, the option rows are the old ones followed by new ones. */
  lemma {:induction false} AddOptionsPrefix(rows: seq<OptionRow>, groupId: nat, opts: seq<string>)
    ensures |AddOptions(rows, groupId, opts)| >= |rows| && AddOptions(rows, groupId, opts)[..|rows|] == rows
    decreases |opts|
  {
    if opts != [] {
      var next := StoreOne(rows, groupId, opts[0]);
      AddOptionsPrefix(next, groupId, opts[1..]);
      var r := AddOptions(rows, groupId, opts);
      assert r[..|next|][..|rows|] == r[..|rows|];
    }
  }

  /** A row is there after `storeOptions` exactly when it was before or is the group's
      trimmed, non-empty text of one of the options. */
  lemma {:induction false} AddOptionsMembers(rows: seq<OptionRow>, groupId: nat, opts: seq<string>)
    ensures forall x :: x in AddOptions(rows, groupId, opts) <==>
      x in rows || (x.groupId == groupId && x.text != "" && x.text in TrimAll(opts))
    decreases |opts|
  {
    if opts != [] {
      AddOptionsMembers(StoreOne(rows, groupId, opts[0]), groupId, opts[1..]);
    }
  }

  /** `storeOptions` keeps the option table a set of trimmed, non-empty texts. */
  lemma {:induction false} AddOptionsKeepsValid(rows: seq<OptionRow>, groupId: nat, opts: seq<string>)
    requires ValidOptions(rows)
    ensures ValidOptions(AddOptions(rows, groupId, opts))
    decreases |opts|
  {
    if opts != [] {
      var next := StoreOne(rows, groupId, opts[0]);
      forall i | 0 <= i < |next| ensures next[i].text != "" && IsTrimmed(next[i].text) {
        if i >= |rows| {
          assert next[i] in next;
        }
      }
      AddOptionsKeepsValid(next, groupId, opts[1..]);
    }
  }

  /** Options already stored are not stored again. */
  lemma {:induction false} AddOptionsPresent(rows: seq<OptionRow>, groupId: nat, opts: seq<string>)
    requires forall i :: 0 <= i < |opts| && Trim(opts[i]) != "" ==> OptionRow(groupId, Trim(opts[i])) in rows
    ensures AddOptions(rows, groupId, opts) == rows
    decreases |opts|
  {
    if opts != [] {
      assert forall i :: 0 <= i < |opts[1..]| ==> opts[1..][i] == opts[i + 1];
      AddOptionsPresent(rows, groupId, opts[1..]);
    }
  }

  /** Storing the same options twice is storing them once: options behave as a set. */
  lemma AddOptionsIdempotent(rows: seq<OptionRow>, groupId: nat, opts: seq<string>)
    ensures AddOptions(AddOptions(rows, groupId, opts), groupId, opts) == AddOptions(rows, groupId, opts)
  {
    var r := AddOptions(rows, groupId, opts);
    AddOptionsMembers(rows, groupId, opts);
    forall i | 0 <= i < |opts| && Trim(opts[i]) != "" ensures OptionRow(groupId, Trim(opts[i])) in r {
      assert TrimAll(opts)[i] == Trim(opts[i]);
    }
    AddOptionsPresent(r, groupId, opts);
  }

  // ---------------------------------------------------------------------------
  // answers

  /** `UNIQUE(group_id, user_id)`. */
  predicate UniqueAnswers(rows: seq<AnswerRow>) {
    forall i, j :: 0 <= i < j < |rows| && rows[i].groupId == rows[j].groupId ==> rows[i].userId != rows[j].userId
  }

  /** The position of the row of a user in a group, if there is one (the first, should there be several). */
  function FindAnswer(rows: seq<AnswerRow>, groupId: nat, userId: nat): (r: Option<nat>)
    ensures r.Some? ==> r.value < |rows| && rows[r.value].groupId == groupId && rows[r.value].userId == userId
    ensures r.Some? ==> forall j :: 0 <= j < r.value ==> !(rows[j].groupId == groupId && rows[j].userId == userId)
    ensures r.None? ==> forall i :: 0 <= i < |rows| ==> !(rows[i].groupId == groupId && rows[i].userId == userId)
  {
    if rows == [] then None
    else if rows[0].groupId == groupId && rows[0].userId == userId then Some(0)
    else match FindAnswer(rows[1..], groupId, userId)
      case None => None
      case Some(k) => Some(k + 1)
  }

  /** The stored answer of a user in a group, if any. */
  function AnswerOf(rows: seq<AnswerRow>, groupId: nat, userId: nat): (r: Option<string>)
    ensures r.Some? ==> AnswerRow(groupId, userId, r.value) in rows
    ensures r.None? ==> forall i :: 0 <= i < |rows| ==> !(rows[i].groupId == groupId && rows[i].userId == userId)
  {
    match FindAnswer(rows, groupId, userId)
    case None => None
    case Some(k) => Some(rows[k].key)
  }

  /** The upsert of an answer, updating the key on a conflict of the (group, user) pair:
      the row of the user in the group keeps its place and takes the new key, or a row is appended. */
  function Upsert(rows: seq<AnswerRow>, groupId: nat, userId: nat, key: string): (r: seq<AnswerRow>)
    ensures AnswerOf(r, groupId, userId) == Some(key)
    ensures |r| == |rows| + (if AnswerOf(rows, groupId, userId).None? then 1 else 0)
    ensures forall i :: 0 <= i < |rows| && !(rows[i].groupId == groupId && rows[i].userId == userId) ==> r[i] == rows[i]
  {
    match FindAnswer(rows, groupId, userId)
    case None =>
      FindAppended(rows, AnswerRow(groupId, userId, key));
      rows + [AnswerRow(groupId, userId, key)]
    case Some(k) =>
      FindIsFirst(rows[k := AnswerRow(groupId, userId, key)], groupId, userId, k);
      rows[k := AnswerRow(groupId, userId, key)]
  }

  /** `FindAnswer` gives the first matching position. */
  lemma {:induction false} FindIsFirst(rows: seq<AnswerRow>, groupId: nat, userId: nat, k: nat)
    requires k < |rows| && rows[k].groupId == groupId && rows[k].userId == userId
    requires forall j :: 0 <= j < k ==> !(rows[j].groupId == groupId && rows[j].userId == userId)
    ensures FindAnswer(rows, groupId, userId) == Some(k)
  {
    if k > 0 {
      FindIsFirst(rows[1..], groupId, userId, k - 1);
    }
  }

  lemma FindAppended(rows: seq<AnswerRow>, row: AnswerRow)
    requires FindAnswer(rows, row.groupId, row.userId).None?
    ensures FindAnswer(rows + [row], row.groupId, row.userId) == Some(|rows|)
  {
    FindIsFirst(rows + [row], row.groupId, row.userId, |rows|);
  }

  /** Every other user's answer in every group is what it was. */
  lemma UpsertKeepsOthers(rows: seq<AnswerRow>, groupId: nat, userId: nat, key: string, g: nat, u: nat)
    requires UniqueAnswers(rows) && (g, u) != (groupId, userId)
    ensures AnswerOf(Upsert(rows, groupId, userId, key), g, u) == AnswerOf(rows, g, u)
  {
    var r := Upsert(rows, groupId, userId, key);
    UpsertRows(rows, groupId, userId, key);
    match FindAnswer(rows, g, u)
    case None =>
      FindNone(r, g, u);
    case Some(k) =>
      FindIsFirst(r, g, u, k);
  }

  /** Each row after the upsert is the written pair's or the row that was there before. */
  lemma UpsertRows(rows: seq<AnswerRow>, groupId: nat, userId: nat, key: string)
    ensures forall i :: 0 <= i < |Upsert(rows, groupId, userId, key)| ==>
      var r := Upsert(rows, groupId, userId, key);
      (r[i].groupId == groupId && r[i].userId == userId) || (i < |rows| && r[i] == rows[i])
  {
  }

  lemma FindNone(rows: seq<AnswerRow>, groupId: nat, userId: nat)
    requires forall i :: 0 <= i < |rows| ==> !(rows[i].groupId == groupId && rows[i].userId == userId)
    ensures FindAnswer(rows, groupId, userId).None?
  {
  }

  /** Upserting keeps at most one row per (group, user) pair; with the first ensures of `Upsert`,
      the pair it wrote now has exactly one row, holding the new key. */
  lemma UpsertKeepsUnique(rows: seq<AnswerRow>, groupId: nat, userId: nat, key: string)
    requires UniqueAnswers(rows)
    ensures UniqueAnswers(Upsert(rows, groupId, userId, key))
  {
    var r := Upsert(rows, groupId, userId, key);
    match FindAnswer(rows, groupId, userId)
    case None =>
    case Some(k) =>
      assert forall i :: 0 <= i < |r| ==> r[i].groupId == rows[i].groupId && r[i].userId == rows[i].userId;
  }

  // ---------------------------------------------------------------------------
  // users, writes

  /** The insert-or-ignore of a user: a new name is appended and gets the next id; a
      known name changes nothing. */
  function InsertUser(users: seq<string>, name: string): (r: seq<string>)
    ensures |users| <= |r| <= |users| + 1 && r[..|users|] == users
    ensures |r| == |users| <==> name in users
    ensures name in r && forall x :: x in r ==> x in users || x == name
  {
    if name in users then users else users + [name]
  }

  /** Inserting a trimmed, non-empty name keeps the users valid. */
  lemma InsertUserKeepsValid(users: seq<string>, name: string)
    requires ValidUsers(users) && name != "" && IsTrimmed(name)
    ensures ValidUsers(InsertUser(users, name))
  {
    var r := InsertUser(users, name);
    if name !in users {
      assert r == users + [name];
      forall i | 0 <= i < |users| ensures r[i] != r[|users|] {
        assert users[i] in users;
      }
    }
  }

  /** The id the lookup after the insert finds: the known user's id, or the next id. Other
      users keep their ids. */
  lemma InsertUserIds(users: seq<string>, name: string)
    ensures name in users ==> UserIdOf(InsertUser(users, name), name) == UserIdOf(users, name)
    ensures name !in users ==> UserIdOf(InsertUser(users, name), name) == Some(|users| + 1)
    ensures forall other :: other != name ==> UserIdOf(InsertUser(users, name), other) == UserIdOf(users, other)
  {
    var r := InsertUser(users, name);
    if name !in users {
      assert r[..|r| - 1] == users;
    }
  }

  /** A second insert of the same name changes nothing and finds the same user. */
  lemma InsertUserIdempotent(users: seq<string>, name: string)
    ensures InsertUser(InsertUser(users, name), name) == InsertUser(users, name)
    ensures UserIdOf(InsertUser(InsertUser(users, name), name), name) == UserIdOf(InsertUser(users, name), name)
  {
  }

  /** The invariant the store keeps over its tables. */
  predicate ValidTables(users: seq<string>, groups: seq<Group>, variants: seq<Variant>,
                        options: seq<OptionRow>, answers: seq<AnswerRow>) {
    && ValidUsers(users)
    && IdsAscending(groups)
    && ValidOptions(options)
    && UniqueAnswers(answers)
  }
}
