/** The pure decisions of `renderGroups` and `renderSection` in public/main.js: which section a
    group is shown in, which variants are shown, and how text is escaped for `innerHTML`. */
module Render {
  import opened Text
  import opened Tables
  import opened OrderedMaps
  import opened Fold
  import opened Details
  import opened Views

  // ---------------------------------------------------------------------------
  // Sections (public/main.js:135-163)

  datatype Section = Conflicts | OnlyMe | MissingMe | Normal

  /** Some answer of the group is by the user `name`. */
  predicate Answered(g: GroupView, name: string) {
    exists i :: 0 <= i < |g.answers| && g.answers[i].userName == name
  }

  /** Some answering user is not `me`. */
  predicate OthersAnswered(g: GroupView, me: string) {
    exists i :: 0 <= i < |g.answers| && g.answers[i].userName != me
  }

  /** The `if` chain of the loop in `renderGroups`. */
  function SectionOf(g: GroupView, me: string): (r: Section)
    ensures r == Conflicts <==> g.conflict
    ensures r == Normal <==> !g.conflict && (Answered(g, me) <==> OthersAnswered(g, me))
  {
    if g.conflict then Conflicts
    else if Answered(g, me) && !OthersAnswered(g, me) then OnlyMe
    else if !Answered(g, me) && OthersAnswered(g, me) then MissingMe
    else Normal
  }

  /** The groups of one section, in input order. */
  function InSection(groups: seq<GroupView>, me: string, s: Section): seq<GroupView> {
    if groups == [] then []
    else (if SectionOf(groups[0], me) == s then [groups[0]] else []) + InSection(groups[1..], me, s)
  }

  /** A section holds exactly the groups of the input that belong to it. */
  lemma {:induction false} InSectionMembers(groups: seq<GroupView>, me: string, s: Section)
    ensures forall g :: g in InSection(groups, me, s) <==> g in groups && SectionOf(g, me) == s
    decreases |groups|
  {
    if groups != [] {
      InSectionMembers(groups[1..], me, s);
      assert forall g :: g in groups <==> g == groups[0] || g in groups[1..];
    }
  }

  /** Which section each kind of group goes to: a conflict first, then the answering users. */
  lemma SectionRule(g: GroupView, me: string)
    ensures SectionOf(g, me) == Conflicts <==> g.conflict
    ensures SectionOf(g, me) == OnlyMe <==> !g.conflict && Answered(g, me) && !OthersAnswered(g, me)
    ensures SectionOf(g, me) == MissingMe <==> !g.conflict && !Answered(g, me) && OthersAnswered(g, me)
    ensures !g.conflict && g.answers == [] ==> SectionOf(g, me) == Normal
  {
  }

  /** Every group is in exactly one section: the four sections split the input. */
  lemma SectionsPartition(groups: seq<GroupView>, me: string)
    ensures multiset(groups)
         == multiset(InSection(groups, me, Conflicts)) + multiset(InSection(groups, me, OnlyMe))
          + multiset(InSection(groups, me, MissingMe)) + multiset(InSection(groups, me, Normal))
  {
    var f := g => SectionOf(g, me);
    SelectPartition(groups, f);
    InSectionIsSelect(groups, me, Conflicts);
    InSectionIsSelect(groups, me, OnlyMe);
    InSectionIsSelect(groups, me, MissingMe);
    InSectionIsSelect(groups, me, Normal);
  }

  /** The elements of `xs` that `f` sends to `s`, in order. */
  function Select<T>(xs: seq<T>, f: T -> Section, s: Section): seq<T> {
    if xs == [] then [] else (if f(xs[0]) == s then [xs[0]] else []) + Select(xs[1..], f, s)
  }

  lemma {:induction false} InSectionIsSelect(groups: seq<GroupView>, me: string, s: Section)
    ensures InSection(groups, me, s) == Select(groups, g => SectionOf(g, me), s)
    decreases |groups|
  {
    if groups != [] {
      InSectionIsSelect(groups[1..], me, s);
    }
  }

  lemma {:induction false} SelectPartition<T>(xs: seq<T>, f: T -> Section)
    ensures multiset(xs)
         == multiset(Select(xs, f, Conflicts)) + multiset(Select(xs, f, OnlyMe))
          + multiset(Select(xs, f, MissingMe)) + multiset(Select(xs, f, Normal))
    decreases |xs|
  {
    if xs != [] {
      var x, t := xs[0], xs[1..];
      SelectPartition(t, f);
      MultisetCons(xs);
      SelectCons(xs, f, Conflicts);
      SelectCons(xs, f, OnlyMe);
      SelectCons(xs, f, MissingMe);
      SelectCons(xs, f, Normal);
      var c, o, m, n := multiset(Select(t, f, Conflicts)), multiset(Select(t, f, OnlyMe)),
                        multiset(Select(t, f, MissingMe)), multiset(Select(t, f, Normal));
      var e := multiset{x};
      MultisetShuffle(e, c, o, m, n, f(x));
      calc {
        multiset(xs);
        e + multiset(t);
        e + (c + o + m + n);
        (if f(x) == Conflicts then e else multiset{}) + c + ((if f(x) == OnlyMe then e else multiset{}) + o)
          + ((if f(x) == MissingMe then e else multiset{}) + m) + ((if f(x) == Normal then e else multiset{}) + n);
        multiset(Select(xs, f, Conflicts)) + multiset(Select(xs, f, OnlyMe))
          + multiset(Select(xs, f, MissingMe)) + multiset(Select(xs, f, Normal));
      }
    }
  }

  lemma MultisetCons<T>(xs: seq<T>)
    requires xs != []
    ensures multiset(xs) == multiset{xs[0]} + multiset(xs[1..])
  {
    assert xs == [xs[0]] + xs[1..];
  }

  /** Adding one element to one of four parts adds it to their sum. */
  lemma MultisetShuffle<T>(x: multiset<T>, c: multiset<T>, o: multiset<T>, m: multiset<T>, n: multiset<T>, s: Section)
    ensures x + (c + o + m + n)
         == (if s == Conflicts then x else multiset{}) + c + ((if s == OnlyMe then x else multiset{}) + o)
          + ((if s == MissingMe then x else multiset{}) + m) + ((if s == Normal then x else multiset{}) + n)
  {
  }

  lemma SelectCons<T>(xs: seq<T>, f: T -> Section, s: Section)
    requires xs != []
    ensures multiset(Select(xs, f, s))
         == (if f(xs[0]) == s then multiset{xs[0]} else multiset{}) + multiset(Select(xs[1..], f, s))
  {
  }

  /** The loop of `renderGroups`, pushing each group onto its section. */
  method BucketGroups(groups: seq<GroupView>, me: string)
    returns (conflicts: seq<GroupView>, onlyMe: seq<GroupView>, missingMe: seq<GroupView>, normal: seq<GroupView>)
    ensures conflicts == InSection(groups, me, Conflicts) && onlyMe == InSection(groups, me, OnlyMe)
    ensures missingMe == InSection(groups, me, MissingMe) && normal == InSection(groups, me, Normal)
  {
    conflicts, onlyMe, missingMe, normal := [], [], [], [];
    for i := 0 to |groups|
      invariant conflicts == InSection(groups[..i], me, Conflicts) && onlyMe == InSection(groups[..i], me, OnlyMe)
      invariant missingMe == InSection(groups[..i], me, MissingMe) && normal == InSection(groups[..i], me, Normal)
    {
      var g := groups[i];
      assert groups[..i + 1] == groups[..i] + [g];
      InSectionAppend(groups[..i], g, me, Conflicts);
      InSectionAppend(groups[..i], g, me, OnlyMe);
      InSectionAppend(groups[..i], g, me, MissingMe);
      InSectionAppend(groups[..i], g, me, Normal);
      var iAnswered := Answered(g, me);
      var othersAnswered := OthersAnswered(g, me);
      if g.conflict {
        conflicts := conflicts + [g];
      } else if iAnswered && !othersAnswered {
        onlyMe := onlyMe + [g];
      } else if !iAnswered && othersAnswered {
        missingMe := missingMe + [g];
      } else {
        normal := normal + [g];
      }
    }
    assert groups[..|groups|] == groups;
  }

  /** Pushing a group onto the end of the input pushes it onto the end of its section. */
  lemma InSectionAppend(groups: seq<GroupView>, g: GroupView, me: string, s: Section)
    ensures InSection(groups + [g], me, s) == InSection(groups, me, s) + (if SectionOf(g, me) == s then [g] else [])
  {
    var f := x => SectionOf(x, me);
    InSectionIsSelect(groups + [g], me, s);
    InSectionIsSelect(groups, me, s);
    SelectAppend(groups, g, f, s);
  }

  lemma {:induction false} SelectAppend<T>(xs: seq<T>, x: T, f: T -> Section, s: Section)
    ensures Select(xs + [x], f, s) == Select(xs, f, s) + (if f(x) == s then [x] else [])
    decreases |xs|
  {
    if xs == [] {
      assert Select([x], f, s) == (if f(x) == s then [x] else []) + Select([], f, s);
    } else {
      var head := if f(xs[0]) == s then [xs[0]] else [];
      assert Select(xs + [x], f, s) == head + Select(xs[1..] + [x], f, s) by {
        assert (xs + [x])[1..] == xs[1..] + [x];
        assert (xs + [x])[0] == xs[0];
      }
      SelectAppend(xs[1..], x, f, s);
    }
  }

  // ---------------------------------------------------------------------------
  // Variants shown (public/main.js:195)

  /** The variants not flagged as matching the canonical text, in order. */
  function DifferingVariants(vs: seq<VariantView>): (r: seq<VariantView>)
    ensures forall v :: v in r <==> v in vs && !v.matchesCanonical
    ensures |r| <= |vs|
  {
    if vs == [] then []
    else (if !vs[0].matchesCanonical then [vs[0]] else []) + DifferingVariants(vs[1..])
  }

  /** On a view of the tables, the variants shown are exactly those whose text differs from the
      canonical question. */
  lemma ShownVariants(users: seq<string>, variants: seq<Variant>, options: seq<OptionRow>,
                      answers: seq<AnswerRow>, g: Group)
    requires UniqueAnswers(answers)
    ensures forall v :: v in DifferingVariants(ViewOf(ExpectedAcc(users, variants, options, answers, g)).variants) <==>
      v in ViewOf(ExpectedAcc(users, variants, options, answers, g)).variants && v.questionText != g.canonical
  {
    var acc := ExpectedAcc(users, variants, options, answers, g);
    RecordVariants(users, variants, options, answers, g);
    forall v | v in Values(acc.variants) ensures v.matchesCanonical <==> v.questionText == g.canonical {
      var i :| 0 <= i < |Values(acc.variants)| && Values(acc.variants)[i] == v;
      assert acc.variants[i] in acc.variants;
    }
  }

  // ---------------------------------------------------------------------------
  // escapeHtml (public/main.js:216-223)

  /** Every occurrence of `c` in `s` replaced by `rep`. */
  function ReplaceAll(s: string, c: char, rep: string): (r: string)
    ensures forall d :: d in r ==> (d in s && d != c) || d in rep
  {
    if s == [] then []
    else (if s[0] == c then rep else [s[0]]) + ReplaceAll(s[1..], c, rep)
  }

  /** `escapeHtml`: the five replacements in order, `&` first. */
  function EscapeHtml(s: string): (r: string)
    ensures '<' !in r && '>' !in r && '"' !in r && '\'' !in r
  {
    var amp := ReplaceAll(s, '&', "&amp;");
    EntitiesPlain();
    var lt := ReplaceAll(amp, '<', "&lt;");
    assert '<' !in lt;
    var gt := ReplaceAll(lt, '>', "&gt;");
    assert '<' !in gt && '>' !in gt;
    var quot := ReplaceAll(gt, '"', "&quot;");
    assert '<' !in quot && '>' !in quot && '"' !in quot;
    ReplaceAll(quot, '\'', "&#039;")
  }

  /** No entity contains one of the characters the later replacements remove. */
  lemma EntitiesPlain()
    ensures '<' !in "&lt;" && '<' !in "&gt;" && '<' !in "&quot;" && '<' !in "&#039;"
    ensures '>' !in "&gt;" && '>' !in "&quot;" && '>' !in "&#039;"
    ensures '"' !in "&quot;" && '"' !in "&#039;"
    ensures '\'' !in "&#039;"
  {
  }

  /** The entity of one character, or the character itself: the reference the chain is compared to. */
  function EscapeChar(c: char): string {
    match c
    case '&' => "&amp;"
    case '<' => "&lt;"
    case '>' => "&gt;"
    case '"' => "&quot;"
    case '\'' => "&#039;"
    case _ => [c]
  }

  /** Each character escaped on its own. */
  function EscapeEach(s: string): string {
    if s == [] then [] else EscapeChar(s[0]) + EscapeEach(s[1..])
  }

  /** `replace` distributes over concatenation. */
  lemma {:induction false} ReplaceAllConcat(a: string, b: string, c: char, rep: string)
    ensures ReplaceAll(a + b, c, rep) == ReplaceAll(a, c, rep) + ReplaceAll(b, c, rep)
    decreases |a|
  {
    if a == [] {
      assert a + b == b;
    } else {
      assert (a + b)[1..] == a[1..] + b;
      ReplaceAllConcat(a[1..], b, c, rep);
    }
  }

  /** Replacing a character that does not occur changes nothing. */
  lemma {:induction false} ReplaceAbsent(s: string, c: char, rep: string)
    requires c !in s
    ensures ReplaceAll(s, c, rep) == s
    decreases |s|
  {
    if s != [] {
      assert s[0] in s;
      assert forall x :: x in s[1..] ==> x in s;
      ReplaceAbsent(s[1..], c, rep);
    }
  }

  lemma ReplaceOne(c: char, rep: string)
    ensures ReplaceAll([c], c, rep) == rep
  {
    assert [c][1..] == [];
  }

  lemma EscapeHtmlConcat(a: string, b: string)
    ensures EscapeHtml(a + b) == EscapeHtml(a) + EscapeHtml(b)
  {
    ReplaceAllConcat(a, b, '&', "&amp;");
    var a1, b1 := ReplaceAll(a, '&', "&amp;"), ReplaceAll(b, '&', "&amp;");
    ReplaceAllConcat(a1, b1, '<', "&lt;");
    var a2, b2 := ReplaceAll(a1, '<', "&lt;"), ReplaceAll(b1, '<', "&lt;");
    ReplaceAllConcat(a2, b2, '>', "&gt;");
    var a3, b3 := ReplaceAll(a2, '>', "&gt;"), ReplaceAll(b2, '>', "&gt;");
    ReplaceAllConcat(a3, b3, '"', "&quot;");
    var a4, b4 := ReplaceAll(a3, '"', "&quot;"), ReplaceAll(b3, '"', "&quot;");
    ReplaceAllConcat(a4, b4, '\'', "&#039;");
  }

  /** The chain on one character gives its entity: no replacement text holds a character a
      later replacement looks for, and `&` is replaced before any entity is written. */
  lemma EscapeHtmlChar(c: char)
    ensures EscapeHtml([c]) == EscapeChar(c)
  {
    if c == '&' {
      ReplaceOne(c, "&amp;");
      KeptAfter("&amp;", 1);
    } else if c == '<' {
      ReplaceAbsent([c], '&', "&amp;");
      ReplaceOne(c, "&lt;");
      KeptAfter("&lt;", 2);
    } else if c == '>' {
      ReplaceAbsent([c], '&', "&amp;");
      ReplaceAbsent([c], '<', "&lt;");
      ReplaceOne(c, "&gt;");
      KeptAfter("&gt;", 3);
    } else if c == '"' {
      ReplaceAbsent([c], '&', "&amp;");
      ReplaceAbsent([c], '<', "&lt;");
      ReplaceAbsent([c], '>', "&gt;");
      ReplaceOne(c, "&quot;");
      KeptAfter("&quot;", 4);
    } else if c == '\'' {
      ReplaceAbsent([c], '&', "&amp;");
      ReplaceAbsent([c], '<', "&lt;");
      ReplaceAbsent([c], '>', "&gt;");
      ReplaceAbsent([c], '"', "&quot;");
      ReplaceOne(c, "&#039;");
    } else {
      KeptAfter([c], 0);
    }
  }

  /** The replacements from step `k` on (0 is `&`, 4 is `'`) leave `s` alone. */
  lemma KeptAfter(s: string, k: nat)
    requires k <= 4
    requires k <= 0 ==> '&' !in s
    requires k <= 1 ==> '<' !in s
    requires k <= 2 ==> '>' !in s
    requires k <= 3 ==> '"' !in s
    requires '\'' !in s
    ensures k <= 0 ==> ReplaceAll(s, '&', "&amp;") == s
    ensures k <= 1 ==> ReplaceAll(s, '<', "&lt;") == s
    ensures k <= 2 ==> ReplaceAll(s, '>', "&gt;") == s
    ensures k <= 3 ==> ReplaceAll(s, '"', "&quot;") == s
    ensures ReplaceAll(s, '\'', "&#039;") == s
  {
    if k <= 0 { ReplaceAbsent(s, '&', "&amp;"); }
    if k <= 1 { ReplaceAbsent(s, '<', "&lt;"); }
    if k <= 2 { ReplaceAbsent(s, '>', "&gt;"); }
    if k <= 3 { ReplaceAbsent(s, '"', "&quot;"); }
    ReplaceAbsent(s, '\'', "&#039;");
  }

  /** The chain of `replace` calls escapes each character on its own. */
  lemma {:induction false} EscapeHtmlIsEscapeEach(s: string)
    ensures EscapeHtml(s) == EscapeEach(s)
    decreases |s|
  {
    if s == [] {
      assert ReplaceAll([], '\'', "&#039;") == [];
    } else {
      assert s == [s[0]] + s[1..];
      EscapeHtmlConcat([s[0]], s[1..]);
      EscapeHtmlChar(s[0]);
      EscapeHtmlIsEscapeEach(s[1..]);
    }
  }

  /** The characters `escapeHtml` removes. */
  predicate IsSpecial(c: char) {
    c == '<' || c == '>' || c == '"' || c == '\''
  }

  /** The five entities. */
  const Entities: seq<string> := ["&amp;", "&lt;", "&gt;", "&quot;", "&#039;"]

  /** An entity starts at position `i`. */
  predicate EntityAt(s: string, i: nat)
    requires i <= |s|
  {
    exists k :: 0 <= k < |Entities| && StartsWith(s[i..], Entities[k])
  }

  lemma EscapeCharShape(c: char)
    ensures forall i :: 0 <= i < |EscapeChar(c)| ==> !IsSpecial(EscapeChar(c)[i])
    ensures forall i :: 0 < i < |EscapeChar(c)| ==> EscapeChar(c)[i] != '&'
    ensures EscapeChar(c) != [] && (EscapeChar(c)[0] == '&' ==> EscapeChar(c) in Entities)
  {
  }

  /** The output holds none of `<`, `>`, `"`, `'`, and every `&` in it begins an entity. */
  lemma {:induction false} EscapedIsSafe(s: string)
    ensures forall i :: 0 <= i < |EscapeHtml(s)| ==> !IsSpecial(EscapeHtml(s)[i])
    ensures forall i :: 0 <= i < |EscapeHtml(s)| && EscapeHtml(s)[i] == '&' ==> EntityAt(EscapeHtml(s), i)
  {
    EscapeHtmlIsEscapeEach(s);
    EscapeEachIsSafe(s);
  }

  lemma {:induction false} EscapeEachIsSafe(s: string)
    ensures forall i :: 0 <= i < |EscapeEach(s)| ==> !IsSpecial(EscapeEach(s)[i])
    ensures forall i :: 0 <= i < |EscapeEach(s)| && EscapeEach(s)[i] == '&' ==> EntityAt(EscapeEach(s), i)
    decreases |s|
  {
    if s != [] {
      var head, rest := EscapeChar(s[0]), EscapeEach(s[1..]);
      var r := EscapeEach(s);
      assert r == head + rest;
      EscapeCharShape(s[0]);
      EscapeEachIsSafe(s[1..]);
      forall i | 0 <= i < |r| ensures !IsSpecial(r[i]) && (r[i] == '&' ==> EntityAt(r, i)) {
        if i < |head| {
          assert r[i] == head[i];
          if r[i] == '&' {
            var k :| 0 <= k < |Entities| && Entities[k] == head;
            assert r[i..][..|head|] == head;
          }
        } else {
          assert r[i] == rest[i - |head|];
          if r[i] == '&' {
            assert r[i..] == rest[i - |head|..];
          }
        }
      }
    }
  }

  /** Decoding the five entities: the inverse of the escaping. */
  function Unescape(s: string): string
    decreases |s|
  {
    if s == [] then []
    else if StartsWith(s, "&amp;") then "&" + Unescape(s[5..])
    else if StartsWith(s, "&lt;") then "<" + Unescape(s[4..])
    else if StartsWith(s, "&gt;") then ">" + Unescape(s[4..])
    else if StartsWith(s, "&quot;") then "\"" + Unescape(s[6..])
    else if StartsWith(s, "&#039;") then "'" + Unescape(s[6..])
    else [s[0]] + Unescape(s[1..])
  }

  lemma NotStartsWith(s: string, prefix: string, i: nat)
    requires i < |prefix| && i < |s| && s[i] != prefix[i]
    ensures !StartsWith(s, prefix)
  {
    if |prefix| <= |s| {
      assert s[..|prefix|][i] == s[i];
    }
  }

  lemma StartsWithConcat(e: string, rest: string)
    ensures StartsWith(e + rest, e) && (e + rest)[|e|..] == rest
  {
    assert (e + rest)[..|e|] == e;
  }

  lemma UnescapeAmp(rest: string)
    ensures Unescape("&amp;" + rest) == "&" + Unescape(rest)
  {
    StartsWithConcat("&amp;", rest);
  }

  lemma UnescapeLt(rest: string)
    ensures Unescape("&lt;" + rest) == "<" + Unescape(rest)
  {
    var t := "&lt;" + rest;
    assert t[1] == 'l';
    NotStartsWith(t, "&amp;", 1);
    StartsWithConcat("&lt;", rest);
  }

  lemma UnescapeGt(rest: string)
    ensures Unescape("&gt;" + rest) == ">" + Unescape(rest)
  {
    var t := "&gt;" + rest;
    assert t[1] == 'g';
    NotStartsWith(t, "&amp;", 1);
    NotStartsWith(t, "&lt;", 1);
    StartsWithConcat("&gt;", rest);
  }

  lemma UnescapeQuot(rest: string)
    ensures Unescape("&quot;" + rest) == "\"" + Unescape(rest)
  {
    var t := "&quot;" + rest;
    assert t[1] == 'q';
    NotStartsWith(t, "&amp;", 1);
    NotStartsWith(t, "&lt;", 1);
    NotStartsWith(t, "&gt;", 1);
    StartsWithConcat("&quot;", rest);
  }

  lemma UnescapeApos(rest: string)
    ensures Unescape("&#039;" + rest) == "'" + Unescape(rest)
  {
    var t := "&#039;" + rest;
    assert t[1] == '#';
    NotStartsWith(t, "&amp;", 1);
    NotStartsWith(t, "&lt;", 1);
    NotStartsWith(t, "&gt;", 1);
    NotStartsWith(t, "&quot;", 1);
    StartsWithConcat("&#039;", rest);
  }

  lemma UnescapeChar(c: char, rest: string)
    ensures Unescape(EscapeChar(c) + rest) == [c] + Unescape(rest)
  {
    match c
    case '&' => UnescapeAmp(rest);
    case '<' => UnescapeLt(rest);
    case '>' => UnescapeGt(rest);
    case '"' => UnescapeQuot(rest);
    case '\'' => UnescapeApos(rest);
    case _ =>
      var t := [c] + rest;
      assert t[0] == c && t[1..] == rest;
      NotStartsWith(t, "&amp;", 0);
      NotStartsWith(t, "&lt;", 0);
      NotStartsWith(t, "&gt;", 0);
      NotStartsWith(t, "&quot;", 0);
      NotStartsWith(t, "&#039;", 0);
  }

  /** Escaped text decodes back to the original: the escaping loses nothing. */
  lemma {:induction false} UnescapeEscape(s: string)
    ensures Unescape(EscapeHtml(s)) == s
  {
    EscapeHtmlIsEscapeEach(s);
    UnescapeEscapeEach(s);
  }

  lemma {:induction false} UnescapeEscapeEach(s: string)
    ensures Unescape(EscapeEach(s)) == s
    decreases |s|
  {
    if s != [] {
      UnescapeChar(s[0], EscapeEach(s[1..]));
      UnescapeEscapeEach(s[1..]);
    }
  }
}
