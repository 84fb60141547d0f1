/** The canonical answer key `storeAnswer` stores (src/db.js). */
module AnswerKeys {
  import opened Text

  /** The `chosenAnswers` value of an upload item: an array or a single value. A missing
      element or value converts to the empty string, which is represented by "". */
  datatype ChosenAnswers = Many(items: seq<string>) | Single(text: string)

  /** The separator between the parts of a multi-answer key. */
  const Separator: string := " | "

  /** The elements of `f(x)` for each `x` of `xs`, in order. */
  function FlatMap<T, U>(f: T -> seq<U>, xs: seq<T>): seq<U> {
    if xs == [] then [] else f(xs[0]) + FlatMap(f, xs[1..])
  }

  lemma {:induction false} FlatMapConcat<T, U>(f: T -> seq<U>, a: seq<T>, b: seq<T>)
    ensures FlatMap(f, a + b) == FlatMap(f, a) + FlatMap(f, b)
    decreases |a|
  {
    if a == [] {
      assert a + b == b;
    } else {
      assert (a + b)[1..] == a[1..] + b;
      FlatMapConcat(f, a[1..], b);
    }
  }

  /** Taking the first element out of one sequence and an equal element out of another with
      the same elements leaves two sequences with the same elements. */
  lemma RemoveMatching<T>(p: seq<T>, q: seq<T>, i: nat)
    requires multiset(p) == multiset(q) && p != [] && i < |q| && q[i] == p[0]
    ensures multiset(p[1..]) == multiset(q[..i] + q[i + 1..])
  {
    assert p == [p[0]] + p[1..];
    assert q == q[..i] + [q[i]] + q[i + 1..];
    var q' := q[..i] + q[i + 1..];
    forall e ensures multiset(p[1..])[e] == multiset(q')[e] {
      assert multiset(p)[e] == multiset([p[0]])[e] + multiset(p[1..])[e];
      assert multiset(q)[e] == multiset(q[..i])[e] + multiset([q[i]])[e] + multiset(q[i + 1..])[e];
    }
  }

  /** Mapping two sequences that hold the same elements, in any order and with the same
      repetitions, gives results that again hold the same elements. */
  lemma {:induction false} FlatMapPermutation<T, U>(f: T -> seq<U>, p: seq<T>, q: seq<T>)
    requires multiset(p) == multiset(q)
    ensures multiset(FlatMap(f, p)) == multiset(FlatMap(f, q))
    decreases |p|
  {
    if p == [] {
      assert |q| == |multiset(q)| == 0;
    } else {
      var x := p[0];
      assert x in multiset(q);
      var i :| 0 <= i < |q| && q[i] == x;
      var left, right := q[..i], q[i + 1..];
      RemoveMatching(p, q, i);
      FlatMapPermutation(f, p[1..], left + right);
      assert p == [x] + p[1..];
      FlatMapConcat(f, [x], p[1..]);
      assert q == left + [x] + right;
      FlatMapConcat(f, left + [x], right);
      FlatMapConcat(f, left, [x]);
      FlatMapConcat(f, left, right);
      assert FlatMap(f, [x]) == f(x) by { assert [x][1..] == []; }
    }
  }

  /** One element of `chosenAnswers`, cleaned: trimmed, and dropped when empty. */
  function CleanOne(s: string): seq<string> {
    var t := Trim(s);
    if |t| > 0 then [t] else []
  }

  /** Every element of the array trimmed, the empty
      ones dropped, the order kept. */
  function Cleaned(items: seq<string>): seq<string> {
    if items == [] then [] else CleanOne(items[0]) + Cleaned(items[1..])
  }

  lemma {:induction false} CleanedIsFlatMap(items: seq<string>)
    ensures Cleaned(items) == FlatMap(CleanOne, items)
    decreases |items|
  {
    if items != [] {
      CleanedIsFlatMap(items[1..]);
    }
  }

  lemma CleanedConcat(a: seq<string>, b: seq<string>)
    ensures Cleaned(a + b) == Cleaned(a) + Cleaned(b)
  {
    CleanedIsFlatMap(a + b);
    CleanedIsFlatMap(a);
    CleanedIsFlatMap(b);
    FlatMapConcat(CleanOne, a, b);
  }

  /** Every cleaned part is trimmed and non-empty. */
  lemma {:induction false} CleanedParts(items: seq<string>)
    ensures forall t :: t in Cleaned(items) ==> t != "" && IsTrimmed(t)
    decreases |items|
  {
    if items != [] {
      CleanedParts(items[1..]);
    }
  }

  /** Cleaning two inputs that hold the same elements, in any order and with the same
      repetitions, gives parts that again hold the same elements. */
  lemma CleanedPermutation(p: seq<string>, q: seq<string>)
    requires multiset(p) == multiset(q)
    ensures multiset(Cleaned(p)) == multiset(Cleaned(q))
  {
    FlatMapPermutation(CleanOne, p, q);
    CleanedIsFlatMap(p);
    CleanedIsFlatMap(q);
  }

  /** The parts of a multi-answer key: trimmed, non-empty, in sort order, and exactly the
      cleaned elements (duplicates included). */
  function SortedParts(items: seq<string>): (r: seq<string>)
    ensures Sorted(r)
    ensures multiset(r) == multiset(Cleaned(items))
    ensures forall t :: t in r ==> t != "" && IsTrimmed(t)
  {
    var parts := Sort(Cleaned(items));
    SameElements(parts, Cleaned(items));
    CleanedParts(items);
    parts
  }

  lemma SameElements<T>(a: seq<T>, b: seq<T>)
    requires multiset(a) == multiset(b)
    ensures forall t :: t in a ==> t in b
  {
    forall t | t in a ensures t in b {
      assert t in multiset(a);
    }
  }

  /** The key `storeAnswer` computes: for an array, the sorted cleaned parts joined with
      " | "; for a single value, the value trimmed. */
  function AnswerKey(c: ChosenAnswers): (r: string)
    ensures IsTrimmed(r)
    ensures c.Many? ==> (r == [] <==> Cleaned(c.items) == [])
  {
    match c
    case Many(items) =>
      var parts := SortedParts(items);
      JoinTrimmed(parts, Separator);
      assert |parts| == |multiset(parts)| == |multiset(Cleaned(items))| == |Cleaned(items)|;
      Join(parts, Separator)
    case Single(text) => Trim(text)
  }

  /** Joining trimmed non-empty parts gives a trimmed text, empty only when there are no parts. */
  lemma {:induction false} JoinTrimmed(parts: seq<string>, sep: string)
    requires forall t :: t in parts ==> t != "" && IsTrimmed(t)
    ensures IsTrimmed(Join(parts, sep))
    ensures Join(parts, sep) == [] <==> parts == []
    decreases |parts|
  {
    if |parts| > 1 {
      assert parts[0] in parts;
      assert forall t :: t in parts[1..] ==> t in parts;
      JoinTrimmed(parts[1..], sep);
      var rest := Join(parts[1..], sep);
      var j := parts[0] + sep + rest;
      assert j[0] == parts[0][0];
      assert j[|j| - 1] == rest[|rest| - 1];
    } else if |parts| == 1 {
      assert parts[0] in parts;
    }
  }

  /** The key of a multi-answer does not depend on the order of the answers. */
  lemma AnswerKeyOrderIndependent(p: seq<string>, q: seq<string>)
    requires multiset(p) == multiset(q)
    ensures AnswerKey(Many(p)) == AnswerKey(Many(q))
  {
    CleanedPermutation(p, q);
    SortedUnique(SortedParts(p), SortedParts(q));
  }

  lemma CleanedOne(x: string)
    ensures Cleaned([x]) == CleanOne(x)
  {
    assert [x][1..] == [];
  }

  /** A one-element array and the bare value give the same key. */
  lemma AnswerKeySingleAgrees(x: string)
    ensures AnswerKey(Many([x])) == AnswerKey(Single(x))
  {
    CleanedOne(x);
    SortedUnique(SortedParts([x]), Cleaned([x]));
  }

  lemma CleanedTwice(x: string)
    requires Trim(x) != ""
    ensures Cleaned([x, x]) == [Trim(x), Trim(x)]
  {
    CleanedOne(x);
    assert [x, x][1..] == [x];
  }

  lemma SortedTwice(t: string)
    ensures Sorted([t, t])
  {
    LexLeReflexive(t);
  }

  lemma SortedPartsOfTwice(x: string)
    requires Trim(x) != ""
    ensures SortedParts([x, x]) == [Trim(x), Trim(x)]
  {
    var t := Trim(x);
    var parts := SortedParts([x, x]);
    CleanedTwice(x);
    SortedTwice(t);
    assert multiset(parts) == multiset([t, t]);
    SortedUnique(parts, [t, t]);
  }

  lemma JoinTwo(a: string, b: string, sep: string)
    ensures Join([a, b], sep) == a + sep + b
  {
    assert [a, b][1..] == [b];
  }

  /** Duplicates are kept: the key of `[x, x]` is not the key of `[x]`, so the key is a function
      of the multiset of answers and not of their set. */
  lemma AnswerKeyKeepsDuplicates(x: string)
    requires Trim(x) != ""
    ensures AnswerKey(Many([x, x])) == Trim(x) + Separator + Trim(x)
    ensures AnswerKey(Many([x])) == Trim(x)
    ensures AnswerKey(Many([x, x])) != AnswerKey(Many([x]))
  {
    var t := Trim(x);
    SortedPartsOfTwice(x);
    JoinTwo(t, t, Separator);
    AnswerKeySingleAgrees(x);
    assert |t + Separator + t| > |t|;
  }

  /** An element that trims to nothing does not change the key. */
  lemma AnswerKeyDropsBlank(items: seq<string>, e: string)
    requires Trim(e) == ""
    ensures AnswerKey(Many(items + [e])) == AnswerKey(Many(items))
  {
    CleanedOne(e);
    CleanedConcat(items, [e]);
    assert Cleaned(items + [e]) == Cleaned(items);
  }
}
