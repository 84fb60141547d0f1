/** The comparison form of a question's text (`normalizeQuestionText`, src/db.js). */
module Normalize {
  import opened Wrappers
  import opened Text

  /** The class `\d`. */
  predicate IsDigit(c: char) {
    '0' <= c <= '9'
  }

  /** The class `[\).:-]`. */
  predicate IsEnumPunct(c: char) {
    c == ')' || c == '.' || c == ':' || c == '-'
  }

  /** The end of the longest run of whitespace that starts at `i`. */
  function SkipSpaces(s: string, i: nat): (j: nat)
    requires i <= |s|
    ensures i <= j <= |s|
    ensures forall k :: i <= k < j ==> IsSpace(s[k])
    ensures j == |s| || !IsSpace(s[j])
    decreases |s| - i
  {
    if i < |s| && IsSpace(s[i]) then SkipSpaces(s, i + 1) else i
  }

  /** The end of the longest run of digits that starts at `i`. */
  function SkipDigits(s: string, i: nat): (j: nat)
    requires i <= |s|
    ensures i <= j <= |s|
    ensures forall k :: i <= k < j ==> IsDigit(s[k])
    ensures j == |s| || !IsDigit(s[j])
    decreases |s| - i
  {
    if i < |s| && IsDigit(s[i]) then SkipDigits(s, i + 1) else i
  }

  /** `s[..k]` is a match of `\s*\d+\s*[\).:-]\s*` whose digits are `s[a..b]`
      and whose punctuation mark is `s[c]`. */
  ghost predicate EnumMatch(s: string, a: nat, b: nat, c: nat, k: nat) {
    && a < b <= c < k <= |s|
    && (forall i :: 0 <= i < a ==> IsSpace(s[i]))
    && (forall i :: a <= i < b ==> IsDigit(s[i]))
    && (forall i :: b <= i < c ==> IsSpace(s[i]))
    && IsEnumPunct(s[c])
    && (forall i :: c < i < k ==> IsSpace(s[i]))
  }

  /** Any end of a run of whitespace from `i` that is followed by a non-space is the one
      SkipSpaces finds. */
  lemma {:induction false} SkipSpacesUnique(s: string, i: nat, j: nat)
    requires i <= j <= |s|
    requires forall k :: i <= k < j ==> IsSpace(s[k])
    requires j == |s| || !IsSpace(s[j])
    ensures SkipSpaces(s, i) == j
    decreases |s| - i
  {
    if i < |s| && IsSpace(s[i]) {
      SkipSpacesUnique(s, i + 1, j);
    }
  }

  lemma {:induction false} SkipDigitsUnique(s: string, i: nat, j: nat)
    requires i <= j <= |s|
    requires forall k :: i <= k < j ==> IsDigit(s[k])
    requires j == |s| || !IsDigit(s[j])
    ensures SkipDigits(s, i) == j
    decreases |s| - i
  {
    if i < |s| && IsDigit(s[i]) {
      SkipDigitsUnique(s, i + 1, j);
    }
  }

  /** The digits and the punctuation mark of any match sit where the greedy scan puts them. */
  lemma MatchIsGreedy(s: string, a: nat, b: nat, c: nat, k: nat)
    requires EnumMatch(s, a, b, c, k)
    ensures a == SkipSpaces(s, 0)
    ensures b == SkipDigits(s, a)
    ensures c == SkipSpaces(s, b)
  {
    SkipSpacesUnique(s, 0, a);
    assert !IsDigit(s[b]) by { if b < c { assert IsSpace(s[b]); } }
    SkipDigitsUnique(s, a, b);
    SkipSpacesUnique(s, b, c);
  }

  // The length of the match of the pattern ^\s*\d+\s*[\).:-]\s* at the start of `s`, if there
  // is one. The three classes are disjoint, so the greedy scan finds exactly the match the regular
  // expression engine finds (EnumPrefixIsMatch), with the trailing whitespace taken as far as it goes.
  function EnumPrefix(s: string): (r: Option<nat>)
    ensures r.Some? ==> 0 < r.value <= |s|
    ensures r.Some? ==> r.value == |s| || !IsSpace(s[r.value])
  {
    var a := SkipSpaces(s, 0);
    var b := SkipDigits(s, a);
    var c := SkipSpaces(s, b);
    if a < b && c < |s| && IsEnumPunct(s[c]) then Some(SkipSpaces(s, c + 1)) else None
  }

  /** The prefix found is a match of the pattern, and when none is found there is no match. */
  lemma EnumPrefixIsMatch(s: string)
    ensures EnumPrefix(s).Some? ==> exists a, b, c :: EnumMatch(s, a, b, c, EnumPrefix(s).value)
    ensures EnumPrefix(s).None? ==> forall a, b, c, k :: !EnumMatch(s, a, b, c, k)
  {
    var a := SkipSpaces(s, 0);
    var b := SkipDigits(s, a);
    var c := SkipSpaces(s, b);
    if a < b && c < |s| && IsEnumPunct(s[c]) {
      assert EnumMatch(s, a, b, c, SkipSpaces(s, c + 1));
    } else {
      forall a': nat, b': nat, c': nat, k': nat | EnumMatch(s, a', b', c', k')
        ensures false
      {
        MatchIsGreedy(s, a', b', c', k');
      }
    }
  }

  // The `replace` call of normalizeQuestionText: at most one leading match is removed.
  function StripEnumPrefix(s: string): (r: string)
    ensures EnumPrefix(s).None? ==> r == s
    ensures EnumPrefix(s).Some? ==> r == s[EnumPrefix(s).value..] && |r| < |s|
  {
    match EnumPrefix(s)
    case None => s
    case Some(k) => s[k..]
  }

  lemma ToLowerKeepsTrimmed(s: string)
    requires IsTrimmed(s)
    ensures IsTrimmed(ToLower(s))
  {
  }

  lemma ToLowerIsLower(s: string)
    ensures IsLower(ToLower(s))
  {
    forall i | 0 <= i < |s| ensures !('A' <= ToLower(s)[i] <= 'Z') {
      assert ToLower(s)[i] == LowerChar(s[i]);
    }
  }

  lemma ToLowerOfLower(s: string)
    requires IsLower(s)
    ensures ToLower(s) == s
  {
  }

  /** `normalizeQuestionText`: the empty (or missing) text gives the empty string; otherwise one
      leading enumeration marker is removed, then the text is trimmed and lower-cased. */
  function NormalizeQuestionText(text: string): (r: string)
    ensures IsTrimmed(r) && IsLower(r)
    ensures |r| <= |text|
    ensures text == [] ==> r == []
    ensures text != [] ==> r == ToLower(Trim(StripEnumPrefix(text)))
  {
    if text == [] then []
    else
      var u := StripEnumPrefix(text);
      var t := Trim(u);
      ToLowerKeepsTrimmed(t);
      ToLowerIsLower(t);
      assert |t| <= |u| <= |text|;
      ToLower(t)
  }

  /** Normalizing twice gives the same text exactly when the normalized text does not itself
      start with an enumeration marker: normalization is not idempotent in general. */
  lemma NormalizeIdempotentIff(s: string)
    ensures NormalizeQuestionText(NormalizeQuestionText(s)) == NormalizeQuestionText(s)
        <==> EnumPrefix(NormalizeQuestionText(s)).None?
  {
    var n := NormalizeQuestionText(s);
    if EnumPrefix(n).None? {
      if n != [] {
        TrimOfTrimmed(n);
        ToLowerOfLower(n);
      }
    } else {
      assert |NormalizeQuestionText(n)| <= |StripEnumPrefix(n)| < |n|;
    }
  }

  /** A digit followed by a punctuation mark, then text that starts with a non-space, is a
      marker of length 2. */
  lemma MarkerOfTwo(s: string)
    requires |s| >= 2 && IsDigit(s[0]) && IsEnumPunct(s[1])
    requires |s| == 2 || !IsSpace(s[2])
    ensures EnumPrefix(s) == Some(2)
  {
    assert SkipSpaces(s, 0) == 0;
    assert SkipDigits(s, 1) == 1;
    assert SkipDigits(s, 0) == 1;
    assert SkipSpaces(s, 1) == 1;
    assert SkipSpaces(s, 2) == 2;
  }

  /** A digit, a punctuation mark and one space, then text that starts with a non-space, is a
      marker of length 3. */
  lemma MarkerOfThree(s: string)
    requires |s| >= 4 && IsDigit(s[0]) && IsEnumPunct(s[1]) && IsSpace(s[2]) && !IsSpace(s[3])
    ensures EnumPrefix(s) == Some(3)
  {
    assert SkipSpaces(s, 0) == 0;
    assert SkipDigits(s, 1) == 1;
    assert SkipDigits(s, 0) == 1;
    assert SkipSpaces(s, 1) == 1;
    assert SkipSpaces(s, 3) == 3;
    assert SkipSpaces(s, 2) == 3;
  }

  /** A leading decimal number loses its integer part: the digit and the point read as a
      marker, so "1.5 apples" becomes "5 apples". */
  lemma NormalizeDropsIntegerPart(d: char, p: char, t: string)
    requires IsDigit(d) && IsEnumPunct(p) && (t == [] || !IsSpace(t[0]))
    ensures NormalizeQuestionText([d, p] + t) == ToLower(Trim(t))
  {
    var s := [d, p] + t;
    MarkerOfTwo(s);
    assert s[2..] == t;
  }

  /** Normalization is not idempotent: a marker in front of a normalized text that itself starts
      with a marker (as "1. 2. x" does, in front of "2. x") is removed by the first normalization,
      and the second marker by the second one. */
  lemma NormalizeTwiceDiffers(d: char, p: char, sp: char, t: string)
    requires IsDigit(d) && IsEnumPunct(p) && IsSpace(sp)
    requires t != [] && IsTrimmed(t) && IsLower(t) && EnumPrefix(t).Some?
    ensures NormalizeQuestionText([d, p, sp] + t) == t
    ensures NormalizeQuestionText(NormalizeQuestionText([d, p, sp] + t)) != t
  {
    var s := [d, p, sp] + t;
    if |t| == 1 {
      assert !IsSpace(t[0]);
    }
    assert s[3] == t[0];
    MarkerOfThree(s);
    assert s[3..] == t;
    TrimOfTrimmed(t);
    ToLowerOfLower(t);
    NormalizeIdempotentIff(s);
  }
}
