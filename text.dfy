/** String helpers shared by the analysis modules: Python's `str.lower()`
    on ASCII letters, substring search (`in`), `str.join`, decimal rendering
    and parsing of integers, whitespace splitting, and the code-point order
    that Python's `sorted` uses on strings. */
module Text {

  /** Python's `str.lower()` on one character (ASCII letters only). */
  function LowerChar(c: char): char {
    if 'A' <= c <= 'Z' then (c as int + 32) as char else c
  }

  function Lower(s: string): string {
    seq(|s|, i requires 0 <= i < |s| => LowerChar(s[i]))
  }

  /** Python's `sub in s`: some slice of `s` equals `sub` (the empty string
      is in every string). */
  predicate Contains(s: string, sub: string) {
    exists i | 0 <= i <= |s| - |sub| :: OccursAt(s, sub, i)
  }

  predicate OccursAt(s: string, sub: string, i: nat) {
    i + |sub| <= |s| && s[i..i + |sub|] == sub
  }

  lemma ContainsConcat(a: string, b: string, c: string)
    ensures Contains(a + b + c, b)
  {
    assert OccursAt(a + b + c, b, |a|);
  }

  lemma ContainsShift(pre: string, t: string, sub: string)
    requires Contains(t, sub)
    ensures Contains(pre + t, sub)
  {
    var i :| 0 <= i <= |t| - |sub| && OccursAt(t, sub, i);
    assert (pre + t)[|pre| + i..|pre| + i + |sub|] == t[i..i + |sub|];
    assert OccursAt(pre + t, sub, |pre| + i);
  }

  lemma ContainsExtend(t: string, post: string, sub: string)
    requires Contains(t, sub)
    ensures Contains(t + post, sub)
  {
    var i :| 0 <= i <= |t| - |sub| && OccursAt(t, sub, i);
    assert (t + post)[i..i + |sub|] == t[i..i + |sub|];
    assert OccursAt(t + post, sub, i);
  }

  /** Python's `sep.join(parts)`. */
  function Join(parts: seq<string>, sep: string): string {
    if |parts| == 0 then ""
    else if |parts| == 1 then parts[0]
    else parts[0] + sep + Join(parts[1..], sep)
  }

  /** Every part occurs in the joined string. */
  lemma {:induction false} JoinContains(parts: seq<string>, sep: string, k: nat)
    requires k < |parts|
    ensures Contains(Join(parts, sep), parts[k])
  {
    if |parts| == 1 || k == 0 {
      var t := Join(parts, sep);
      assert t[..|parts[0]|] == parts[0];
      assert OccursAt(t, parts[0], 0);
    } else {
      JoinContains(parts[1..], sep, k - 1);
      ContainsShift(parts[0] + sep, Join(parts[1..], sep), parts[k]);
    }
  }

  // ---------------------------------------------------------------------
  // Decimal digits

  predicate IsDigit(c: char) { '0' <= c <= '9' }

  function DigitValue(c: char): nat
    requires IsDigit(c)
  {
    c as int - '0' as int
  }

  function DigitChar(d: nat): char
    requires d < 10
  {
    ('0' as int + d) as char
  }

  /** Python's `str(n)` for a natural number. */
  function NatToString(n: nat): (s: string)
    ensures |s| > 0
    ensures forall i :: 0 <= i < |s| ==> IsDigit(s[i])
  {
    if n < 10 then [DigitChar(n)] else NatToString(n / 10) + [DigitChar(n % 10)]
  }

  /** Python's `str(i)` for an integer. */
  function IntToString(i: int): string {
    if i < 0 then "-" + NatToString(-i) else NatToString(i)
  }

  /** The value of a string of decimal digits, read left to right. */
  function DigitsValue(s: string): nat
    requires forall i :: 0 <= i < |s| ==> IsDigit(s[i])
  {
    if |s| == 0 then 0 else DigitsValue(s[..|s| - 1]) * 10 + DigitValue(s[|s| - 1])
  }

  /** Reading back the decimal rendering of `n` gives `n`. */
  lemma {:induction false} DigitsValueOfNatToString(n: nat)
    ensures DigitsValue(NatToString(n)) == n
  {
    var s := NatToString(n);
    if n >= 10 {
      DigitsValueOfNatToString(n / 10);
      assert s[..|s| - 1] == NatToString(n / 10);
    }
  }

  // ---------------------------------------------------------------------
  // Whitespace and `str.split()`

  /** The characters that Python's `str.split()` treats as whitespace
      (`str.isspace`): the ASCII separators and controls, NEL, no-break
      space, the Ogham space mark, the general-punctuation spaces, the line
      and paragraph separators, the narrow and medium mathematical spaces
      and the ideographic space. */
  predicate IsSpace(c: char) {
    ('\U{9}' <= c <= '\U{D}') || ('\U{1C}' <= c <= '\U{20}')
    || c == '\U{85}' || c == '\U{A0}' || c == '\U{1680}'
    || ('\U{2000}' <= c <= '\U{200A}')
    || c == '\U{2028}' || c == '\U{2029}' || c == '\U{202F}' || c == '\U{205F}'
    || c == '\U{3000}'
  }

  /** A decimal rendering holds no whitespace. */
  lemma NatToStringNoSpace(n: nat)
    ensures forall i :: 0 <= i < |NatToString(n)| ==> !IsSpace(NatToString(n)[i])
  {
    var s := NatToString(n);
    forall i | 0 <= i < |s| ensures !IsSpace(s[i]) {
      assert IsDigit(s[i]);
    }
  }

  predicate AllSpace(s: string) {
    forall i :: 0 <= i < |s| ==> IsSpace(s[i])
  }

  function TrimLeft(s: string): string {
    if |s| > 0 && IsSpace(s[0]) then TrimLeft(s[1..]) else s
  }

  function TakeWord(s: string): string {
    if |s| == 0 || IsSpace(s[0]) then "" else [s[0]] + TakeWord(s[1..])
  }

  /** `s.split()[0]`, or "" when `s.split()` is empty. */
  function FirstWord(s: string): (w: string)
    ensures forall i :: 0 <= i < |w| ==> !IsSpace(w[i])
    ensures w == "" <==> AllSpace(s)
  {
    TrimLeftAllSpace(s);
    TakeWordProps(TrimLeft(s));
    TakeWord(TrimLeft(s))
  }

  lemma {:induction false} TrimLeftAllSpace(s: string)
    ensures |TrimLeft(s)| == 0 || !IsSpace(TrimLeft(s)[0])
    ensures |TrimLeft(s)| == 0 <==> AllSpace(s)
  {
    if |s| > 0 && IsSpace(s[0]) {
      TrimLeftAllSpace(s[1..]);
      assert AllSpace(s) <==> AllSpace(s[1..]) by {
        if AllSpace(s[1..]) {
          forall i | 0 <= i < |s| ensures IsSpace(s[i]) {
            if i > 0 { assert s[i] == s[1..][i - 1]; }
          }
        }
      }
    }
  }

  lemma {:induction false} TakeWordProps(s: string)
    ensures forall i :: 0 <= i < |TakeWord(s)| ==> !IsSpace(TakeWord(s)[i])
    ensures |TakeWord(s)| == 0 <==> (|s| == 0 || IsSpace(s[0]))
    ensures TakeWord(s) <= s
  {
    if |s| > 0 && !IsSpace(s[0]) {
      TakeWordProps(s[1..]);
    }
  }

  /** Leading whitespace, a word and a whitespace-led rest: the word is the
      first field of `str.split()`. */
  lemma {:induction false} FirstWordOf(ws: string, word: string, rest: string)
    requires AllSpace(ws)
    requires |word| > 0 && forall i :: 0 <= i < |word| ==> !IsSpace(word[i])
    requires |rest| == 0 || IsSpace(rest[0])
    ensures FirstWord(ws + word + rest) == word
  {
    TrimLeftPrefix(ws, word + rest);
    assert ws + word + rest == ws + (word + rest);
    TakeWordPrefix(word, rest);
  }

  lemma {:induction false} TrimLeftPrefix(ws: string, s: string)
    requires AllSpace(ws)
    requires |s| > 0 && !IsSpace(s[0])
    ensures TrimLeft(ws + s) == s
  {
    if |ws| > 0 {
      assert (ws + s)[1..] == ws[1..] + s;
      TrimLeftPrefix(ws[1..], s);
    }
  }

  lemma {:induction false} TakeWordPrefix(word: string, rest: string)
    requires forall i :: 0 <= i < |word| ==> !IsSpace(word[i])
    requires |rest| == 0 || IsSpace(rest[0])
    ensures TakeWord(word + rest) == word
  {
    if |word| > 0 {
      assert (word + rest)[1..] == word[1..] + rest;
      TakeWordPrefix(word[1..], rest);
    }
  }

  // ---------------------------------------------------------------------
  // Code-point order on strings and sorting

  /** Python's `a <= b` on strings: lexicographic by code point, a proper
      prefix first. */
  predicate StrLe(a: string, b: string) {
    if |a| == 0 then true
    else if |b| == 0 then false
    else if a[0] != b[0] then a[0] < b[0]
    else StrLe(a[1..], b[1..])
  }

  lemma {:induction false} StrLeReflexive(a: string)
    ensures StrLe(a, a)
  {
    if |a| > 0 { StrLeReflexive(a[1..]); }
  }

  lemma {:induction false} StrLeTotal(a: string, b: string)
    ensures StrLe(a, b) || StrLe(b, a)
  {
    if |a| > 0 && |b| > 0 && a[0] == b[0] { StrLeTotal(a[1..], b[1..]); }
  }

  lemma {:induction false} StrLeAntisymmetric(a: string, b: string)
    requires StrLe(a, b) && StrLe(b, a)
    ensures a == b
  {
    if |a| > 0 && |b| > 0 {
      StrLeAntisymmetric(a[1..], b[1..]);
      assert a == [a[0]] + a[1..] && b == [b[0]] + b[1..];
    }
  }

  lemma {:induction false} StrLeTransitive(a: string, b: string, c: string)
    requires StrLe(a, b) && StrLe(b, c)
    ensures StrLe(a, c)
  {
    if |a| > 0 && |b| > 0 && |c| > 0 && a[0] == b[0] && b[0] == c[0] {
      StrLeTransitive(a[1..], b[1..], c[1..]);
    }
  }

  predicate Sorted(s: seq<string>) {
    forall i, j :: 0 <= i < j < |s| ==> StrLe(s[i], s[j])
  }

  function Insert(x: string, s: seq<string>): seq<string> {
    if |s| == 0 then [x]
    else if StrLe(x, s[0]) then [x] + s
    else [s[0]] + Insert(x, s[1..])
  }

  /** Python's `sorted` on a list of strings (an insertion sort). */
  function Sort(s: seq<string>): seq<string> {
    if |s| == 0 then [] else Insert(s[0], Sort(s[1..]))
  }

  lemma {:induction false} InsertSorted(x: string, s: seq<string>)
    requires Sorted(s)
    ensures Sorted(Insert(x, s))
    ensures multiset(Insert(x, s)) == multiset(s) + multiset{x}
  {
    if |s| == 0 {
    } else if StrLe(x, s[0]) {
      forall j | 0 < j < |s| ensures StrLe(x, s[j]) { StrLeTransitive(x, s[0], s[j]); }
    } else {
      InsertSorted(x, s[1..]);
      InsertLaterSorted(x, s);
    }
  }

  /** Inserting past the head, given the result for the tail. */
  lemma InsertLaterSorted(x: string, s: seq<string>)
    requires Sorted(s) && 0 < |s| && !StrLe(x, s[0])
    requires Sorted(Insert(x, s[1..]))
    requires multiset(Insert(x, s[1..])) == multiset(s[1..]) + multiset{x}
    ensures Sorted(Insert(x, s))
    ensures multiset(Insert(x, s)) == multiset(s) + multiset{x}
  {
    var r := Insert(x, s[1..]);
    assert Insert(x, s) == [s[0]] + r;
    StrLeTotal(x, s[0]);
    LowerBound(s, x, r);
    ConsSorted(s[0], r);
    ConsMultiset(s, x, r);
  }

  /** The head of the ordered `s` is below every element of `r`, whose
      elements are those of the tail of `s` plus `x`, which the head is below. */
  lemma LowerBound(s: seq<string>, x: string, r: seq<string>)
    requires Sorted(s) && 0 < |s| && StrLe(s[0], x)
    requires multiset(r) == multiset(s[1..]) + multiset{x}
    ensures forall j :: 0 <= j < |r| ==> StrLe(s[0], r[j])
  {
    forall j | 0 <= j < |r| ensures StrLe(s[0], r[j]) {
      assert r[j] in multiset(r);
      if r[j] != x {
        assert r[j] in s[1..];
        var k :| 0 <= k < |s| - 1 && s[1..][k] == r[j];
        assert s[k + 1] == r[j];
      }
    }
  }

  lemma ConsMultiset(s: seq<string>, x: string, r: seq<string>)
    requires 0 < |s| && multiset(r) == multiset(s[1..]) + multiset{x}
    ensures multiset([s[0]] + r) == multiset(s) + multiset{x}
  {
    assert s == [s[0]] + s[1..];
  }

  lemma ConsSorted(lo: string, r: seq<string>)
    requires Sorted(r) && forall j :: 0 <= j < |r| ==> StrLe(lo, r[j])
    ensures Sorted([lo] + r)
  {
    var s := [lo] + r;
    forall i, j | 0 <= i < j < |s| ensures StrLe(s[i], s[j]) {
      assert s[j] == r[j - 1];
      if i > 0 { assert s[i] == r[i - 1]; }
    }
  }

  /** `Sort` returns an ordered permutation of its input. */
  lemma {:induction false} SortCorrect(s: seq<string>)
    ensures Sorted(Sort(s))
    ensures multiset(Sort(s)) == multiset(s)
  {
    if |s| > 0 {
      SortCorrect(s[1..]);
      InsertSorted(s[0], Sort(s[1..]));
      assert s == [s[0]] + s[1..];
    }
  }

  /** Two ordered permutations of one multiset start with the same string. */
  lemma SortedHeads(a: seq<string>, b: seq<string>)
    requires Sorted(a) && Sorted(b) && |a| > 0
    requires multiset(a) == multiset(b)
    ensures |b| > 0 && a[0] == b[0]
  {
    assert |b| == |multiset(b)| == |a|;
    assert a[0] in multiset(b) && b[0] in multiset(a);
    var i :| 0 <= i < |b| && b[i] == a[0];
    var j :| 0 <= j < |a| && a[j] == b[0];
    StrLeReflexive(a[0]);
    assert StrLe(b[0], a[0]) by { if i > 0 { } }
    assert StrLe(a[0], b[0]) by { if j > 0 { } }
    StrLeAntisymmetric(a[0], b[0]);
  }

  /** Two ordered permutations of one multiset are equal. */
  lemma {:induction false} SortedUnique(a: seq<string>, b: seq<string>)
    requires Sorted(a) && Sorted(b)
    requires multiset(a) == multiset(b)
    ensures a == b
  {
    if |a| == 0 {
      assert |multiset(b)| == 0;
    } else {
      SortedHeads(a, b);
      SortedTail(a);
      SortedTail(b);
      SortedUnique(a[1..], b[1..]);
      assert a == [a[0]] + a[1..] == [b[0]] + b[1..] == b;
    }
  }

  lemma SortedTail(a: seq<string>)
    requires Sorted(a) && 0 < |a|
    ensures Sorted(a[1..])
    ensures multiset(a[1..]) == multiset(a) - multiset{a[0]}
  {
    assert a == [a[0]] + a[1..];
    forall i, j | 0 <= i < j < |a| - 1 ensures StrLe(a[1..][i], a[1..][j]) {
      assert a[1..][i] == a[i + 1] && a[1..][j] == a[j + 1];
    }
  }

  /** Sorting forgets the order of its input. */
  lemma SortPermutationInvariant(a: seq<string>, b: seq<string>)
    requires multiset(a) == multiset(b)
    ensures Sort(a) == Sort(b)
  {
    SortCorrect(a);
    SortCorrect(b);
    SortedUnique(Sort(a), Sort(b));
  }
}
