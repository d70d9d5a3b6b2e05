/**
  Equality, order and substring search on string views, from vlr-util/StringCompare.h. A view is
  an address (0 for the null pointer) and the characters found there; folding is the upper-casing
  of the C locale.
*/
module StringCompare {

  datatype View = View(data: nat, chars: string)

  ghost predicate IsView(v: View) {
    v.data == 0 ==> v.chars == ""
  }

  datatype CaseSensitivity = CaseSensitive | CaseInsensitive

  function ToUpper(c: char): char {
    if 'a' <= c <= 'z' then (c as int - 32) as char else c
  }

  function Upper(s: string): (u: string)
    ensures |u| == |s| && forall i :: 0 <= i < |s| ==> u[i] == ToUpper(s[i])
  {
    seq(|s|, i requires 0 <= i < |s| => ToUpper(s[i]))
  }

  function Min(m: nat, n: nat): nat {
    if m < n then m else n
  }

  // ---------- The comparisons of the source ----------

  /** strncmp, which also stops at a common NUL. */
  function Strncmp(a: string, b: string, i: nat, n: nat): int
    requires i <= n <= |a| && n <= |b|
    decreases n - i
  {
    if i == n then 0
    else if a[i] < b[i] then -1
    else if a[i] > b[i] then 1
    else if a[i] == '\0' then 0
    else Strncmp(a, b, i + 1, n)
  }

  function ByLength(r: int, a: string, b: string): int {
    if r != 0 then r
    else if |b| > Min(|a|, |b|) then -1
    else if |a| > Min(|a|, |b|) then 1
    else 0
  }

  function StringViewCompareCS(a: string, b: string): int {
    ByLength(Strncmp(a, b, 0, Min(|a|, |b|)), a, b)
  }

  /** The folded comparison of the common length: the sign at the first folded difference. */
  function FoldedFrom(a: string, b: string, i: nat): int
    requires i <= Min(|a|, |b|)
    decreases Min(|a|, |b|) - i
  {
    if i == Min(|a|, |b|) then 0
    else if ToUpper(a[i]) < ToUpper(b[i]) then -1
    else if ToUpper(a[i]) > ToUpper(b[i]) then 1
    else FoldedFrom(a, b, i + 1)
  }

  method StringViewCompareCI_ToShorterLength_Compat(lhs: string, rhs: string) returns (r: int)
    ensures r == FoldedFrom(lhs, rhs, 0)
  {
    var smallerLength := Min(|lhs|, |rhs|);
    for i := 0 to smallerLength
      invariant FoldedFrom(lhs, rhs, 0) == FoldedFrom(lhs, rhs, i)
    {
      var l, u := ToUpper(lhs[i]), ToUpper(rhs[i]);
      if l < u {
        return -1;
      }
      if l > u {
        return 1;
      }
    }
    return 0;
  }

  function StringViewCompareCI(a: string, b: string): int {
    ByLength(FoldedFrom(a, b, 0), a, b)
  }

  predicate AreEqualStringViews(cs: CaseSensitivity, l: View, r: View) {
    if l.data == r.data && |l.chars| == |r.chars| then true
    else if |l.chars| == 0 && |r.chars| == 0 then true
    else match cs
      case CaseSensitive => l.chars == r.chars
      case CaseInsensitive =>
        |l.chars| == |r.chars| && l.data != 0 && r.data != 0 && StringViewCompareCI(l.chars, r.chars) == 0
  }

  function CompareStringViews(cs: CaseSensitivity, l: View, r: View): int {
    if l.data == r.data then 0
    else if |l.chars| == 0 && |r.chars| == 0 then 0
    else match cs
      case CaseSensitive => StringViewCompareCS(l.chars, r.chars)
      case CaseInsensitive =>
        if l.data == 0 then -1
        else if r.data == 0 then 1
        else StringViewCompareCI(l.chars, r.chars)
  }

  // ---------- The reference order ----------

  /** Lexicographic order of character strings, as a sign. */
  function Lex(a: string, b: string): int {
    if a == "" && b == "" then 0
    else if a == "" then -1
    else if b == "" then 1
    else if a[0] < b[0] then -1
    else if a[0] > b[0] then 1
    else Lex(a[1..], b[1..])
  }

  /** What a comparison looks at: the characters, folded unless case matters. */
  function Key(cs: CaseSensitivity, s: string): string {
    if cs.CaseSensitive? then s else Upper(s)
  }

  lemma {:induction false} LexZero(a: string, b: string)
    ensures Lex(a, b) == 0 <==> a == b
  {
    if a != "" && b != "" && a[0] == b[0] {
      LexZero(a[1..], b[1..]);
      assert a == [a[0]] + a[1..] && b == [b[0]] + b[1..];
    }
  }

  lemma {:induction false} LexAntisymmetric(a: string, b: string)
    ensures Lex(b, a) == -Lex(a, b)
  {
    if a != "" && b != "" {
      LexAntisymmetric(a[1..], b[1..]);
    }
  }

  lemma {:induction false} LexTransitive(a: string, b: string, c: string)
    requires Lex(a, b) <= 0 && Lex(b, c) <= 0
    ensures Lex(a, c) <= 0
    ensures Lex(a, b) < 0 || Lex(b, c) < 0 ==> Lex(a, c) < 0
  {
    if a != "" && b != "" && c != "" && a[0] == b[0] == c[0] {
      LexTransitive(a[1..], b[1..], c[1..]);
    }
  }

  // ---------- The source's comparisons are the reference order ----------

  predicate NulFree(s: string) {
    forall i :: 0 <= i < |s| ==> s[i] != '\0'
  }

  lemma {:induction false} StrncmpIsLex(a: string, b: string, i: nat)
    requires NulFree(a) && NulFree(b) && i <= Min(|a|, |b|)
    ensures ByLength(Strncmp(a, b, i, Min(|a|, |b|)), a, b) == Lex(a[i..], b[i..])
    decreases |a| - i
  {
    if i < Min(|a|, |b|) {
      assert a[i..][1..] == a[i + 1..] && b[i..][1..] == b[i + 1..];
      StrncmpIsLex(a, b, i + 1);
    }
  }

  lemma {:induction false} FoldedIsLex(a: string, b: string, i: nat)
    requires i <= Min(|a|, |b|)
    ensures ByLength(FoldedFrom(a, b, i), a, b) == Lex(Upper(a)[i..], Upper(b)[i..])
    decreases |a| - i
  {
    if i < Min(|a|, |b|) {
      assert Upper(a)[i..][1..] == Upper(a)[i + 1..] && Upper(b)[i..][1..] == Upper(b)[i + 1..];
      FoldedIsLex(a, b, i + 1);
    }
  }

  /** Views that start at one address hold the same characters as far as both go. */
  ghost predicate Coherent(l: View, r: View) {
    l.data == r.data ==> l.chars <= r.chars || r.chars <= l.chars
  }

  lemma CompareIsLex(cs: CaseSensitivity, l: View, r: View)
    requires IsView(l) && IsView(r)
    requires cs.CaseSensitive? ==> NulFree(l.chars) && NulFree(r.chars)
    requires l.data == r.data ==> l.chars == r.chars
    ensures CompareStringViews(cs, l, r) == Lex(Key(cs, l.chars), Key(cs, r.chars))
  {
    var a, b := l.chars, r.chars;
    LexZero(Key(cs, a), Key(cs, b));
    if cs.CaseSensitive? {
      StrncmpIsLex(a, b, 0);
      assert a[0..] == a && b[0..] == b;
    } else {
      FoldedIsLex(a, b, 0);
      assert Upper(a)[0..] == Upper(a) && Upper(b)[0..] == Upper(b);
    }
  }

  /** Equality is equality of keys, whether or not the strings contain NULs or share a buffer. */
  lemma AreEqualIff(cs: CaseSensitivity, l: View, r: View)
    requires IsView(l) && IsView(r) && Coherent(l, r)
    ensures AreEqualStringViews(cs, l, r) <==> Key(cs, l.chars) == Key(cs, r.chars)
  {
    var a, b := l.chars, r.chars;
    if cs.CaseInsensitive? {
      FoldedIsLex(a, b, 0);
      assert Upper(a)[0..] == Upper(a) && Upper(b)[0..] == Upper(b);
      LexZero(Upper(a), Upper(b));
    }
    assert |Key(cs, a)| == |a| && |Key(cs, b)| == |b|;
  }

  // ---------- Which letters fold, and where they sort ----------

  const LOWER_CASE := "abcdefghijklmnopqrstuvwxyz"
  const UPPER_CASE := "ABCDEFGHIJKLMNOPQRSTUVWXYZ"

  /** The two cases of the letter at an index of the alphabet. */
  predicate IsLetter(c: char, k: nat) {
    k < 26 && (c == LOWER_CASE[k] || c == UPPER_CASE[k])
  }

  /** One character, or the two cases of one letter. */
  predicate SameLetter(c: char, d: char) {
    c == d || exists k: nat | k < 26 :: IsLetter(c, k) && IsLetter(d, k)
  }

  predicate EqualUpToCase(s: string, t: string) {
    |s| == |t| && forall i :: 0 <= i < |s| ==> SameLetter(s[i], t[i])
  }

  lemma {:induction false} LetterAt(k: nat)
    requires k < 26
    ensures LOWER_CASE[k] as int == 97 + k && UPPER_CASE[k] as int == 65 + k
  {
    if k < 13 {
      FirstLetters(k);
    } else {
      LastLetters(k);
    }
  }

  lemma FirstLetters(k: nat)
    requires k < 13
    ensures LOWER_CASE[k] as int == 97 + k && UPPER_CASE[k] as int == 65 + k
  {
    match k
    case 0 => case 1 => case 2 => case 3 => case 4 => case 5 => case 6 =>
    case 7 => case 8 => case 9 => case 10 => case 11 => case _ =>
  }

  lemma LastLetters(k: nat)
    requires 13 <= k < 26
    ensures LOWER_CASE[k] as int == 97 + k && UPPER_CASE[k] as int == 65 + k
  {
    match k
    case 13 => case 14 => case 15 => case 16 => case 17 => case 18 => case 19 =>
    case 20 => case 21 => case 22 => case 23 => case 24 => case _ =>
  }

  lemma FoldsIff(c: char, d: char)
    ensures ToUpper(c) == ToUpper(d) <==> SameLetter(c, d)
  {
    if ToUpper(c) == ToUpper(d) && c != d {
      var k: nat := ToUpper(c) as int - 65;
      LetterAt(k);
      assert IsLetter(c, k) && IsLetter(d, k);
    }
    if k: nat :| k < 26 && IsLetter(c, k) && IsLetter(d, k) {
      LetterAt(k);
    }
  }

  lemma UpperEqualIff(s: string, t: string)
    ensures Upper(s) == Upper(t) <==> EqualUpToCase(s, t)
  {
    forall i | 0 <= i < |s| && i < |t| ensures Upper(s)[i] == Upper(t)[i] <==> SameLetter(s[i], t[i]) {
      FoldsIff(s[i], t[i]);
    }
    if Upper(s) == Upper(t) {
      assert |s| == |Upper(s)| == |t|;
    }
  }

  /** Without case, views are equal exactly if they agree character by character up to the case of letters. */
  lemma EqualWithoutCaseIff(l: View, r: View)
    requires IsView(l) && IsView(r) && Coherent(l, r)
    ensures AreEqualStringViews(CaseInsensitive, l, r) <==> EqualUpToCase(l.chars, r.chars)
  {
    AreEqualIff(CaseInsensitive, l, r);
    UpperEqualIff(l.chars, r.chars);
  }

  /** Letters sort by the alphabet in either case, all of them before an underscore unless case matters. */
  lemma LettersInOrder(c: char, j: nat, d: char, k: nat)
    requires IsLetter(c, j) && IsLetter(d, k)
    ensures CompareStringViews(CaseInsensitive, View(1, [c]), View(2, [d])) == if j < k then -1 else if j > k then 1 else 0
    ensures CompareStringViews(CaseInsensitive, View(1, [c]), View(2, "_")) == -1
    ensures CompareStringViews(CaseSensitive, View(1, [c]), View(2, "_")) == if c == UPPER_CASE[j] then -1 else 1
    ensures CompareStringViews(CaseSensitive, View(1, [c]), View(2, [d])) ==
      if c == d then 0 else if c == UPPER_CASE[j] && (d == LOWER_CASE[k] || j < k) then -1
      else if c == LOWER_CASE[j] && d == LOWER_CASE[k] && j < k then -1 else 1
  {
    LetterAt(j);
    LetterAt(k);
    OneCharacter(CaseInsensitive, c, d);
    OneCharacter(CaseInsensitive, c, '_');
    OneCharacter(CaseSensitive, c, d);
    OneCharacter(CaseSensitive, c, '_');
  }

  lemma OneCharacter(cs: CaseSensitivity, c: char, d: char)
    ensures var k, m := Key(cs, [c])[0], Key(cs, [d])[0];
      CompareStringViews(cs, View(1, [c]), View(2, [d])) == if k < m then -1 else if k > m then 1 else 0
  {
    var a, b := [c], [d];
    assert FoldedFrom(a, b, 1) == 0 && Strncmp(a, b, 1, 1) == 0;
    assert Min(|a|, |b|) == 1;
  }

  /** A string comes after its own beginnings. */
  lemma PrefixComesFirst(cs: CaseSensitivity, s: string, c: char)
    ensures CompareStringViews(cs, View(1, s), View(2, s + [c])) == -1
  {
    SharedBeginning(s, s + [c], 0);
  }

  lemma {:induction false} SharedBeginning(s: string, t: string, i: nat)
    requires s <= t && i <= |s|
    ensures Strncmp(s, t, i, |s|) == 0 && FoldedFrom(s, t, i) == 0
    decreases |s| - i
  {
    if i < |s| {
      SharedBeginning(s, t, i + 1);
    }
  }

  function UpToNul(s: string): string {
    if s == "" || s[0] == '\0' then "" else [s[0]] + UpToNul(s[1..])
  }

  lemma {:induction false} StrncmpZeroIff(a: string, b: string, i: nat)
    requires |a| == |b| && i <= |a|
    ensures Strncmp(a, b, i, |a|) == 0 <==> UpToNul(a[i..]) == UpToNul(b[i..])
    decreases |a| - i
  {
    if i < |a| {
      assert a[i..][1..] == a[i + 1..] && b[i..][1..] == b[i + 1..];
      StrncmpZeroIff(a, b, i + 1);
      var u, v := UpToNul(a[i..]), UpToNul(b[i..]);
      if a[i] != '\0' && b[i] != '\0' {
        assert u[0] == a[i] && u[1..] == UpToNul(a[i + 1..]);
        assert v[0] == b[i] && v[1..] == UpToNul(b[i + 1..]);
      } else if a[i] != '\0' {
        assert u[0] == a[i];
      } else if b[i] != '\0' {
        assert v[0] == b[i];
      }
    }
  }

  /** Case-sensitive Compare sees nothing beyond a NUL: exactly when it is zero, NULs included. */
  lemma CompareCSZeroIff(l: View, r: View)
    requires IsView(l) && IsView(r) && l.data != r.data
    ensures CompareStringViews(CaseSensitive, l, r) == 0
       <==> |l.chars| == |r.chars| && UpToNul(l.chars) == UpToNul(r.chars)
  {
    var a, b := l.chars, r.chars;
    if |a| == |b| {
      StrncmpZeroIff(a, b, 0);
      assert a[0..] == a && b[0..] == b;
    }
  }

  /**
    Compare's zero is equality except for two views of different length at one address, and for
    case-sensitive strings of one length that differ only behind a NUL.
  */
  lemma CompareAgreesIff(cs: CaseSensitivity, l: View, r: View)
    requires IsView(l) && IsView(r) && Coherent(l, r)
    ensures (CompareStringViews(cs, l, r) == 0 <==> AreEqualStringViews(cs, l, r)) <==>
      if l.data == r.data then |l.chars| == |r.chars|
      else !(cs.CaseSensitive? && |l.chars| == |r.chars| && UpToNul(l.chars) == UpToNul(r.chars) && l.chars != r.chars)
  {
    AreEqualIff(cs, l, r);
    assert |Key(cs, l.chars)| == |l.chars| && |Key(cs, r.chars)| == |r.chars|;
    if l.data != r.data {
      if cs.CaseSensitive? {
        CompareCSZeroIff(l, r);
      } else {
        CompareIsLex(cs, l, r);
        LexZero(Key(cs, l.chars), Key(cs, r.chars));
      }
    }
  }

  lemma {:induction false} NulFreeUpToNul(s: string)
    requires NulFree(s)
    ensures UpToNul(s) == s
  {
    if s != "" {
      NulFreeUpToNul(s[1..]);
    }
  }

  /** A string and its own beginning: one address, two lengths, a zero but no equality. */
  lemma SharedAddressTies(cs: CaseSensitivity)
    ensures Coherent(View(1, "ab"), View(1, "a"))
    ensures CompareStringViews(cs, View(1, "ab"), View(1, "a")) == 0 && !AreEqualStringViews(cs, View(1, "ab"), View(1, "a"))
  {}

  /** Two strings that differ behind a NUL: a zero but no equality. */
  lemma NulHidesTheRest()
    ensures CompareStringViews(CaseSensitive, View(1, "a\0b"), View(2, "a\0c")) == 0
    ensures !AreEqualStringViews(CaseSensitive, View(1, "a\0b"), View(2, "a\0c"))
  {
    var a, b := "a\0b", "a\0c";
    assert a[2] != b[2];
    assert Strncmp(a, b, 1, 3) == 0 && Strncmp(a, b, 0, 3) == Strncmp(a, b, 1, 3);
  }

  // ---------- Strict weak order ----------

  ghost predicate Ordinary(vs: set<View>) {
    && (forall v :: v in vs ==> IsView(v))
    && (forall v, w :: v in vs && w in vs && v.data == w.data ==> v.chars == w.chars)
  }

  function Sign(n: int): int {
    if n < 0 then -1 else if n > 0 then 1 else 0
  }

  /** The order that Compare gives to all strings: case-sensitively by the part before a NUL, then by length. */
  function Order(cs: CaseSensitivity, a: string, b: string): int {
    match cs
    case CaseInsensitive => Lex(Upper(a), Upper(b))
    case CaseSensitive =>
      var beforeNul := Lex(UpToNul(a), UpToNul(b));
      if beforeNul != 0 then beforeNul else Sign(|a| - |b|)
  }

  lemma UpToNulFrom(s: string, i: nat)
    requires i < |s|
    ensures UpToNul(s[i..]) == if s[i] == '\0' then "" else [s[i]] + UpToNul(s[i + 1..])
  {
    assert s[i..][1..] == s[i + 1..];
  }

  lemma LexCons(x: char, s: string, y: char, t: string)
    ensures Lex([x] + s, [y] + t) == if x < y then -1 else if x > y then 1 else Lex(s, t)
  {}

  lemma {:induction false} StrncmpIsOrder(a: string, b: string, i: nat)
    requires i <= Min(|a|, |b|)
    ensures ByLength(Strncmp(a, b, i, Min(|a|, |b|)), a, b) ==
      var beforeNul := Lex(UpToNul(a[i..]), UpToNul(b[i..])); if beforeNul != 0 then beforeNul else Sign(|a| - |b|)
    decreases |a| - i
  {
    if i < Min(|a|, |b|) {
      UpToNulFrom(a, i);
      UpToNulFrom(b, i);
      LexCons(a[i], UpToNul(a[i + 1..]), b[i], UpToNul(b[i + 1..]));
      StrncmpIsOrder(a, b, i + 1);
    }
  }

  /** Compare is that order on distinct buffers, whether or not the strings contain NULs. */
  lemma CompareIsOrder(cs: CaseSensitivity, l: View, r: View)
    requires IsView(l) && IsView(r) && (l.data == r.data ==> l.chars == r.chars)
    ensures CompareStringViews(cs, l, r) == Order(cs, l.chars, r.chars)
  {
    var a, b := l.chars, r.chars;
    if cs.CaseSensitive? {
      StrncmpIsOrder(a, b, 0);
      assert a[0..] == a && b[0..] == b;
      LexZero(UpToNul(a), UpToNul(b));
    } else {
      CompareIsLex(cs, l, r);
    }
  }

  lemma OrderAntisymmetric(cs: CaseSensitivity, a: string, b: string)
    ensures Order(cs, b, a) == -Order(cs, a, b)
  {
    if cs.CaseSensitive? {
      LexAntisymmetric(UpToNul(a), UpToNul(b));
    } else {
      LexAntisymmetric(Upper(a), Upper(b));
    }
  }

  lemma OrderTransitive(cs: CaseSensitivity, a: string, b: string, c: string)
    requires Order(cs, a, b) <= 0 && Order(cs, b, c) <= 0
    ensures Order(cs, a, c) <= 0
    ensures Order(cs, a, b) < 0 || Order(cs, b, c) < 0 ==> Order(cs, a, c) < 0
  {
    if cs.CaseSensitive? {
      LexTransitive(UpToNul(a), UpToNul(b), UpToNul(c));
      LexZero(UpToNul(a), UpToNul(b));
      LexZero(UpToNul(b), UpToNul(c));
    } else {
      LexTransitive(Upper(a), Upper(b), Upper(c));
    }
  }

  /** The function objects asCaseSensitive and asCaseInsensitive. */
  predicate Less(cs: CaseSensitivity, l: View, r: View) {
    CompareStringViews(cs, l, r) < 0
  }

  predicate Tied(cs: CaseSensitivity, l: View, r: View) {
    !Less(cs, l, r) && !Less(cs, r, l)
  }

  /**
    A strict weak order for all strings over distinct buffers, as an ordered map needs of its keys. Its
    ties are equality if the strings are NUL-free or case does not matter.
  */
  lemma StrictWeakOrder(cs: CaseSensitivity, u: View, v: View, w: View)
    requires Ordinary({u, v, w})
    ensures !Less(cs, u, u)
    ensures Less(cs, u, v) ==> !Less(cs, v, u)
    ensures Less(cs, u, v) && Less(cs, v, w) ==> Less(cs, u, w)
    ensures Tied(cs, u, v) && Tied(cs, v, w) ==> Tied(cs, u, w)
    ensures (cs.CaseSensitive? ==> NulFree(u.chars) && NulFree(v.chars)) ==> (Tied(cs, u, v) <==> AreEqualStringViews(cs, u, v))
  {
    var a, b, c := u.chars, v.chars, w.chars;
    assert u in {u, v, w} && v in {u, v, w} && w in {u, v, w};
    OrderOf(cs, u, v);
    OrderOf(cs, v, w);
    OrderOf(cs, u, w);
    if Order(cs, a, b) <= 0 && Order(cs, b, c) <= 0 {
      OrderTransitive(cs, a, b, c);
    }
    if Order(cs, c, b) <= 0 && Order(cs, b, a) <= 0 {
      OrderTransitive(cs, c, b, a);
    }
    CompareAgreesIff(cs, u, v);
    if cs.CaseSensitive? && NulFree(a) && NulFree(b) {
      NulFreeUpToNul(a);
      NulFreeUpToNul(b);
    }
  }

  lemma OrderOf(cs: CaseSensitivity, l: View, r: View)
    requires IsView(l) && IsView(r) && (l.data == r.data ==> l.chars == r.chars)
    ensures CompareStringViews(cs, l, r) == Order(cs, l.chars, r.chars)
    ensures CompareStringViews(cs, r, l) == Order(cs, r.chars, l.chars) == -Order(cs, l.chars, r.chars)
  {
    CompareIsOrder(cs, l, r);
    CompareIsOrder(cs, r, l);
    OrderAntisymmetric(cs, l.chars, r.chars);
  }

  // ---------- Substring search ----------

  ghost predicate FoundAt(cs: CaseSensitivity, s: string, sub: string, i: nat) {
    i + |sub| <= |s| && Key(cs, s[i..i + |sub|]) == Key(cs, sub)
  }

  /** The n characters of a view from index i on. */
  function Part(s: View, i: nat, n: nat): View
    requires i + n <= |s.chars|
  {
    View(s.data + i, s.chars[i..i + n])
  }

  method MatchesAt(cs: CaseSensitivity, s: View, sub: View, i: nat) returns (match_: bool)
    requires IsView(s) && IsView(sub) && i + |sub.chars| <= |s.chars| && Coherent(Part(s, i, |sub.chars|), sub)
    ensures match_ <==> FoundAt(cs, s.chars, sub.chars, i)
  {
    var candidate := Part(s, i, |sub.chars|);
    AreEqualIff(cs, candidate, sub);
    match_ := AreEqualStringViews(cs, candidate, sub);
  }

  ghost predicate NotFoundBefore(cs: CaseSensitivity, s: string, sub: string, n: nat) {
    forall i: nat :: i < n ==> !FoundAt(cs, s, sub, i)
  }

  lemma NotFoundNext(cs: CaseSensitivity, s: string, sub: string, n: nat, next: nat)
    requires NotFoundBefore(cs, s, sub, n) && !FoundAt(cs, s, sub, n) && next == n + 1
    ensures NotFoundBefore(cs, s, sub, next)
  {
    forall i: nat | i < next ensures !FoundAt(cs, s, sub, i) {
      if i == n {
        assert !FoundAt(cs, s, sub, n);
      }
    }
  }

  lemma NowhereToBeFound(cs: CaseSensitivity, s: string, sub: string, n: nat)
    requires NotFoundBefore(cs, s, sub, n) && n + |sub| > |s|
    ensures forall i: nat :: !FoundAt(cs, s, sub, i)
  {}

  /** The least index of a match, or -1 for npos. */
  method StringFindIndexOfSubstring(cs: CaseSensitivity, s: View, sub: View) returns (r: int)
    requires IsView(s) && IsView(sub)
    requires forall i: nat :: i + |sub.chars| <= |s.chars| ==> Coherent(Part(s, i, |sub.chars|), sub)
    ensures r == -1 || (0 <= r && FoundAt(cs, s.chars, sub.chars, r))
    ensures forall i: nat :: (r == -1 || i < r) ==> !FoundAt(cs, s.chars, sub.chars, i)
  {
    var start: nat := 0;
    if |s.chars| < |sub.chars| {
      NowhereToBeFound(cs, s.chars, sub.chars, start);
      return -1;
    }
    while start + |sub.chars| <= |s.chars|
      invariant NotFoundBefore(cs, s.chars, sub.chars, start)
    {
      var match_ := MatchesAt(cs, s, sub, start);
      if match_ {
        return start;
      }
      NotFoundNext(cs, s.chars, sub.chars, start, start + 1);
      start := start + 1;
    }
    NowhereToBeFound(cs, s.chars, sub.chars, start);
    return -1;
  }
}
