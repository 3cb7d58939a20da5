/** Case folding letter by letter, and texts that differ in the case of letters only. */
module Letters {
  import opened Texts

  const UPPER := "ABCDEFGHIJKLMNOPQRSTUVWXYZ"
  const LOWER := "abcdefghijklmnopqrstuvwxyz"

  /** The 26 letters are folded, one by one, and nothing else is. */
  lemma {:induction false} LettersFold(c: char)
    ensures forall k :: 0 <= k < 26 ==> LowerChar(UPPER[k]) == LOWER[k] == LowerChar(LOWER[k])
    ensures c !in UPPER ==> LowerChar(c) == c
  {
    forall k | 0 <= k < 26 ensures LowerChar(UPPER[k]) == LOWER[k] == LowerChar(LOWER[k]) { LetterAt(k); }
    if 'A' <= c <= 'Z' {
      LetterAt(c as int - 'A' as int);
      assert c == UPPER[c as int - 'A' as int];
    }
  }

  lemma {:induction false} LetterAt(k: int)
    requires 0 <= k < 26
    ensures UPPER[k] == 'A' + k as char && LOWER[k] == 'a' + k as char
  {
  }

  /** Two characters, one of which may be the capital of the other. */
  predicate SameLetter(a: char, b: char) {
    a == b || exists k :: 0 <= k < 26 && CapitalOf(a, b, k)
  }

  predicate CapitalOf(a: char, b: char, k: int)
    requires 0 <= k < 26
  {
    (a == UPPER[k] && b == LOWER[k]) || (a == LOWER[k] && b == UPPER[k])
  }

  predicate SameLetters(s: string, t: string) {
    |s| == |t| && forall i :: 0 <= i < |s| ==> SameLetter(s[i], t[i])
  }

  lemma {:induction false} FoldsAlike(a: char, b: char)
    ensures SameLetter(a, b) <==> LowerChar(a) == LowerChar(b)
  {
    if k :| 0 <= k < 26 && CapitalOf(a, b, k) { LetterAt(k); }
    if LowerChar(a) == LowerChar(b) && a != b {
      var k := LowerChar(a) as int - 'a' as int;
      LetterAt(k);
      assert CapitalOf(a, b, k);
    }
  }

  /** Case folding makes two texts equal exactly when they differ in the case of letters. */
  lemma {:induction false} FoldedAlike(s: string, t: string)
    ensures SameLetters(s, t) <==> Lower(s) == Lower(t)
  {
    if |s| == |t| {
      forall i | 0 <= i < |s| ensures SameLetter(s[i], t[i]) <==> Lower(s)[i] == Lower(t)[i] { FoldsAlike(s[i], t[i]); }
      assert SameLetters(s, t) ==> Lower(s) == Lower(t);
    }
  }

  lemma {:induction false} TailAlike(s: string, t: string, i: nat)
    requires SameLetters(s, t) && i <= |s|
    ensures SameLetters(s[i..], t[i..])
  {
    forall k | 0 <= k < |s| - i ensures SameLetter(s[i..][k], t[i..][k]) {
      assert SameLetter(s[i + k], t[i + k]);
    }
  }

  lemma {:induction false} SeparatesAlike(a: char, b: char)
    requires SameLetter(a, b)
    ensures Separator(a) <==> Separator(b)
  {
    FoldsAlike(a, b);
  }

  lemma {:induction false} AlikeToo(s: string, t: string, pattern: string)
    requires SameLetters(s, t)
    ensures SameLetters(s, pattern) <==> SameLetters(t, pattern)
  {
    FoldedAlike(s, t);
    FoldedAlike(s, pattern);
    FoldedAlike(t, pattern);
  }
}
