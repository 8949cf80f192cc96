/**
 * The two string operations the queries rely on: the ordering pandas uses
 * when it sorts the `timestamp` column (Python's comparison of `str`, code
 * point by code point), and SQLite's `LIKE '%marker%'`, which folds the case
 * of ASCII letters and of no other character.
 */
module Text {

  /** Python's `a <= b` on strings: lexicographic, a proper prefix first. */
  predicate StrLe(a: string, b: string)
    decreases |a|
  {
    if a == [] then true
    else if b == [] then false
    else if a[0] != b[0] then a[0] < b[0]
    else StrLe(a[1..], b[1..])
  }

  lemma {:induction false} StrLeTotal(a: string, b: string)
    ensures StrLe(a, b) || StrLe(b, a)
    decreases |a|
  {
    if a != [] && b != [] && a[0] == b[0] {
      StrLeTotal(a[1..], b[1..]);
    }
  }

  lemma {:induction false} StrLeTransitive(a: string, b: string, c: string)
    requires StrLe(a, b) && StrLe(b, c)
    ensures StrLe(a, c)
    decreases |a|
  {
    if a != [] && b != [] && c != [] && a[0] == b[0] && b[0] == c[0] {
      StrLeTransitive(a[1..], b[1..], c[1..]);
    }
  }

  lemma {:induction false} StrLeAntisymmetric(a: string, b: string)
    requires StrLe(a, b) && StrLe(b, a)
    ensures a == b
    decreases |a|
  {
    if a != [] && b != [] {
      StrLeAntisymmetric(a[1..], b[1..]);
      assert a == [a[0]] + a[1..] && b == [b[0]] + b[1..];
    }
  }

  /** The case folding of SQLite's LIKE: only 'A'..'Z' become lower case. */
  function FoldAscii(c: char): char {
    if 'A' <= c <= 'Z' then (c as int + 32) as char else c
  }

  /** Two characters fold alike exactly when they are equal or are the upper-
      and lower-case forms of one ASCII letter; no folded character is a capital. */
  lemma FoldAsciiMatches(c: char, d: char)
    ensures FoldAscii(c) == FoldAscii(d) <==>
      c == d || ('A' <= c <= 'Z' && d as int == c as int + 32) || ('A' <= d <= 'Z' && c as int == d as int + 32)
    ensures !('A' <= FoldAscii(c) <= 'Z')
  {
  }

  /** `pat` occurs in `text` at position `i`, ignoring the case of ASCII letters. */
  ghost predicate OccursAt(text: string, pat: string, i: int) {
    0 <= i && i + |pat| <= |text| &&
    forall k :: 0 <= k < |pat| ==> FoldAscii(text[i + k]) == FoldAscii(pat[k])
  }

  /** `text` starts with `pat`, ignoring the case of ASCII letters. */
  predicate PrefixFolded(text: string, pat: string)
    decreases |pat|
  {
    if pat == [] then true
    else if text == [] then false
    else FoldAscii(text[0]) == FoldAscii(pat[0]) && PrefixFolded(text[1..], pat[1..])
  }

  /** `text LIKE '%pat%'` in SQLite, for a `pat` without the wildcards `%` and `_`. */
  predicate LikeContains(text: string, pat: string)
    decreases |text|
  {
    if |text| < |pat| then false
    else PrefixFolded(text, pat) || LikeContains(text[1..], pat)
  }

  lemma {:induction false} OccursShift(text: string, pat: string, i: int)
    requires text != [] && 0 <= i
    ensures OccursAt(text[1..], pat, i) <==> OccursAt(text, pat, i + 1)
  {
    if 0 <= i && i + |pat| <= |text| - 1 {
      if OccursAt(text[1..], pat, i) {
        forall k | 0 <= k < |pat|
          ensures FoldAscii(text[(i + 1) + k]) == FoldAscii(pat[k])
        {
          assert text[(i + 1) + k] == text[1..][i + k];
        }
      }
      if OccursAt(text, pat, i + 1) {
        forall k | 0 <= k < |pat|
          ensures FoldAscii(text[1..][i + k]) == FoldAscii(pat[k])
        {
          assert text[(i + 1) + k] == text[1..][i + k];
        }
      }
    }
  }

  lemma {:induction false} PrefixFoldedOccurs(text: string, pat: string)
    ensures PrefixFolded(text, pat) <==> OccursAt(text, pat, 0)
    decreases |pat|
  {
    if pat != [] && text != [] {
      PrefixFoldedOccurs(text[1..], pat[1..]);
      if OccursAt(text, pat, 0) {
        forall k | 0 <= k < |pat| - 1
          ensures FoldAscii(text[1..][k]) == FoldAscii(pat[1..][k])
        {
          assert FoldAscii(text[0 + (k + 1)]) == FoldAscii(pat[k + 1]);
        }
      }
      if PrefixFolded(text, pat) {
        forall k | 0 <= k < |pat|
          ensures FoldAscii(text[0 + k]) == FoldAscii(pat[k])
        {
          if k > 0 {
            assert FoldAscii(text[1..][k - 1]) == FoldAscii(pat[1..][k - 1]);
          }
        }
      }
    }
  }

  /** LIKE '%pat%' holds exactly when `pat` occurs somewhere in `text`,
      ASCII case ignored. */
  lemma {:induction false} LikeContainsOccurs(text: string, pat: string)
    ensures LikeContains(text, pat) <==> exists i :: OccursAt(text, pat, i)
    decreases |text|
  {
    if |text| < |pat| {
      forall i ensures !OccursAt(text, pat, i) { }
    } else {
      PrefixFoldedOccurs(text, pat);
      if text == [] {
        // then pat is empty too, and it occurs at 0
        assert OccursAt(text, pat, 0);
      } else {
        LikeContainsOccurs(text[1..], pat);
        if LikeContains(text[1..], pat) {
          var i :| OccursAt(text[1..], pat, i);
          OccursShift(text, pat, i);
        }
        if i :| OccursAt(text, pat, i) {
          if i > 0 {
            OccursShift(text, pat, i - 1);
          }
        }
      }
    }
  }
}
