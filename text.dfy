/**
 * The string operations the phenotype transform relies on: substring search
 * (`str.contains` with a literal pattern, the `regex=` column filter), its
 * case-insensitive variant (`case=False`, ASCII letters), and literal
 * replacement of every occurrence (`re.sub` with a literal pattern).
 */
module Text {

  /** `pat` occurs in `text` starting at index `i`. */
  predicate OccursAt(text: string, pat: string, i: int)
  {
    0 <= i && i + |pat| <= |text| && text[i..i + |pat|] == pat
  }

  /** Specification of substring containment: some occurrence exists. */
  ghost predicate Contains(text: string, pat: string)
  {
    exists i :: OccursAt(text, pat, i)
  }

  /** Left-to-right scan for `pat`; the executable form of `Contains`. */
  function Find(text: string, pat: string): (found: bool)
    ensures found <==> Contains(text, pat)
  {
    if pat <= text then
      assert OccursAt(text, pat, 0);
      true
    else if text == [] then
      false
    else
      var rest := Find(text[1..], pat);
      ShiftOccurrence(text, pat);
      rest
  }

  /** When `pat` does not start `text`, its occurrences in `text` are those in `text[1..]`, shifted by one. */
  lemma ShiftOccurrence(text: string, pat: string)
    requires text != [] && !(pat <= text)
    ensures Contains(text, pat) <==> Contains(text[1..], pat)
  {
    if Contains(text, pat) {
      var i :| OccursAt(text, pat, i);
      assert text[1..][i - 1..i - 1 + |pat|] == text[i..i + |pat|];
      assert OccursAt(text[1..], pat, i - 1);
    }
    if Contains(text[1..], pat) {
      var i :| OccursAt(text[1..], pat, i);
      assert text[1..][i..i + |pat|] == text[i + 1..i + 1 + |pat|];
      assert OccursAt(text, pat, i + 1);
    }
  }

  /** ASCII lower-casing of one character; every other character is left alone. */
  function LowerChar(c: char): char
  {
    if 'A' <= c <= 'Z' then (c as int + 32) as char else c
  }

  /** Lower-cases every character of `s`. */
  function Lower(s: string): (r: string)
    ensures |r| == |s|
    ensures forall i :: 0 <= i < |s| ==> r[i] == LowerChar(s[i])
  {
    seq(|s|, i requires 0 <= i < |s| => LowerChar(s[i]))
  }

  /** `pat` occurs at index `i` of `text` when letter case is ignored. */
  predicate OccursAtIgnoringCase(text: string, pat: string, i: int)
  {
    0 <= i && i + |pat| <= |text| &&
    forall j :: 0 <= j < |pat| ==> LowerChar(text[i + j]) == LowerChar(pat[j])
  }

  /** Specification of case-insensitive containment. */
  ghost predicate ContainsIgnoringCase(text: string, pat: string)
  {
    exists i :: OccursAtIgnoringCase(text, pat, i)
  }

  /** Case-insensitive search, done as a search in the lower-cased strings. */
  function FindIgnoringCase(text: string, pat: string): (found: bool)
    ensures found <==> ContainsIgnoringCase(text, pat)
  {
    FoldedOccurrence(text, pat);
    Find(Lower(text), Lower(pat))
  }

  lemma FoldedOccurrence(text: string, pat: string)
    ensures Contains(Lower(text), Lower(pat)) <==> ContainsIgnoringCase(text, pat)
  {
    var lt, lp := Lower(text), Lower(pat);
    if Contains(lt, lp) {
      var i :| OccursAt(lt, lp, i);
      forall j | 0 <= j < |pat|
        ensures LowerChar(text[i + j]) == LowerChar(pat[j])
      {
        assert lt[i..i + |lp|][j] == lp[j];
      }
      assert OccursAtIgnoringCase(text, pat, i);
    }
    if ContainsIgnoringCase(text, pat) {
      var i :| OccursAtIgnoringCase(text, pat, i);
      assert lt[i..i + |lp|] == lp;
      assert OccursAt(lt, lp, i);
    }
  }

  /**
   * Replaces every non-overlapping occurrence of `pat` in `s` by `rep`,
   * scanning left to right (Python's `re.sub` with a pattern free of
   * metacharacters).
   */
  function ReplaceAll(s: string, pat: string, rep: string): (r: string)
    requires pat != []
    ensures rep == pat ==> r == s
    ensures |rep| == |pat| ==> |r| == |s|
    ensures |rep| <= |pat| ==> |r| <= |s|
    ensures |rep| < |pat| && Contains(s, pat) ==> |r| < |s|
    decreases |s|
  {
    if s == [] then []
    else if pat <= s then
      assert s == pat + s[|pat|..];
      rep + ReplaceAll(s[|pat|..], pat, rep)
    else
      assert s == [s[0]] + s[1..];
      ShiftOccurrence(s, pat);
      [s[0]] + ReplaceAll(s[1..], pat, rep)
  }

  /** A string that does not contain the pattern is left unchanged. */
  lemma {:induction false} ReplaceAllAbsent(s: string, pat: string, rep: string)
    requires pat != [] && !Contains(s, pat)
    ensures ReplaceAll(s, pat, rep) == s
  {
    if s != [] {
      if pat <= s {
        assert OccursAt(s, pat, 0);
      }
      ShiftOccurrence(s, pat);
      ReplaceAllAbsent(s[1..], pat, rep);
    }
  }

  /** A leading occurrence is replaced and the scan resumes after it. */
  lemma ReplaceAllLeading(pat: string, rest: string, rep: string)
    requires pat != []
    ensures ReplaceAll(pat + rest, pat, rep) == rep + ReplaceAll(rest, pat, rep)
  {
    assert (pat + rest)[|pat|..] == rest;
  }
}
