/**
 * Field-name resolution: for each field identifier, the candidate column
 * names of the form `p<id>`, `p<id>_i<n>`, `p<id>_a<n>` or `p<id>_i<n>_a<m>`
 * (the end-anchored regular expression `^p<id>(_i\d+)?(_a\d+)?$`), gathered
 * identifier by identifier and then sorted by the version order.
 * The dataset's `find_fields` query becomes the list `candidates` of column
 * names the dataset holds, in the dataset's own order.
 */
module FieldNames {
  import opened Wrappers
  import opened Tables
  import opened VersionOrder

  /** A nonempty run of decimal digits (the regular expression `\d+`). */
  predicate IsDigitRun(d: string)
  {
    d != [] && AllDigits(d)
  }

  /** `s` is an underscore, the letter `tag`, then one or more digits (`_i\d+` or `_a\d+`). */
  predicate IsTagged(s: string, tag: char)
  {
    |s| >= 3 && s[0] == '_' && s[1] == tag && AllDigits(s[2..])
  }

  /**
   * Recognises the end-anchored tail `(_i\d+)?(_a\d+)?` of a column name.
   * The instance digits extend as far as possible, since what follows them
   * must be `_a` or the end of the name.
   */
  predicate IsSuffix(s: string)
  {
    || s == []
    || IsTagged(s, 'a')
    || (|s| >= 3 && s[0] == '_' && s[1] == 'i' &&
        var k := 2 + RunLength(s[2..], true);
        k > 2 && (k == |s| || IsTagged(s[k..], 'a')))
  }

  /** An optional instance or array index: absent, or a digit run. */
  predicate ValidIndex(p: Option<string>)
  {
    p.None? || IsDigitRun(p.value)
  }

  /** The tail a column has for an optional instance index and an optional array index. */
  function Suffix(instanceIndex: Option<string>, arrayIndex: Option<string>): string
  {
    (if instanceIndex.Some? then "_i" + instanceIndex.value else "") + (if arrayIndex.Some? then "_a" + arrayIndex.value else "")
  }

  /** The recognizer accepts exactly the tails the grammar generates. */
  lemma SuffixGrammar(s: string)
    ensures IsSuffix(s) <==>
              exists instanceIndex, arrayIndex :: ValidIndex(instanceIndex) && ValidIndex(arrayIndex) && s == Suffix(instanceIndex, arrayIndex)
  {
    if IsSuffix(s) {
      var instanceIndex, arrayIndex := SuffixParts(s);
      assert s == Suffix(instanceIndex, arrayIndex);
    }
    if exists instanceIndex, arrayIndex :: ValidIndex(instanceIndex) && ValidIndex(arrayIndex) && s == Suffix(instanceIndex, arrayIndex) {
      var instanceIndex, arrayIndex :| ValidIndex(instanceIndex) && ValidIndex(arrayIndex) && s == Suffix(instanceIndex, arrayIndex);
      SuffixRecognised(instanceIndex, arrayIndex);
    }
  }

  lemma SuffixRecognised(instanceIndex: Option<string>, arrayIndex: Option<string>)
    requires ValidIndex(instanceIndex) && ValidIndex(arrayIndex)
    ensures IsSuffix(Suffix(instanceIndex, arrayIndex))
  {
    var s := Suffix(instanceIndex, arrayIndex);
    if instanceIndex.Some? {
      var d := instanceIndex.value;
      var rest := if arrayIndex.Some? then "_a" + arrayIndex.value else "";
      assert s == "_i" + d + rest;
      assert s[2..] == d + rest;
      RunLengthOfRun(d, rest, true);
      assert s[2 + |d|..] == rest;
      if arrayIndex.Some? {
        assert rest[2..] == arrayIndex.value;
      }
    } else if arrayIndex.Some? {
      assert s == "_a" + arrayIndex.value;
      assert s[2..] == arrayIndex.value;
    }
  }

  /** Reads the instance and array indices back out of a recognised tail. */
  lemma SuffixParts(s: string) returns (instanceIndex: Option<string>, arrayIndex: Option<string>)
    requires IsSuffix(s)
    ensures ValidIndex(instanceIndex) && ValidIndex(arrayIndex)
    ensures s == Suffix(instanceIndex, arrayIndex)
  {
    if s == [] {
      instanceIndex, arrayIndex := None, None;
    } else if IsTagged(s, 'a') {
      instanceIndex, arrayIndex := None, Some(s[2..]);
      assert s == "_a" + s[2..];
    } else {
      var k := 2 + RunLength(s[2..], true);
      instanceIndex := Some(s[2..k]);
      assert s[2..k] == s[2..][..k - 2];
      if k == |s| {
        arrayIndex := None;
        assert s == "_i" + s[2..k];
      } else {
        arrayIndex := Some(s[k + 2..]);
        assert s[k..][2..] == s[k + 2..];
        assert s == "_i" + s[2..k] + "_a" + s[k + 2..];
      }
    }
  }

  /** Column `name` is one of the columns of field `id` (the end-anchored pattern `^p<id>(_i\d+)?(_a\d+)?$`). */
  predicate ColumnMatches(name: string, id: string): (m: bool)
    ensures m ==> "p" + id <= name && (|name| == |id| + 1 || name[|id| + 1] == '_')
  {
    "p" + id <= name && IsSuffix(name[|id| + 1..])
  }

  /** Every matching name is `p<id>` followed by an optional instance index and an optional array index, and conversely. */
  lemma ColumnShape(name: string, id: string)
    ensures ColumnMatches(name, id) <==>
              exists instanceIndex, arrayIndex :: ValidIndex(instanceIndex) && ValidIndex(arrayIndex) && name == "p" + id + Suffix(instanceIndex, arrayIndex)
  {
    if ColumnMatches(name, id) {
      var instanceIndex, arrayIndex := SuffixParts(name[|id| + 1..]);
      assert name == name[..|id| + 1] + name[|id| + 1..];
      assert name == "p" + id + Suffix(instanceIndex, arrayIndex);
    }
    if exists instanceIndex, arrayIndex :: ValidIndex(instanceIndex) && ValidIndex(arrayIndex) && name == "p" + id + Suffix(instanceIndex, arrayIndex) {
      var instanceIndex, arrayIndex :| ValidIndex(instanceIndex) && ValidIndex(arrayIndex) && name == "p" + id + Suffix(instanceIndex, arrayIndex);
      SuffixRecognised(instanceIndex, arrayIndex);
      assert name[..|id| + 1] == "p" + id;
      assert name[|id| + 1..] == Suffix(instanceIndex, arrayIndex);
    }
  }

  /**
   * The pattern is anchored: with digit-only identifiers, a column belongs to
   * at most one identifier, so the identifier `3` never picks up `p30780`.
   */
  lemma ColumnOwnerUnique(name: string, id1: string, id2: string)
    requires IsDigitRun(id1) && IsDigitRun(id2)
    requires ColumnMatches(name, id1) && ColumnMatches(name, id2)
    ensures id1 == id2
  {
    if |id1| < |id2| {
      NotOwnedByShorterId(name, id1, id2);
    } else if |id2| < |id1| {
      NotOwnedByShorterId(name, id2, id1);
    } else {
      assert ("p" + id1)[1..] == id1 && ("p" + id2)[1..] == id2;
      assert name[..|id1| + 1] == "p" + id1 && name[..|id2| + 1] == "p" + id2;
    }
  }

  /** A column of identifier `long` never matches an identifier with fewer characters. */
  lemma NotOwnedByShorterId(name: string, short: string, long: string)
    requires IsDigitRun(long) && |short| < |long|
    requires "p" + long <= name
    ensures !ColumnMatches(name, short)
  {
    assert name[|short| + 1] == ("p" + long)[|short| + 1] == long[|short|];
    assert name[|short| + 1..][0] == name[|short| + 1];
  }

  lemma AnchoredExample()
    ensures ColumnMatches("p30780_i0", "30780")
    ensures !ColumnMatches("p30780", "3")
  {
    ColumnShape("p30780_i0", "30780");
    assert "p30780_i0" == "p" + "30780" + Suffix(Some("0"), None);
    assert IsDigitRun("30780");
    NotOwnedByShorterId("p30780", "3", "30780");
  }

  /** The columns of one identifier, in the dataset's order. */
  function ColumnsFor(id: string, candidates: seq<string>): (names: seq<string>)
    ensures forall n :: n in names <==> n in candidates && ColumnMatches(n, id)
  {
    KeepWhere(candidates, n => ColumnMatches(n, id))
  }

  /** The matches of every identifier, concatenated identifier by identifier (before sorting). */
  function MatchesFor(ids: seq<string>, candidates: seq<string>): (names: seq<string>)
    ensures forall n :: n in names <==> n in candidates && exists id :: id in ids && ColumnMatches(n, id)
  {
    if ids == [] then []
    else
      var init := ids[..|ids| - 1];
      var last := ids[|ids| - 1];
      assert forall id :: id in ids <==> id in init || id == last;
      MatchesFor(init, candidates) + ColumnsFor(last, candidates)
  }

  /** An identifier without matching columns contributes nothing and raises no error. */
  lemma UnmatchedIdContributesNothing(ids: seq<string>, id: string, candidates: seq<string>)
    requires forall n :: n in candidates ==> !ColumnMatches(n, id)
    ensures MatchesFor(ids + [id], candidates) == MatchesFor(ids, candidates)
  {
    assert (ids + [id])[..|ids|] == ids;
  }

  /**
   * `field_names_for_ids`: accumulate the matches of each identifier in turn,
   * then sort the accumulated names by the version order.
   */
  method FieldNamesForIds(ids: seq<string>, candidates: seq<string>) returns (names: seq<string>)
    ensures names == SortByVersion(MatchesFor(ids, candidates))
    ensures Sorted(names)
    ensures multiset(names) == multiset(MatchesFor(ids, candidates))
    ensures forall n :: n in names <==> n in candidates && exists id :: id in ids && ColumnMatches(n, id)
    ensures ids == [] ==> names == []
  {
    var fields: seq<string> := [];
    for i := 0 to |ids|
      invariant fields == MatchesFor(ids[..i], candidates)
    {
      fields := fields + ColumnsFor(ids[i], candidates);
      assert ids[..i + 1][..i] == ids[..i];
    }
    assert ids[..|ids|] == ids;
    names := SortByVersion(fields);
    forall n
      ensures n in names <==> n in fields
    {
      SortedMembership(fields, n);
    }
  }
}
