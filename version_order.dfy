/**
 * The version-aware order used to sort resolved column names. A name is split
 * into maximal runs of decimal digits and maximal runs of other characters;
 * digit runs compare as numbers, other runs compare character by character,
 * and the token lists compare lexicographically, a proper prefix first. So
 * `p30780_i2` sorts before `p30780_i10` and `p31` before `p22006`.
 */
module VersionOrder {

  predicate IsDigit(c: char)
  {
    '0' <= c <= '9'
  }

  predicate AllDigits(s: string)
  {
    forall i :: 0 <= i < |s| ==> IsDigit(s[i])
  }

  /** Length of the longest prefix of `s` made only of digits (`digit`) or only of non-digits (`!digit`). */
  function RunLength(s: string, digit: bool): (k: nat)
    ensures k <= |s|
    ensures forall i :: 0 <= i < k ==> IsDigit(s[i]) == digit
    ensures k < |s| ==> IsDigit(s[k]) != digit
  {
    if s == [] || IsDigit(s[0]) != digit then 0 else 1 + RunLength(s[1..], digit)
  }

  /** A run followed by a character of the other kind (or by nothing) has exactly its own length. */
  lemma {:induction false} RunLengthOfRun(a: string, b: string, digit: bool)
    requires forall i :: 0 <= i < |a| ==> IsDigit(a[i]) == digit
    requires b != [] ==> IsDigit(b[0]) != digit
    ensures RunLength(a + b, digit) == |a|
  {
    if a == [] {
      assert a + b == b;
    } else {
      assert (a + b)[1..] == a[1..] + b;
      RunLengthOfRun(a[1..], b, digit);
    }
  }

  function DigitValue(c: char): nat
    requires IsDigit(c)
  {
    c as int - '0' as int
  }

  /** The number a string of decimal digits denotes (Python's `int(...)` on a digit run). */
  function Value(d: string): nat
    requires AllDigits(d)
  {
    if d == [] then 0 else 10 * Value(d[..|d| - 1]) + DigitValue(d[|d| - 1])
  }

  /** One component of a version: a number or a run of other characters. */
  datatype Token = Num(n: nat) | Word(w: string)

  /** Length of the first run of `s`. */
  function HeadLength(s: string): (k: nat)
    requires s != []
    ensures 0 < k <= |s|
  {
    RunLength(s, IsDigit(s[0]))
  }

  /** The token the first run of `s` stands for. */
  function HeadToken(s: string): Token
    requires s != []
  {
    var k := HeadLength(s);
    if IsDigit(s[0]) then Num(Value(s[..k])) else Word(s[..k])
  }

  /** Splits a name into its maximal digit and non-digit runs, in order. */
  function Tokens(s: string): seq<Token>
    decreases |s|
  {
    if s == [] then [] else [HeadToken(s)] + Tokens(s[HeadLength(s)..])
  }

  /**
   * Tokens are maximal runs: there are at most as many as characters, the
   * first is a number exactly when the name starts with a digit, and a number
   * is always followed by a word and a word by a number.
   */
  lemma {:induction false} TokensAlternate(s: string)
    ensures |Tokens(s)| <= |s|
    ensures s != [] ==> Tokens(s) != [] && Tokens(s)[0].Num? == IsDigit(s[0])
    ensures forall i :: 0 <= i < |Tokens(s)| - 1 ==> Tokens(s)[i].Num? != Tokens(s)[i + 1].Num?
    decreases |s|
  {
    if s != [] {
      var k := HeadLength(s);
      var t, rest := Tokens(s), Tokens(s[k..]);
      TokensAlternate(s[k..]);
      assert t == [HeadToken(s)] + rest;
      if k < |s| {
        assert s[k..][0] == s[k];
      }
      forall i | 0 <= i < |t| - 1
        ensures t[i].Num? != t[i + 1].Num?
      {
        if i > 0 {
          assert t[i] == rest[i - 1] && t[i + 1] == rest[i];
        }
      }
    }
  }

  /** A nonempty string of one kind is a single token. */
  lemma TokensOfRun(a: string, digit: bool)
    requires a != []
    requires forall i :: 0 <= i < |a| ==> IsDigit(a[i]) == digit
    ensures Tokens(a) == [if digit then Num(Value(a)) else Word(a)]
  {
    RunLengthOfRun(a, [], digit);
    assert a + [] == a;
    assert a[..|a|] == a;
  }

  /** Concatenating at a digit/non-digit boundary concatenates the token lists. */
  lemma {:induction false} TokensAppend(a: string, b: string)
    requires a != [] && b != []
    requires IsDigit(a[|a| - 1]) != IsDigit(b[0])
    ensures Tokens(a + b) == Tokens(a) + Tokens(b)
    decreases |a|
  {
    var k := HeadLength(a);
    var h, rest := HeadToken(a), a[k..];
    TokensAppendHead(a, b);
    TokensUnfold(a);
    if k < |a| {
      assert rest[|rest| - 1] == a[|a| - 1];
      TokensAppend(rest, b);
    } else {
      assert rest == [] && rest + b == b;
    }
    ConsAppend(h, Tokens(rest), Tokens(b));
  }

  lemma ConsAppend<T>(h: T, x: seq<T>, y: seq<T>)
    ensures [h] + (x + y) == ([h] + x) + y
  {
  }

  /** Across a digit/non-digit boundary the tokens of `a + b` start with the first token of `a`. */
  lemma TokensAppendHead(a: string, b: string)
    requires a != [] && b != []
    requires IsDigit(a[|a| - 1]) != IsDigit(b[0])
    ensures Tokens(a + b) == [HeadToken(a)] + Tokens(a[HeadLength(a)..] + b)
  {
    HeadOfAppend(a, b);
    SliceOfAppend(a, b, HeadLength(a));
    TokensUnfold(a + b);
  }

  lemma SliceOfAppend<T>(a: seq<T>, b: seq<T>, k: nat)
    requires k <= |a|
    ensures (a + b)[k..] == a[k..] + b
  {
  }

  /** One step of the tokenisation: the first token, then the tokens of the rest. */
  lemma TokensUnfold(s: string)
    requires s != []
    ensures Tokens(s) == [HeadToken(s)] + Tokens(s[HeadLength(s)..])
  {
  }

  /** Across a digit/non-digit boundary the first token of `a + b` is the first token of `a`. */
  lemma HeadOfAppend(a: string, b: string)
    requires a != [] && b != []
    requires IsDigit(a[|a| - 1]) != IsDigit(b[0])
    ensures HeadLength(a + b) == HeadLength(a)
    ensures HeadToken(a + b) == HeadToken(a)
  {
    var digit := IsDigit(a[0]);
    var k := HeadLength(a);
    var ab := a + b;
    assert ab[0] == a[0];
    if k < |a| {
      RunLengthOfRun(a[..k], a[k..] + b, digit);
      assert ab == a[..k] + (a[k..] + b);
    } else {
      RunLengthOfRun(a, b, digit);
      assert a[..k] == a;
    }
    assert ab[..k] == a[..k];
  }

  /** Strict lexicographic order on character runs, by code point. */
  predicate WordLess(x: string, y: string)
  {
    if x == [] then y != []
    else y != [] && (x[0] < y[0] || (x[0] == y[0] && WordLess(x[1..], y[1..])))
  }

  /** Strict order on tokens: numbers by value, words lexicographically, numbers before words. */
  predicate TokenLess(a: Token, b: Token)
  {
    match (a, b)
    case (Num(x), Num(y)) => x < y
    case (Word(x), Word(y)) => WordLess(x, y)
    case (Num(_), Word(_)) => true
    case (Word(_), Num(_)) => false
  }

  /** Lexicographic order on token lists; a proper prefix comes first. */
  predicate TokensLessEq(a: seq<Token>, b: seq<Token>)
  {
    a == [] || (b != [] && (TokenLess(a[0], b[0]) || (a[0] == b[0] && TokensLessEq(a[1..], b[1..]))))
  }

  /** The version order on column names. */
  predicate VersionLessEq(x: string, y: string)
  {
    TokensLessEq(Tokens(x), Tokens(y))
  }


  predicate VersionLess(x: string, y: string)
  {
    !VersionLessEq(y, x)
  }

  lemma {:induction false} WordLessTrichotomy(x: string, y: string)
    ensures x == y || WordLess(x, y) || WordLess(y, x)
    ensures !(WordLess(x, y) && WordLess(y, x))
  {
    if x != [] && y != [] {
      WordLessTrichotomy(x[1..], y[1..]);
      if x[0] == y[0] && x[1..] == y[1..] {
        assert x == [x[0]] + x[1..] && y == [y[0]] + y[1..];
      }
    }
  }

  lemma {:induction false} WordLessTransitive(x: string, y: string, z: string)
    requires WordLess(x, y) && WordLess(y, z)
    ensures WordLess(x, z)
  {
    if x != [] && x[0] == y[0] && y[0] == z[0] {
      WordLessTransitive(x[1..], y[1..], z[1..]);
    }
  }

  lemma TokenLessTrichotomy(a: Token, b: Token)
    ensures a == b || TokenLess(a, b) || TokenLess(b, a)
    ensures !(TokenLess(a, b) && TokenLess(b, a))
  {
    if a.Word? && b.Word? {
      WordLessTrichotomy(a.w, b.w);
    }
  }

  lemma TokenLessTransitive(a: Token, b: Token, c: Token)
    requires TokenLess(a, b) && TokenLess(b, c)
    ensures TokenLess(a, c)
  {
    if a.Word? && b.Word? && c.Word? {
      WordLessTransitive(a.w, b.w, c.w);
    }
  }

  lemma {:induction false} TokensLessEqTotal(a: seq<Token>, b: seq<Token>)
    ensures TokensLessEq(a, b) || TokensLessEq(b, a)
  {
    if a != [] && b != [] {
      TokenLessTrichotomy(a[0], b[0]);
      TokensLessEqTotal(a[1..], b[1..]);
    }
  }

  lemma {:induction false} TokensLessEqTransitive(a: seq<Token>, b: seq<Token>, c: seq<Token>)
    requires TokensLessEq(a, b) && TokensLessEq(b, c)
    ensures TokensLessEq(a, c)
  {
    if a != [] {
      if TokenLess(a[0], b[0]) && TokenLess(b[0], c[0]) {
        TokenLessTransitive(a[0], b[0], c[0]);
      } else if a[0] == b[0] && b[0] == c[0] {
        TokensLessEqTransitive(a[1..], b[1..], c[1..]);
      }
    }
  }

  /** Any two names are comparable. */
  lemma VersionTotal(x: string, y: string)
    ensures VersionLessEq(x, y) || VersionLessEq(y, x)
  {
    TokensLessEqTotal(Tokens(x), Tokens(y));
  }

  /** Every name is at most itself. */
  lemma VersionReflexive(x: string)
    ensures VersionLessEq(x, x)
  {
    TokensPrefixLessEq(Tokens(x), Tokens(x));
  }

  lemma VersionTransitive(x: string, y: string, z: string)
    requires VersionLessEq(x, y) && VersionLessEq(y, z)
    ensures VersionLessEq(x, z)
  {
    TokensLessEqTransitive(Tokens(x), Tokens(y), Tokens(z));
  }

  /** Every name precedes every later name. */
  predicate Sorted(s: seq<string>)
  {
    forall i, j :: 0 <= i < j < |s| ==> VersionLessEq(s[i], s[j])
  }

  /** Inserts `x` before the first element it does not exceed (so earlier equals stay ahead: a stable insertion). */
  function Insert(x: string, s: seq<string>): (r: seq<string>)
    ensures multiset(r) == multiset(s) + multiset{x}
  {
    if s == [] then [x]
    else if VersionLessEq(x, s[0]) then [x] + s
    else
      assert s == [s[0]] + s[1..];
      [s[0]] + Insert(x, s[1..])
  }

  lemma {:induction false} InsertSorted(x: string, s: seq<string>)
    requires Sorted(s)
    ensures Sorted(Insert(x, s))
  {
    if s == [] {
    } else if VersionLessEq(x, s[0]) {
      forall j | 0 <= j < |s|
        ensures VersionLessEq(x, s[j])
      {
        if j > 0 {
          VersionTransitive(x, s[0], s[j]);
        }
      }
      SortedCons(x, s);
    } else {
      VersionTotal(x, s[0]);
      var t := Insert(x, s[1..]);
      InsertSorted(x, s[1..]);
      HeadBelowInsert(x, s);
      SortedCons(s[0], t);
    }
  }

  /** The head of a sorted list is at most every element of the insertion into its tail. */
  lemma HeadBelowInsert(x: string, s: seq<string>)
    requires Sorted(s) && s != [] && VersionLessEq(s[0], x)
    ensures forall j :: 0 <= j < |Insert(x, s[1..])| ==> VersionLessEq(s[0], Insert(x, s[1..])[j])
  {
    var t := Insert(x, s[1..]);
    forall j | 0 <= j < |t|
      ensures VersionLessEq(s[0], t[j])
    {
      assert t[j] in multiset(t);
      if t[j] != x {
        assert t[j] in multiset(s[1..]);
        assert t[j] in s[1..];
        var m :| 0 <= m < |s[1..]| && s[1..][m] == t[j];
        assert s[m + 1] == t[j];
      }
    }
  }

  /** A name at most every element of a sorted list can be put in front of it. */
  lemma SortedCons(x: string, t: seq<string>)
    requires Sorted(t)
    requires forall j :: 0 <= j < |t| ==> VersionLessEq(x, t[j])
    ensures Sorted([x] + t)
  {
    var r := [x] + t;
    forall i, j | 0 <= i < j < |r|
      ensures VersionLessEq(r[i], r[j])
    {
      if i > 0 {
        assert r[i] == t[i - 1] && r[j] == t[j - 1];
      }
    }
  }

  /**
   * Stable insertion sort by the version order (the model of Python's
   * `sorted(..., key=LooseVersion)`).
   */
  function SortByVersion(s: seq<string>): (r: seq<string>)
    ensures multiset(r) == multiset(s)
    ensures Sorted(r)
  {
    if s == [] then []
    else
      var t := SortByVersion(s[1..]);
      InsertSorted(s[0], t);
      assert s == [s[0]] + s[1..];
      Insert(s[0], t)
  }

  /** Sorting neither adds nor loses names. */
  lemma SortedMembership(s: seq<string>, n: string)
    ensures n in SortByVersion(s) <==> n in s
  {
    assert n in SortByVersion(s) <==> n in multiset(SortByVersion(s));
    assert n in s <==> n in multiset(s);
  }

  /** Equal prefixes are skipped by the lexicographic comparison. */
  lemma {:induction false} TokensLessEqCommonPrefix(t: seq<Token>, u: seq<Token>, v: seq<Token>)
    ensures TokensLessEq(t + u, t + v) <==> TokensLessEq(u, v)
  {
    if t == [] {
      assert t + u == u && t + v == v;
    } else {
      TokenLessTrichotomy(t[0], t[0]);
      assert (t + u)[0] == t[0] && (t + v)[0] == t[0];
      assert (t + u)[1..] == t[1..] + u;
      assert (t + v)[1..] == t[1..] + v;
      TokensLessEqCommonPrefix(t[1..], u, v);
    }
  }

  /** A token list sorts no later than any list it is a prefix of. */
  lemma {:induction false} TokensPrefixLessEq(a: seq<Token>, b: seq<Token>)
    requires a <= b
    ensures TokensLessEq(a, b)
  {
    if a != [] {
      TokensPrefixLessEq(a[1..], b[1..]);
    }
  }

  /**
   * Names that differ only in a final digit run compare by the numbers those
   * runs denote, not character by character.
   */
  lemma NumericSuffixOrder(p: string, a: string, b: string)
    requires p != [] && !IsDigit(p[|p| - 1])
    requires a != [] && b != [] && AllDigits(a) && AllDigits(b)
    ensures VersionLess(p + a, p + b) <==> Value(a) < Value(b)
  {
    TokensOfRun(a, true);
    TokensOfRun(b, true);
    TokensAppend(p, a);
    TokensAppend(p, b);
    TokensLessEqCommonPrefix(Tokens(p), [Num(Value(a))], [Num(Value(b))]);
    TokensLessEqCommonPrefix(Tokens(p), [Num(Value(b))], [Num(Value(a))]);
    assert [Num(Value(b))][1..] == [];
  }

  /**
   * A name followed by a further suffix that starts with a character of the
   * other kind sorts after the bare name (`p22009` before `p22009_a1`).
   */
  lemma ExtensionSortsAfter(x: string, ext: string)
    requires x != [] && ext != []
    requires IsDigit(x[|x| - 1]) != IsDigit(ext[0])
    ensures VersionLess(x, x + ext)
  {
    TokensAppend(x, ext);
    TokensPrefixLessEq(Tokens(x), Tokens(x) + Tokens(ext));
    var t, e := Tokens(x), Tokens(ext);
    assert e != [] by {
      assert Tokens(ext) != [];
    }
    TokensLongerNotLessEq(t, e);
  }

  /** A list strictly extending another never sorts before it. */
  lemma {:induction false} TokensLongerNotLessEq(t: seq<Token>, e: seq<Token>)
    requires e != []
    ensures !TokensLessEq(t + e, t)
  {
    if t != [] {
      TokenLessTrichotomy(t[0], t[0]);
      assert (t + e)[1..] == t[1..] + e;
      TokensLongerNotLessEq(t[1..], e);
    }
  }

  /** Instance numbers compare as numbers: instance 2 before instance 10. */
  lemma InstanceTwoBeforeTen()
    ensures VersionLess("p30780_i2", "p30780_i10")
  {
    assert Value("2") == 2;
    assert "10"[..1] == "1";
    assert Value("1") == 1;
    assert Value("10") == 10;
    NumericSuffixOrder("p30780_i", "2", "10");
    assert "p30780_i" + "2" == "p30780_i2";
    assert "p30780_i" + "10" == "p30780_i10";
  }

  /** Field identifiers compare as numbers: field 31 before field 22006. */
  lemma FieldThirtyOneFirst()
    ensures VersionLess("p31", "p22006")
  {
    ValueOf31();
    ValueOf22006();
    NumericSuffixOrder("p", "31", "22006");
    assert "p" + "31" == "p31";
    assert "p" + "22006" == "p22006";
  }

  lemma ValueOf31()
    ensures AllDigits("31") && Value("31") == 31
  {
    assert "31"[..1] == "3";
    assert Value("3") == 3;
  }

  lemma ValueOf22006()
    ensures AllDigits("22006") && Value("22006") == 22006
  {
    assert "22006"[..4] == "2200" && "2200"[..3] == "220" && "220"[..2] == "22" && "22"[..1] == "2";
    assert Value("2") == 2;
    assert Value("22") == 22;
    assert Value("220") == 220;
    assert Value("2200") == 2200;
  }

  /** A bare field name sorts before its array-indexed columns. */
  lemma BareNameFirst()
    ensures VersionLess("p22009", "p22009_a1")
  {
    ExtensionSortsAfter("p22009", "_a1");
    assert "p22009" + "_a1" == "p22009_a1";
  }
}
