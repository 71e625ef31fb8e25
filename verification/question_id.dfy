/**
 * Question identifiers (createQuestionId in src/App.tsx): the category name,
 * the topic title and the decimal rendering of the question's index, joined
 * by the separator "__".
 */
module QuestionId {

  const Separator: string := "__"

  predicate IsDigit(ch: char)
  {
    '0' <= ch <= '9'
  }

  predicate AllDigits(s: string)
  {
    forall k :: 0 <= k < |s| ==> IsDigit(s[k])
  }

  function DigitChar(d: nat): (ch: char)
    requires d < 10
    ensures IsDigit(ch)
    ensures ch as int - '0' as int == d
  {
    (d + '0' as int) as char
  }

  /**
   * The decimal rendering of a non-negative integer, as template-literal
   * interpolation of a JavaScript number produces it: at least one digit,
   * no leading zero except for zero itself.
   */
  function Decimal(n: nat): (s: string)
    ensures |s| >= 1
    ensures AllDigits(s)
    ensures s[0] == '0' <==> n == 0
    decreases n
  {
    if n < 10 then [DigitChar(n)] else Decimal(n / 10) + [DigitChar(n % 10)]
  }

  /** Reads a string of decimal digits back as a number (the inverse of Decimal). */
  function ParseDecimal(s: string): nat
    requires AllDigits(s)
  {
    if |s| == 0 then 0
    else ParseDecimal(s[..|s| - 1]) * 10 + (s[|s| - 1] as int - '0' as int)
  }

  /** Parsing the decimal rendering of n gives back n. */
  lemma {:induction false} ParseDecimalOfDecimal(n: nat)
    ensures ParseDecimal(Decimal(n)) == n
    decreases n
  {
    var s := Decimal(n);
    if n >= 10 {
      ParseDecimalOfDecimal(n / 10);
      assert s[..|s| - 1] == Decimal(n / 10);
    } else {
      assert s[..|s| - 1] == [];
    }
  }

  /** Distinct numbers have distinct decimal renderings. */
  lemma DecimalInjective(i: nat, j: nat)
    requires Decimal(i) == Decimal(j)
    ensures i == j
  {
    ParseDecimalOfDecimal(i);
    ParseDecimalOfDecimal(j);
  }

  /** The identifier of question `index` of topic `topicTitle` in `category`. */
  function CreateQuestionId(category: string, topicTitle: string, index: nat): (id: string)
    ensures |id| > |category| + |topicTitle| + 4
    ensures IsDigit(id[|id| - 1])
  {
    category + Separator + topicTitle + Separator + Decimal(index)
  }

  /** Within one topic, distinct indices give distinct identifiers. */
  lemma {:induction false} IdInjectiveInIndex(category: string, topicTitle: string, i: nat, j: nat)
    requires CreateQuestionId(category, topicTitle, i) == CreateQuestionId(category, topicTitle, j)
    ensures i == j
  {
    var prefix := category + Separator + topicTitle + Separator;
    var a := CreateQuestionId(category, topicTitle, i);
    assert a == prefix + Decimal(i);
    assert a == prefix + Decimal(j);
    assert Decimal(i) == a[|prefix|..];
    assert Decimal(j) == a[|prefix|..];
    DecimalInjective(i, j);
  }

  predicate NoUnderscore(s: string)
  {
    forall k :: 0 <= k < |s| ==> s[k] != '_'
  }

  /** The position of the first underscore of `s`, or `|s|` when there is none. */
  function FirstUnderscore(s: string): nat
  {
    if |s| == 0 || s[0] == '_' then 0 else 1 + FirstUnderscore(s[1..])
  }

  /** The number of decimal digits at the end of `s`. */
  function TrailingDigits(s: string): nat
  {
    if |s| == 0 || !IsDigit(s[|s| - 1]) then 0 else 1 + TrailingDigits(s[..|s| - 1])
  }

  lemma {:induction false} FirstUnderscoreAfterName(a: string, x: string)
    requires NoUnderscore(a)
    ensures FirstUnderscore(a + "_" + x) == |a|
  {
    if |a| > 0 {
      assert (a + "_" + x)[1..] == a[1..] + "_" + x;
      FirstUnderscoreAfterName(a[1..], x);
    }
  }

  lemma {:induction false} TrailingDigitsAfterUnderscore(t: string, d: string)
    requires AllDigits(d)
    ensures TrailingDigits(t + "_" + d) == |d|
  {
    var s := t + "_" + d;
    if |d| > 0 {
      assert s[..|s| - 1] == t + "_" + d[..|d| - 1];
      TrailingDigitsAfterUnderscore(t, d[..|d| - 1]);
    }
  }

  /** A name without underscores followed by an underscore is recovered from the joined string. */
  lemma SplitAtFirstUnderscore(a: string, x: string, b: string, y: string)
    requires NoUnderscore(a) && NoUnderscore(b)
    requires a + "_" + x == b + "_" + y
    ensures a == b && x == y
  {
    var s := a + "_" + x;
    FirstUnderscoreAfterName(a, x);
    FirstUnderscoreAfterName(b, y);
    assert a == s[..|a|] == b;
    assert x == s[|a| + 1..] == y;
  }

  /** A digit string after an underscore is recovered from the joined string. */
  lemma SplitAtLastUnderscore(t: string, d: string, u: string, e: string)
    requires AllDigits(d) && AllDigits(e)
    requires t + "_" + d == u + "_" + e
    ensures t == u && d == e
  {
    var s := t + "_" + d;
    TrailingDigitsAfterUnderscore(t, d);
    TrailingDigitsAfterUnderscore(u, e);
    assert d == s[|s| - |d|..] == e;
    assert t == s[..|t|] == u;
  }

  /**
   * Across categories, identifiers are unique as long as category names
   * contain no underscore: then the category, the title and the index are
   * all recovered from the identifier. Topic titles may contain anything.
   */
  lemma {:induction false} IdInjective(c1: string, t1: string, i1: nat, c2: string, t2: string, i2: nat)
    requires NoUnderscore(c1) && NoUnderscore(c2)
    requires CreateQuestionId(c1, t1, i1) == CreateQuestionId(c2, t2, i2)
    ensures c1 == c2 && t1 == t2 && i1 == i2
  {
    var r1 := TitleAndIndex(t1, i1);
    var r2 := TitleAndIndex(t2, i2);
    SplitAtFirstUnderscore(c1, r1, c2, r2);
    SplitAtLastUnderscore("_" + t1 + "_", Decimal(i1), "_" + t2 + "_", Decimal(i2));
    DecimalInjective(i1, i2);
    assert t1 == ("_" + t1 + "_")[1..|t1| + 1];
    assert t2 == ("_" + t2 + "_")[1..|t2| + 1];
  }

  /** The part of an identifier after the first underscore, regrouped for splitting. */
  function TitleAndIndex(t: string, i: nat): (r: string)
    ensures forall c :: CreateQuestionId(c, t, i) == c + "_" + r
  {
    var r := "_" + t + "_" + "_" + Decimal(i);
    assert forall c :: CreateQuestionId(c, t, i) == c + "_" + r by {
      forall c ensures CreateQuestionId(c, t, i) == c + "_" + r {
        assert CreateQuestionId(c, t, i) == c + "_" + "_" + t + "_" + "_" + Decimal(i);
      }
    }
    r
  }

  /**
   * Without the hypothesis on category names identifiers can collide: the
   * separator inside a name is indistinguishable from the real separator.
   */
  lemma IdCollisionWhenSeparatorInName()
    ensures CreateQuestionId("a__b", "c", 0) == CreateQuestionId("a", "b__c", 0)
  {
  }
}
