/** Letter frequencies: the two reference tables and getFrequency, the
    share of each alphabet letter among the alphabet letters of a text. */
module Frequency {
  import opened Alphabets
  import opened Numeric

  /** Reference frequencies of Russian letters (Ё not listed, as it is
      folded to Е before counting). */
  const RussianTable: map<char, real> := map[
      'О' := 0.090, 'Е' := 0.072, 'А' := 0.062, 'И' := 0.062,
      'Н' := 0.053, 'Т' := 0.053, 'С' := 0.045, 'Р' := 0.040,
      'В' := 0.038, 'Л' := 0.035, 'К' := 0.028, 'М' := 0.026,
      'Д' := 0.025, 'П' := 0.023, 'У' := 0.021, 'Я' := 0.018,
      'Ы' := 0.016, 'Ь' := 0.014, 'Ъ' := 0.014, 'Г' := 0.013,
      'З' := 0.012, 'Б' := 0.014, 'Ч' := 0.012, 'Й' := 0.010,
      'Х' := 0.009, 'Ж' := 0.007, 'Ш' := 0.006, 'Ю' := 0.006,
      'Ц' := 0.003, 'Щ' := 0.003, 'Э' := 0.003, 'Ф' := 0.002
    ]

  /** Reference frequencies of English letters. */
  const EnglishTable: map<char, real> := map[
      'A' := 0.08167, 'B' := 0.01492, 'C' := 0.02782, 'D' := 0.04253,
      'E' := 0.12702, 'F' := 0.02228, 'G' := 0.02015, 'H' := 0.06094,
      'I' := 0.06966, 'J' := 0.00153, 'K' := 0.00772, 'L' := 0.04025,
      'M' := 0.02406, 'N' := 0.06749, 'O' := 0.07507, 'P' := 0.01929,
      'Q' := 0.00095, 'R' := 0.05987, 'S' := 0.06327, 'T' := 0.09056,
      'U' := 0.02758, 'V' := 0.00978, 'W' := 0.02360, 'X' := 0.00150,
      'Y' := 0.01974, 'Z' := 0.00074
    ]

  /** The table the language switch selects, matching `AlphabetFor`. */
  function TableFor(english: bool): map<char, real> {
    if english then EnglishTable else RussianTable
  }

  /** Share of `c` among the letters of `t` that belong to `a`. */
  function Share(t: seq<char>, a: seq<char>, c: char): (r: Num)
    requires c in a
    ensures r.Fin? <==> CountIn(t, a) > 0
  {
    CountAtMostCountIn(t, a, c);
    Quotient(Count(t, c) as real, CountIn(t, a) as real)
  }

  /** getFrequency: for every letter of the alphabet, its share of the text.
      With no alphabet letter in the text every share is 0 / 0, i.e. NaN. */
  function GetFrequency(t: seq<char>, a: seq<char>): (f: map<char, Num>)
    ensures forall c :: c in f <==> c in a
  {
    map c | c in a :: Share(t, a, c)
  }

  /** The frequencies listed in alphabet order. */
  function Values(f: map<char, Num>, a: seq<char>): (xs: seq<Num>)
    requires forall c :: c in a ==> c in f
    ensures |xs| == |a|
    ensures forall i :: 0 <= i < |a| ==> xs[i] == f[a[i]]
  {
    seq(|a|, i requires 0 <= i < |a| => f[a[i]])
  }

  // ---------------------------------------------------------------------------
  // Properties

  /** Each letter's frequency is its count over the number of alphabet letters
      in the text, a value in [0, 1]; it is NaN exactly when the text has no
      alphabet letter. */
  lemma FrequencyBounds(t: seq<char>, a: seq<char>, c: char)
    requires c in a
    ensures GetFrequency(t, a)[c].NaN? <==> CountIn(t, a) == 0
    ensures CountIn(t, a) > 0 ==>
      GetFrequency(t, a)[c] == Fin(Count(t, c) as real / CountIn(t, a) as real)
    ensures CountIn(t, a) > 0 ==>
      0.0 <= GetFrequency(t, a)[c].v <= 1.0
  {
    assert GetFrequency(t, a)[c] == Share(t, a, c);
    CountAtMostCountIn(t, a, c);
    if CountIn(t, a) > 0 {
      UnitQuotient(Count(t, c) as real, CountIn(t, a) as real);
    }
  }

  /** A part over a positive whole lies in [0, 1]. */
  lemma UnitQuotient(n: real, d: real)
    requires 0.0 <= n <= d && d > 0.0
    ensures 0.0 <= n / d <= 1.0
  {
    var x := n / d;
    assert x * d == n;
  }

  /** Adding a new letter to the alphabet adds its occurrences to the count. */
  lemma {:induction false} CountInExtend(t: seq<char>, b: seq<char>, c: char)
    requires c !in b
    ensures CountIn(t, b + [c]) == CountIn(t, b) + Count(t, c)
  {
    if |t| > 0 {
      CountInExtend(t[1..], b, c);
    }
  }

  /** Over a prefix of the alphabet the frequencies add up to the share of
      that prefix's letters. */
  lemma {:induction false} PrefixSum(t: seq<char>, a: seq<char>, k: nat)
    requires Distinct(a) && CountIn(t, a) > 0 && k <= |a|
    ensures Sum(Values(GetFrequency(t, a), a[..k])) ==
      Fin(CountIn(t, a[..k]) as real / CountIn(t, a) as real)
  {
    var f := GetFrequency(t, a);
    var d := CountIn(t, a) as real;
    if k == 0 {
      assert CountIn(t, a[..0]) == 0 by {
        CountInNone(t);
      }
    } else {
      PrefixSum(t, a, k - 1);
      var c := a[k - 1];
      var p := CountIn(t, a[..k - 1]) as real;
      var q := Count(t, c) as real;
      assert Sum(Values(f, a[..k])) == Plus(Sum(Values(f, a[..k - 1])), f[c]) by {
        var xs := Values(f, a[..k]);
        assert xs[..k - 1] == Values(f, a[..k - 1]);
      }
      assert CountIn(t, a[..k]) as real == p + q by {
        assert a[..k] == a[..k - 1] + [c];
        CountInExtend(t, a[..k - 1], c);
      }
      assert f[c] == Fin(q / d) by {
        FrequencyBounds(t, a, c);
      }
      DivAdd(p, q, d);
    }
  }

  lemma DivAdd(p: real, q: real, d: real)
    requires d > 0.0
    ensures p / d + q / d == (p + q) / d
  {
    var x := p / d;
    var y := q / d;
    assert x * d == p && y * d == q;
    assert (x + y) * d == p + q;
  }

  lemma {:induction false} CountInNone(t: seq<char>)
    ensures CountIn(t, []) == 0
  {
    if |t| > 0 {
      CountInNone(t[1..]);
    }
  }

  /** For a text with at least one alphabet letter, the frequencies over an
      alphabet without repeated letters sum to 1. */
  lemma FrequenciesSumToOne(t: seq<char>, a: seq<char>)
    requires Distinct(a) && CountIn(t, a) > 0
    ensures Sum(Values(GetFrequency(t, a), a)) == Fin(1.0)
  {
    var f := GetFrequency(t, a);
    var d := CountIn(t, a) as real;
    assert Sum(Values(f, a)) == Fin(d / d) by {
      PrefixSum(t, a, |a|);
      assert a[..|a|] == a;
    }
    DivSelf(d);
  }

  lemma DivSelf(d: real)
    requires d > 0.0
    ensures d / d == 1.0
  {
    assert (d / d) * d == 1.0 * d;
  }

  /** A non-empty text of alphabet letters only has at least one letter to count. */
  lemma NonEmptyOverCounts(t: seq<char>, a: seq<char>)
    requires Over(t, a) && |t| > 0
    ensures CountIn(t, a) == |t| > 0
  {
    CountInOver(t, a);
  }

  /** Each reference table lists exactly the letters of its alphabet, with
      values in [0, 1]. */
  lemma TableCoversAlphabet(english: bool)
    ensures forall c :: c in TableFor(english) <==> c in AlphabetFor(english)
    ensures forall c :: c in TableFor(english) ==> 0.0 <= TableFor(english)[c] <= 1.0
  {
    if english {
      EnglishTableCovers();
    } else {
      RussianTableCovers();
    }
  }

  lemma RussianTableCovers()
    ensures forall c :: c in RussianTable <==> c in Russian
    ensures forall c :: c in RussianTable ==> 0.0 <= RussianTable[c] <= 1.0
  {
    forall c | c in Russian
      ensures c in RussianTable
    {
      RussianLetterListed(c);
    }
    forall c | c in RussianTable
      ensures c in Russian && 0.0 <= RussianTable[c] <= 1.0
    {
      MembershipByRange(c);
    }
  }

  lemma RussianLetterListed(c: char)
    requires c in Russian
    ensures c in RussianTable
  {
    SourceSpelling();
  }

  lemma EnglishTableCovers()
    ensures forall c :: c in EnglishTable <==> c in English
    ensures forall c :: c in EnglishTable ==> 0.0 <= EnglishTable[c] <= 1.0
  {
    forall c | c in English
      ensures c in EnglishTable
    {
      EnglishLetterListed(c);
    }
    forall c | c in EnglishTable
      ensures c in English && 0.0 <= EnglishTable[c] <= 1.0
    {
      MembershipByRange(c);
    }
  }

  lemma EnglishLetterListed(c: char)
    requires c in English
    ensures c in EnglishTable
  {
    SourceSpelling();
  }
}
