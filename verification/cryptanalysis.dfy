/** Key recovery by least squares (decryptCaesarWithLeastSquares): every
    shift in [0, n) is tried, the candidate plaintext's letter frequencies
    are compared with a reference table, and the first shift with the
    smallest sum of squared differences wins. */
module Cryptanalysis {
  import opened Alphabets
  import opened Numeric
  import opened Frequency
  import opened ShiftCipher

  /** `langFreq[char]`: a letter missing from the table reads as undefined,
      and any arithmetic on undefined is NaN. */
  function Lookup(table: map<char, real>, c: char): (r: Num)
    ensures r.Fin? <==> c in table
  {
    if c in table then Fin(table[c]) else NaN
  }

  /** The squared differences between reference and candidate frequency,
      one per letter of the alphabet, in alphabet order. */
  function Deviations(table: map<char, real>, freq: map<char, Num>, a: seq<char>): (ds: seq<Num>)
    requires forall c :: c in a ==> c in freq
    ensures |ds| == |a|
    ensures forall i :: 0 <= i < |a| ==>
      (ds[i].Fin? <==> a[i] in table && freq[a[i]].Fin?)
  {
    seq(|a|, i requires 0 <= i < |a| => Square(Minus(Lookup(table, a[i]), freq[a[i]])))
  }

  /** The error of candidate shift `s`: the text decrypted with `-s`, its
      frequencies over `a`, and the sum of squared deviations from `table`. */
  function ShiftError(text: seq<char>, a: seq<char>, table: map<char, real>, s: int): Num {
    var freq := GetFrequency(ShiftText(text, -s), a);
    Sum(Deviations(table, freq, a))
  }

  /** The errors of all candidate shifts 0, 1, ..., |a| - 1. */
  function Errors(text: seq<char>, a: seq<char>, table: map<char, real>): (errs: seq<Num>)
    ensures |errs| == |a|
  {
    ErrorsBelow(text, a, table, |a|)
  }

  /** The errors of the candidate shifts 0, 1, ..., k - 1. */
  function ErrorsBelow(text: seq<char>, a: seq<char>, table: map<char, real>, k: nat): (errs: seq<Num>)
    ensures |errs| == k
  {
    if k == 0 then [] else ErrorsBelow(text, a, table, k - 1) + [ShiftError(text, a, table, k - 1)]
  }

  /** Entry `s` of the error list is the error of shift `s`. */
  lemma ErrorsAt(text: seq<char>, a: seq<char>, table: map<char, real>, s: int)
    requires 0 <= s < |a|
    ensures Errors(text, a, table)[s] == ShiftError(text, a, table, s)
  {
    ErrorsBelowAt(text, a, table, |a|, s);
  }

  lemma {:induction false} ErrorsBelowAt(text: seq<char>, a: seq<char>, table: map<char, real>, k: nat, s: int)
    requires 0 <= s < k
    ensures ErrorsBelow(text, a, table, k)[s] == ShiftError(text, a, table, s)
  {
    var prefix := ErrorsBelow(text, a, table, k - 1);
    var last := ShiftError(text, a, table, k - 1);
    assert ErrorsBelow(text, a, table, k) == prefix + [last];
    if s < k - 1 {
      assert (prefix + [last])[s] == prefix[s];
      ErrorsBelowAt(text, a, table, k - 1, s);
    }
  }

  /** `r` is what a scan over `errs` with a strict `<` against a minimum
      starting at +Infinity returns: when some error is finite, `r` indexes
      a finite error no larger than any finite error and strictly smaller
      than every earlier finite error; when none is, `r` is 0, the initial
      value. */
  predicate IsFirstMinimum(errs: seq<Num>, r: int) {
    if exists s :: 0 <= s < |errs| && errs[s].Fin? then
      && 0 <= r < |errs|
      && errs[r].Fin?
      && (forall s :: 0 <= s < |errs| && errs[s].Fin? ==> errs[r].v <= errs[s].v)
      && (forall s :: 0 <= s < r && errs[s].Fin? ==> errs[r].v < errs[s].v)
    else
      r == 0
  }

  /** The shift key recovery must return for `text`. */
  predicate IsRecoveredShift(text: seq<char>, a: seq<char>, table: map<char, real>, r: int) {
    IsFirstMinimum(Errors(text, a, table), r)
  }

  /** The state of the scan after the candidates [0, k). */
  predicate ScannedUpTo(errs: seq<Num>, k: int, best: int, minError: Bound)
    requires 0 <= k <= |errs|
  {
    && (minError.Infinity? <==> forall s :: 0 <= s < k ==> errs[s].NaN?)
    && (minError.Infinity? ==> best == 0)
    && (minError.Value? ==>
          && 0 <= best < k
          && errs[best] == Fin(minError.v)
          && (forall s :: 0 <= s < k && errs[s].Fin? ==> minError.v <= errs[s].v)
          && (forall s :: 0 <= s < best && errs[s].Fin? ==> minError.v < errs[s].v))
  }

  /** decryptCaesarWithLeastSquares: scan the shifts in increasing order,
      keeping the first one whose error is strictly below the minimum so far. */
  method RecoverShift(text: seq<char>, a: seq<char>, table: map<char, real>) returns (bestShift: int)
    ensures IsRecoveredShift(text, a, table, bestShift)
    ensures 0 <= bestShift && (bestShift < |a| || bestShift == 0)
  {
    ghost var errs := Errors(text, a, table);
    bestShift := 0;
    var minError: Bound := Infinity;
    var shift := 0;
    while shift < |a|
      invariant 0 <= shift <= |a|
      invariant ScannedUpTo(errs, shift, bestShift, minError)
    {
      var error := ShiftError(text, a, table, shift);
      ErrorsAt(text, a, table, shift);
      ScanStep(errs, shift, bestShift, minError);
      if Less(error, minError) {
        minError := Value(error.v);
        bestShift := shift;
      }
      shift := shift + 1;
    }
    ScanDone(errs, bestShift, minError);
  }

  /** A finished scan has found the first minimum. */
  lemma ScanDone(errs: seq<Num>, best: int, minError: Bound)
    requires ScannedUpTo(errs, |errs|, best, minError)
    ensures IsFirstMinimum(errs, best)
    ensures 0 <= best && (best < |errs| || best == 0)
  {
    if exists s :: 0 <= s < |errs| && errs[s].Fin? {
      assert minError.Value?;
    }
  }

  /** One iteration of the scan keeps its invariant. */
  lemma ScanStep(errs: seq<Num>, k: int, best: int, minError: Bound)
    requires 0 <= k < |errs| && ScannedUpTo(errs, k, best, minError)
    ensures Less(errs[k], minError) ==> ScannedUpTo(errs, k + 1, k, Value(errs[k].v))
    ensures !Less(errs[k], minError) ==> ScannedUpTo(errs, k + 1, best, minError)
  {
  }

  // ---------------------------------------------------------------------------
  // Properties

  /** The recovered shift is determined uniquely by the errors. */
  lemma RecoveredShiftUnique(errs: seq<Num>, r1: int, r2: int)
    requires IsFirstMinimum(errs, r1)
    requires IsFirstMinimum(errs, r2)
    ensures r1 == r2
  {
  }

  /** With no alphabet letter in the decrypted text every frequency is NaN,
      and so is the error. */
  lemma NoLettersNoScore(text: seq<char>, a: seq<char>, table: map<char, real>, s: int)
    requires |a| > 0 && CountIn(ShiftText(text, -s), a) == 0
    ensures ShiftError(text, a, table, s).NaN?
  {
    var freq := GetFrequency(ShiftText(text, -s), a);
    FrequencyBounds(ShiftText(text, -s), a, a[0]);
    var ds := Deviations(table, freq, a);
    assert !ds[0].Fin?;
    SumFinite(ds);
  }

  /** An empty ciphertext yields shift 0: every error is NaN and nothing
      beats the initial +Infinity. */
  lemma EmptyCiphertext(a: seq<char>, table: map<char, real>, r: int)
    requires IsRecoveredShift([], a, table, r)
    ensures r == 0
  {
    forall s | 0 <= s < |a|
      ensures Errors([], a, table)[s].NaN?
    {
      ErrorsAt([], a, table, s);
      assert ShiftText([], -s) == [];
      NoLettersNoScore([], a, table, s);
    }
  }

  /** The error is finite when the table has every letter and every
      frequency is finite. */
  lemma FiniteDeviations(table: map<char, real>, freq: map<char, Num>, a: seq<char>)
    requires forall c :: c in a ==> c in freq && freq[c].Fin? && c in table
    ensures Sum(Deviations(table, freq, a)).Fin?
  {
    SumFinite(Deviations(table, freq, a));
  }

  /** With a built-in alphabet and its own table, a non-empty ciphertext of
      that alphabet gives every candidate a finite error. */
  lemma BuiltInScoresFinite(text: seq<char>, english: bool, s: int)
    requires |text| > 0 && Over(text, AlphabetFor(english))
    ensures ShiftError(text, AlphabetFor(english), TableFor(english), s).Fin?
  {
    var a := AlphabetFor(english);
    var table := TableFor(english);
    var plain := ShiftText(text, -s);
    assert CountIn(plain, a) > 0 by {
      ShiftStaysInAlphabet(text, -s, english);
      NonEmptyOverCounts(plain, a);
    }
    var freq := GetFrequency(plain, a);
    forall c | c in a
      ensures c in freq && freq[c].Fin? && c in table
    {
      TableCoversAlphabet(english);
      FrequencyBounds(plain, a, c);
    }
    FiniteDeviations(table, freq, a);
  }

  /** `BuiltInScoresFinite`, read off the error list. */
  lemma BuiltInErrorFinite(text: seq<char>, english: bool, s: int)
    requires |text| > 0 && Over(text, AlphabetFor(english))
    requires 0 <= s < |AlphabetFor(english)|
    ensures Errors(text, AlphabetFor(english), TableFor(english))[s].Fin?
  {
    ErrorsAt(text, AlphabetFor(english), TableFor(english), s);
    BuiltInScoresFinite(text, english, s);
  }

  /** When every error is finite, the first minimum is in range, no larger
      than any error, and strictly smaller than every earlier one. */
  lemma FirstMinimumOfFinite(errs: seq<Num>, r: int)
    requires |errs| > 0 && forall s :: 0 <= s < |errs| ==> errs[s].Fin?
    requires IsFirstMinimum(errs, r)
    ensures 0 <= r < |errs|
    ensures forall s :: 0 <= s < |errs| ==> AtMost(errs[r], errs[s])
    ensures forall s :: 0 <= s < r ==> Below(errs[r], errs[s])
  {
    assert errs[0].Fin?;
  }

  /** For a non-empty ciphertext in a built-in language every candidate shift
      has a finite error, so the recovered shift is in range, its error is no
      larger than that of any shift, and every earlier shift has a strictly
      larger error. */
  lemma RecoveredShiftIsFirstMinimum(text: seq<char>, english: bool, r: int)
    requires |text| > 0 && Over(text, AlphabetFor(english))
    requires IsRecoveredShift(text, AlphabetFor(english), TableFor(english), r)
    ensures 0 <= r < |AlphabetFor(english)|
    ensures forall s :: 0 <= s < |AlphabetFor(english)| ==>
      AtMost(Errors(text, AlphabetFor(english), TableFor(english))[r],
             Errors(text, AlphabetFor(english), TableFor(english))[s])
    ensures forall s :: 0 <= s < r ==>
      Below(Errors(text, AlphabetFor(english), TableFor(english))[r],
            Errors(text, AlphabetFor(english), TableFor(english))[s])
  {
    var errs := Errors(text, AlphabetFor(english), TableFor(english));
    forall s | 0 <= s < |errs|
      ensures errs[s].Fin?
    {
      BuiltInErrorFinite(text, english, s);
    }
    FirstMinimumOfFinite(errs, r);
  }
}
