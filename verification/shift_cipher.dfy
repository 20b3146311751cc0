/** The shift cipher (getShiftOfAlphabetText): every letter moves `k` places
    along its own alphabet, wrapping around; every other character is dropped.
    Encryption shifts by `k`, decryption by `-k`. */
module ShiftCipher {
  import opened Alphabets

  /** Least common multiple of the two alphabet lengths (32 = 2^5, 26 = 2 * 13). */
  const CommonPeriod: int := 416

  /** JavaScript `%`: the remainder of division truncated toward zero, so it
      takes the sign of the dividend. */
  function JsRem(a: int, n: int): (r: int)
    requires n > 0
    ensures -n < r < n
    ensures a >= 0 ==> r >= 0
    ensures a <= 0 ==> r <= 0
  {
    if a >= 0 then a % n else -((-a) % n)
  }

  /** The JavaScript remainder differs from the dividend by a multiple of
      the divisor: together with its bound and sign this pins it down as the
      truncated remainder. */
  lemma JsRemCongruent(a: int, n: int)
    requires n > 0
    ensures (a - JsRem(a, n)) % n == 0
  {
    if a >= 0 {
      ModUnique(a - a % n, n, a / n, 0);
    } else {
      ModUnique(a - JsRem(a, n), n, -((-a) / n), 0);
    }
  }

  /** The index computation of the cipher: the JavaScript remainder, moved
      into [0, n) by adding n when it came out negative. The result is the
      mathematical (Euclidean) residue of `a` modulo `n`. */
  function WrapIndex(a: int, n: int): (r: int)
    requires n > 0
    ensures 0 <= r < n
  {
    var i := JsRem(a, n);
    if i < 0 then n + i else i
  }

  /** The index computation yields the mathematical (Euclidean) residue of
      `a` modulo `n`, for negative `a` as well. */
  lemma WrapIndexIsResidue(a: int, n: int)
    requires n > 0
    ensures WrapIndex(a, n) == a % n
  {
    WrappedRemainder(a, n);
  }

  /** Reference definition of one shifted letter by code-point arithmetic
      within the letter's block of consecutive code points (meant for
      letters; any other character is treated as if it were Latin). */
  function Rotate(c: char, k: int): (r: char)
  {
    if 0x410 <= c as int <= 0x42F then (0x410 + (c as int - 0x410 + k) % 32) as char
    else (0x41 + (c as int - 0x41 + k) % 26) as char
  }

  /** One character of getShiftOfAlphabetText: a letter is replaced by the
      letter `k` places further along its alphabet; anything else becomes the
      empty string. */
  function ShiftChar(c: char, k: int): (r: seq<char>)
    ensures !IsLetter(c) ==> r == []
    ensures IsLetter(c) ==> |r| == 1
  {
    if !IsLetter(c) then []
    else
      var a := AlphabetOf(c);
      [a[WrapIndex(IndexOf(a, c) + k, |a|)]]
  }

  /** A shifted letter is the letter at the true residue of its index plus
      `k` modulo the alphabet's length, which is a letter of the same alphabet
      and the code-point rotation of the input. */
  lemma ShiftCharSpec(c: char, k: int)
    requires IsLetter(c)
    ensures ShiftChar(c, k)[0] in AlphabetOf(c)
    ensures ShiftChar(c, k)[0] == AlphabetOf(c)[(IndexOf(AlphabetOf(c), c) + k) % |AlphabetOf(c)|]
    ensures ShiftChar(c, k) == [Rotate(c, k)]
  {
    var a := AlphabetOf(c);
    WrapIndexIsResidue(IndexOf(a, c) + k, |a|);
    RotateAgrees(c, k);
  }

  /** getShiftOfAlphabetText: the shifted letters of `t`, in order. */
  function ShiftText(t: seq<char>, k: int): (r: seq<char>)
    ensures |r| == |Letters(t)|
  {
    if |t| == 0 then [] else ShiftChar(t[0], k) + ShiftText(t[1..], k)
  }

  /** The shifted text is, position by position, the code-point rotation of
      the letters of the input. */
  lemma ShiftTextSpec(t: seq<char>, k: int)
    ensures forall i :: 0 <= i < |ShiftText(t, k)| ==>
      ShiftText(t, k)[i] == Rotate(Letters(t)[i], k)
  {
    forall i | 0 <= i < |ShiftText(t, k)|
      ensures ShiftText(t, k)[i] == Rotate(Letters(t)[i], k)
    {
      ShiftTextAt(t, k, i);
    }
  }

  /** One position of `ShiftTextSpec`. */
  lemma {:induction false} ShiftTextAt(t: seq<char>, k: int, i: int)
    requires 0 <= i < |Letters(t)|
    ensures i < |ShiftText(t, k)|
    ensures ShiftText(t, k)[i] == Rotate(Letters(t)[i], k)
  {
    var c, rest := t[0], t[1..];
    if IsLetter(c) {
      assert ShiftText(t, k) == [Rotate(c, k)] + ShiftText(rest, k) by {
        ShiftCharSpec(c, k);
      }
      assert Letters(t) == [c] + Letters(rest);
      if i > 0 {
        ShiftTextAt(rest, k, i - 1);
      }
    } else {
      assert ShiftText(t, k) == ShiftText(rest, k);
      assert Letters(t) == Letters(rest);
      ShiftTextAt(rest, k, i);
    }
  }

  // ---------------------------------------------------------------------------
  // Modular arithmetic

  /** Euclidean division is unique: any `q, r` with `a == q*n + r` and
      `0 <= r < n` give the residue. */
  lemma ModUnique(a: int, n: int, q: int, r: int)
    requires n > 0 && 0 <= r < n && a == q * n + r
    ensures a % n == r
  {
    var d := q - a / n;
    assert a == (a / n) * n + a % n;
    assert d * n == a % n - r;
    if d > 0 {
      MulAtLeast(d, n);
    } else if d < 0 {
      MulAtLeast(-d, n);
    }
  }

  lemma MulAtLeast(d: int, n: int)
    requires d >= 1 && n > 0
    ensures d * n >= n
  {
    assert d * n == (d - 1) * n + n;
    assert (d - 1) * n >= 0;
  }

  /** The negative JavaScript remainder plus `n` is the Euclidean residue. */
  lemma WrappedRemainder(a: int, n: int)
    requires n > 0
    ensures (if JsRem(a, n) < 0 then n + JsRem(a, n) else JsRem(a, n)) == a % n
  {
    if a < 0 {
      var q := (-a) / n;
      var m := (-a) % n;
      assert -a == q * n + m;
      if m > 0 {
        ModUnique(a, n, -q - 1, n - m);
      } else {
        ModUnique(a, n, -q, 0);
      }
    }
  }

  /** Adding a multiple of `n` does not change the residue. */
  lemma ModAddMultiple(x: int, q: int, n: int)
    requires n > 0
    ensures (x + q * n) % n == x % n
  {
    assert x == (x / n) * n + x % n;
    assert x + q * n == (x / n + q) * n + x % n;
    ModUnique(x + q * n, n, x / n + q, x % n);
  }

  /** Reducing before adding gives the same residue. */
  lemma ModOfMod(x: int, b: int, n: int)
    requires n > 0
    ensures (x % n + b) % n == (x + b) % n
  {
    assert x + b == (x % n + b) + (x / n) * n;
    ModAddMultiple(x % n + b, x / n, n);
  }

  // ---------------------------------------------------------------------------
  // Properties

  /** The index-based shift of the source agrees with code-point rotation. */
  lemma RotateAgrees(c: char, k: int)
    requires IsLetter(c)
    ensures AlphabetOf(c)[(IndexOf(AlphabetOf(c), c) + k) % |AlphabetOf(c)|] == Rotate(c, k)
  {
    CodePoints();
    AlphabetsDistinct();
    MembershipByRange(c);
    var a := AlphabetOf(c);
    if c in Russian {
      var i := c as int - 0x410;
      assert a[i] == c;
      IndexOfDistinct(a, i);
      var j := (i + k) % 32;
      assert a[j] as int == 0x410 + j;
    } else {
      var i := c as int - 0x41;
      assert a[i] == c;
      IndexOfDistinct(a, i);
      var j := (i + k) % 26;
      assert a[j] as int == 0x41 + j;
    }
  }

  /** A shifted letter stays in its own alphabet. */
  lemma RotateStays(c: char, k: int)
    requires IsLetter(c)
    ensures IsLetter(Rotate(c, k))
    ensures Rotate(c, k) in Russian <==> c in Russian
    ensures Rotate(c, k) in English <==> c in English
  {
    MembershipByRange(c);
    MembershipByRange(Rotate(c, k));
  }

  /** Shifting a letter by `a` then by `b` is shifting it by `a + b`. */
  lemma RotateCompose(c: char, a: int, b: int)
    requires IsLetter(c)
    ensures IsLetter(Rotate(c, a))
    ensures Rotate(Rotate(c, a), b) == Rotate(c, a + b)
  {
    RotateStays(c, a);
    MembershipByRange(c);
    if c in Russian {
      ModOfMod(c as int - 0x410 + a, b, 32);
    } else {
      ModOfMod(c as int - 0x41 + a, b, 26);
    }
  }

  lemma RotateZero(c: char)
    requires IsLetter(c)
    ensures Rotate(c, 0) == c
  {
    MembershipByRange(c);
    if c in Russian {
      assert (c as int - 0x410 + 0) % 32 == c as int - 0x410;
    } else {
      assert (c as int - 0x41 + 0) % 26 == c as int - 0x41;
    }
  }

  /** Shifting a letter by a multiple of its alphabet's length changes nothing. */
  lemma RotatePeriod(c: char, k: int, q: int)
    requires IsLetter(c)
    ensures Rotate(c, k + q * |AlphabetOf(c)|) == Rotate(c, k)
  {
    MembershipByRange(c);
    CodePoints();
    if c in Russian {
      ModAddMultiple(c as int - 0x410 + k, q, 32);
      assert c as int - 0x410 + (k + q * 32) == c as int - 0x410 + k + q * 32;
    } else {
      ModAddMultiple(c as int - 0x41 + k, q, 26);
      assert c as int - 0x41 + (k + q * 26) == c as int - 0x41 + k + q * 26;
    }
  }

  /** The cipher keeps exactly the letters, and keeps each in its alphabet:
      a text over one alphabet becomes a text over the same alphabet of the
      same length. */
  lemma ShiftStaysInAlphabet(t: seq<char>, k: int, english: bool)
    requires Over(t, AlphabetFor(english))
    ensures |ShiftText(t, k)| == |t|
    ensures Over(ShiftText(t, k), AlphabetFor(english))
  {
    LettersOfLetters(t);
    ShiftTextSpec(t, k);
    forall i | 0 <= i < |t|
      ensures ShiftText(t, k)[i] in AlphabetFor(english)
    {
      RotateStays(t[i], k);
    }
  }

  /** The cipher's output is letters only, so its letter sequence is itself. */
  lemma ShiftedIsLetters(t: seq<char>, k: int)
    ensures forall i :: 0 <= i < |ShiftText(t, k)| ==> IsLetter(ShiftText(t, k)[i])
    ensures Letters(ShiftText(t, k)) == ShiftText(t, k)
  {
    var u := ShiftText(t, k);
    ShiftTextSpec(t, k);
    forall i | 0 <= i < |u|
      ensures IsLetter(u[i])
    {
      LetterAt(t, i);
      RotateStays(Letters(t)[i], k);
    }
    LettersOfLetters(u);
  }

  /** The cipher works character by character, so it distributes over concatenation. */
  lemma {:induction false} ShiftAppend(t: seq<char>, u: seq<char>, k: int)
    ensures ShiftText(t + u, k) == ShiftText(t, k) + ShiftText(u, k)
  {
    if |t| == 0 {
      assert t + u == u;
    } else {
      var c, rest := t[0], t[1..];
      HeadTail(t, u);
      ShiftCons(c, rest + u, k);
      ShiftCons(c, rest, k);
      ShiftAppend(rest, u, k);
      AppendAssoc(ShiftChar(c, k), ShiftText(rest, k), ShiftText(u, k));
    }
  }

  /** The shift of a text is the shift of its first character followed by
      the shift of the rest. */
  lemma ShiftCons(c: char, t: seq<char>, k: int)
    ensures ShiftText([c] + t, k) == ShiftChar(c, k) + ShiftText(t, k)
  {
    assert ([c] + t)[0] == c && ([c] + t)[1..] == t;
  }

  /** Shifting one character by `a` then by `b` is shifting it by `a + b`. */
  lemma ShiftCharCompose(c: char, a: int, b: int, s: int)
    requires a + b == s
    ensures ShiftText(ShiftChar(c, a), b) == ShiftChar(c, s)
  {
    if IsLetter(c) {
      ShiftCharSpec(c, a);
      ShiftCharSpec(c, s);
      RotateCompose(c, a, b);
      var d := Rotate(c, a);
      ShiftCharSpec(d, b);
      assert [d][1..] == [];
    }
  }

  /** Shifting by `a` then by `b` is shifting by their sum `s`. The sum is a
      parameter so that callers name it without arithmetic inside `ShiftText`. */
  lemma {:induction false} ShiftCompose(t: seq<char>, a: int, b: int, s: int)
    requires a + b == s
    ensures ShiftText(ShiftText(t, a), b) == ShiftText(t, s)
  {
    if |t| > 0 {
      ShiftAppend(ShiftChar(t[0], a), ShiftText(t[1..], a), b);
      ShiftCharCompose(t[0], a, b, s);
      ShiftCompose(t[1..], a, b, s);
    }
  }

  /** A zero shift only drops the non-letters. */
  lemma ShiftZero(t: seq<char>)
    ensures ShiftText(t, 0) == Letters(t)
  {
    ShiftTextSpec(t, 0);
    forall i | 0 <= i < |Letters(t)|
      ensures ShiftText(t, 0)[i] == Letters(t)[i]
    {
      LetterAt(t, i);
      RotateZero(Letters(t)[i]);
    }
  }

  /** Decryption undoes encryption up to the dropped non-letters: shifting
      by `k` then by `-k` gives back the letters of the text. */
  lemma RoundTrip(t: seq<char>, k: int)
    ensures ShiftText(ShiftText(t, k), -k) == Letters(t)
  {
    ShiftCancel(t, k);
    ShiftZero(t);
  }

  /** Shifting by `k` then by `-k` is the zero shift. */
  lemma ShiftCancel(t: seq<char>, k: int)
    ensures ShiftText(ShiftText(t, k), -k) == ShiftText(t, 0)
  {
    ShiftCompose(t, k, -k, 0);
  }

  /** On a text of letters only, decryption gives back exactly the text. */
  lemma RoundTripOnLetters(t: seq<char>, k: int)
    requires forall i :: 0 <= i < |t| ==> IsLetter(t[i])
    ensures ShiftText(ShiftText(t, k), -k) == t
  {
    RoundTrip(t, k);
    LettersOfLetters(t);
  }

  /** On a text over one alphabet, shifts that differ by the alphabet's length agree. */
  lemma Period(t: seq<char>, k: int, english: bool)
    requires Over(t, AlphabetFor(english))
    ensures ShiftText(t, k + |AlphabetFor(english)|) == ShiftText(t, k)
  {
    var n := |AlphabetFor(english)|;
    forall i | 0 <= i < |t|
      ensures IsLetter(t[i])
    {
    }
    LettersOfLetters(t);
    ShiftTextSpec(t, k);
    ShiftTextSpec(t, k + n);
    forall i | 0 <= i < |t|
      ensures ShiftText(t, k + n)[i] == ShiftText(t, k)[i]
    {
      RotatePeriodIn(t[i], k, english);
    }
  }

  lemma RotatePeriodIn(c: char, k: int, english: bool)
    requires c in AlphabetFor(english)
    ensures IsLetter(c)
    ensures Rotate(c, k + |AlphabetFor(english)|) == Rotate(c, k)
  {
    AlphabetsDisjoint();
    RotatePeriod(c, k, 1);
  }

  /** On any text, mixing both alphabets, shifts that differ by 416 agree. */
  lemma MixedPeriod(t: seq<char>, k: int)
    ensures ShiftText(t, k + CommonPeriod) == ShiftText(t, k)
  {
    ShiftTextSpec(t, k);
    ShiftTextSpec(t, k + CommonPeriod);
    forall i | 0 <= i < |Letters(t)|
      ensures ShiftText(t, k + CommonPeriod)[i] == ShiftText(t, k)[i]
    {
      var c := Letters(t)[i];
      LetterAt(t, i);
      MembershipByRange(c);
      if c in Russian {
        RotatePeriod(c, k, 13);
      } else {
        RotatePeriod(c, k, 16);
      }
    }
  }

  /** "ABC" shifted by 3 is "DEF". */
  lemma ExampleForward()
    ensures ShiftText("ABC", 3) == "DEF"
  {
    assert [Rotate('A', 3), Rotate('B', 3), Rotate('C', 3)] == "DEF";
    ShiftThree('A', 'B', 'C', 3);
  }

  /** "ABC" shifted by -1 wraps around to "ZAB". */
  lemma ExampleWrap()
    ensures ShiftText("ABC", -1) == "ZAB"
  {
    assert [Rotate('A', -1), Rotate('B', -1), Rotate('C', -1)] == "ZAB";
    ShiftThree('A', 'B', 'C', -1);
  }

  /** Russian wraps at Я: "ЭЮЯ" shifted by 2 is "ЯАБ". */
  lemma ExampleRussian()
    ensures ShiftText("ЭЮЯ", 2) == "ЯАБ"
  {
    assert [Rotate('Э', 2), Rotate('Ю', 2), Rotate('Я', 2)] == "ЯАБ";
    ShiftThree('Э', 'Ю', 'Я', 2);
  }

  /** A three-letter word is shifted letter by letter. */
  lemma ShiftThree(x: char, y: char, z: char, k: int)
    requires IsLetter(x) && IsLetter(y) && IsLetter(z)
    ensures ShiftText([x, y, z], k) == [Rotate(x, k), Rotate(y, k), Rotate(z, k)]
  {
    var sx, sy, sz := [Rotate(x, k)], [Rotate(y, k)], [Rotate(z, k)];
    assert ShiftText([x], k) == sx by { ShiftCapital(x, k); }
    assert ShiftText([y], k) == sy by { ShiftCapital(y, k); }
    assert ShiftText([z], k) == sz by { ShiftCapital(z, k); }
    assert ShiftText([y] + [z], k) == sy + sz by { ShiftAppend([y], [z], k); }
    assert ShiftText([x] + ([y] + [z]), k) == sx + (sy + sz) by {
      ShiftAppend([x], [y] + [z], k);
    }
    assert [x] + ([y] + [z]) == [x, y, z];
  }

  /** A letter on its own is shifted by code-point rotation. */
  lemma ShiftCapital(c: char, k: int)
    requires IsLetter(c)
    ensures ShiftText([c], k) == [Rotate(c, k)]
  {
    MembershipByRange(c);
    ShiftCharSpec(c, k);
    assert [c][1..] == [];
  }
}
