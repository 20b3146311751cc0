/** The two fixed alphabets of the cipher (Russian without Ё, and English),
    lookup of a letter's position, and counting characters of a text. */
module Alphabets {

  /** The Russian alphabet as the cipher uses it: 32 capital letters А..Я,
      Ё left out. They are the consecutive code points U+0410..U+042F, which is
      how the constant is built; `SourceSpelling` shows it is the literal
      "АБВГДЕЖЗИЙКЛМНОПРСТУФХЦЧШЩЪЫЬЭЮЯ". */
  const Russian: seq<char> := Block(0x410, 32)

  /** The English alphabet: 26 capital Latin letters, U+0041..U+005A. */
  const English: seq<char> := Block(0x41, 26)

  /** The `n` consecutive characters starting at code point `start`. */
  function Block(start: nat, n: nat): (b: seq<char>)
    requires start + n <= 0xD800
    ensures |b| == n
    ensures forall i :: 0 <= i < n ==> b[i] as int == start + i
  {
    seq(n, i requires 0 <= i < n => (start + i) as char)
  }

  /** The alphabet the language switch selects: English when it is on, Russian otherwise. */
  function AlphabetFor(english: bool): (a: seq<char>)
    ensures |a| == (if english then 26 else 32)
  {
    if english then English else Russian
  }

  /** No character occurs twice. */
  predicate Distinct(a: seq<char>) {
    forall i, j :: 0 <= i < j < |a| ==> a[i] != a[j]
  }

  /** A letter of either alphabet: the only characters the cipher keeps.
      Stated as the two code-point ranges; `LetterIffMember` shows this is
      membership in `Russian` or `English`. */
  predicate IsLetter(c: char) {
    0x410 <= c as int <= 0x42F || 0x41 <= c as int <= 0x5A
  }

  /** Every character of `t` belongs to `a`. */
  predicate Over(t: seq<char>, a: seq<char>) {
    forall i :: 0 <= i < |t| ==> t[i] in a
  }

  /** The letters of `t` in order, every other character dropped. */
  function Letters(t: seq<char>): (r: seq<char>)
    ensures |r| <= |t|
  {
    if |t| == 0 then [] else (if IsLetter(t[0]) then [t[0]] else []) + Letters(t[1..])
  }

  /** Every character `Letters` keeps is a letter. */
  lemma {:induction false} LetterAt(t: seq<char>, i: int)
    requires 0 <= i < |Letters(t)|
    ensures IsLetter(Letters(t)[i])
  {
    if !IsLetter(t[0]) {
      LetterAt(t[1..], i);
    } else if i > 0 {
      LetterAt(t[1..], i - 1);
    }
  }

  /** The alphabet a letter is shifted in: Russian is tried first and English
      overrides it, which only matters if the two overlapped (they do not). */
  function AlphabetOf(c: char): (a: seq<char>)
    requires IsLetter(c)
    ensures c in a
  {
    MembershipByRange(c);
    if c in English then English else Russian
  }

  /** Position of the first occurrence of `c` in `a`. */
  function IndexOf(a: seq<char>, c: char): (i: nat)
    requires c in a
    ensures i < |a| && a[i] == c
  {
    if a[0] == c then 0 else 1 + IndexOf(a[1..], c)
  }

  /** A letter's alphabet is the one it belongs to. */
  lemma AlphabetOfChoice(c: char)
    requires IsLetter(c)
    ensures AlphabetOf(c) == Russian <==> c in Russian
    ensures AlphabetOf(c) == English <==> c in English
  {
    MembershipByRange(c);
    CodePoints();
  }

  /** `IndexOf` finds the first occurrence: no earlier position holds `c`. */
  lemma {:induction false} IndexOfFirst(a: seq<char>, c: char, j: int)
    requires c in a && 0 <= j < IndexOf(a, c)
    ensures a[j] != c
  {
    if j > 0 {
      assert c in a[1..] by {
        var i := IndexOf(a, c);
        assert a[1..][i - 1] == c;
      }
      IndexOfFirst(a[1..], c, j - 1);
    }
  }

  /** Number of occurrences of `c` in `t`. */
  function Count(t: seq<char>, c: char): nat {
    if |t| == 0 then 0 else (if t[0] == c then 1 else 0) + Count(t[1..], c)
  }

  /** Number of characters of `t` that belong to `a`. */
  function CountIn(t: seq<char>, a: seq<char>): nat {
    if |t| == 0 then 0 else (if t[0] in a then 1 else 0) + CountIn(t[1..], a)
  }

  /** A non-empty text is its first character followed by the rest, also
      when something is appended. */
  lemma HeadTail(t: seq<char>, u: seq<char>)
    requires |t| > 0
    ensures t == [t[0]] + t[1..]
    ensures t + u == [t[0]] + (t[1..] + u)
  {
  }

  lemma AppendAssoc(a: seq<char>, b: seq<char>, c: seq<char>)
    ensures a + (b + c) == (a + b) + c
  {
  }

  /** The constants are letter for letter the alphabets spelled out. */
  lemma SourceSpelling()
    ensures Russian == "АБВГДЕЖЗИЙКЛМНОПРСТУФХЦЧШЩЪЫЬЭЮЯ"
    ensures English == "ABCDEFGHIJKLMNOPQRSTUVWXYZ"
  {
  }

  /** The letters are consecutive code points: А..Я is U+0410..U+042F, A..Z is U+0041..U+005A. */
  lemma CodePoints()
    ensures |Russian| == 32 && |English| == 26
    ensures forall i :: 0 <= i < 32 ==> Russian[i] as int == 0x410 + i
    ensures forall i :: 0 <= i < 26 ==> English[i] as int == 0x41 + i
  {
  }

  /** Membership in an alphabet is a code-point range test. */
  lemma MembershipByRange(c: char)
    ensures c in Russian <==> 0x410 <= c as int <= 0x42F
    ensures c in English <==> 0x41 <= c as int <= 0x5A
  {
    CodePoints();
    if 0x410 <= c as int <= 0x42F {
      assert Russian[c as int - 0x410] == c;
    }
    if 0x41 <= c as int <= 0x5A {
      assert English[c as int - 0x41] == c;
    }
  }

  /** A letter is exactly a member of one of the two alphabets. */
  lemma LetterIffMember(c: char)
    ensures IsLetter(c) <==> c in Russian || c in English
  {
    MembershipByRange(c);
  }

  lemma AlphabetsDistinct()
    ensures Distinct(Russian) && Distinct(English)
  {
    CodePoints();
  }

  /** No character is a letter of both alphabets. */
  lemma AlphabetsDisjoint()
    ensures forall c :: c in Russian ==> c !in English
  {
    forall c | c in Russian
      ensures c !in English
    {
      MembershipByRange(c);
    }
  }

  /** In an alphabet without repetitions, `IndexOf` inverts indexing. */
  lemma IndexOfDistinct(a: seq<char>, i: int)
    requires Distinct(a) && 0 <= i < |a|
    ensures IndexOf(a, a[i]) == i
  {
  }

  /** A text over `a` has every character counted by `CountIn`. */
  lemma {:induction false} CountInOver(t: seq<char>, a: seq<char>)
    requires Over(t, a)
    ensures CountIn(t, a) == |t|
  {
    if |t| > 0 {
      CountInOver(t[1..], a);
    }
  }

  /** A character of `a` occurs in `t` at most as often as all letters of `a` together. */
  lemma {:induction false} CountAtMostCountIn(t: seq<char>, a: seq<char>, c: char)
    requires c in a
    ensures Count(t, c) <= CountIn(t, a)
  {
    if |t| > 0 {
      CountAtMostCountIn(t[1..], a, c);
    }
  }

  /** A text of letters only is its own letter sequence. */
  lemma {:induction false} LettersOfLetters(t: seq<char>)
    requires forall i :: 0 <= i < |t| ==> IsLetter(t[i])
    ensures Letters(t) == t
  {
    if |t| > 0 {
      LettersOfLetters(t[1..]);
      assert [t[0]] + t[1..] == t;
    }
  }

  lemma {:induction false} CountAppend(t: seq<char>, u: seq<char>, c: char)
    ensures Count(t + u, c) == Count(t, c) + Count(u, c)
  {
    if |t| > 0 {
      assert (t + u)[1..] == t[1..] + u;
      CountAppend(t[1..], u, c);
    } else {
      assert t + u == u;
    }
  }
}
