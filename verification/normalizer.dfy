/** The text normaliser (filterText): upper-cases, folds Ё to Е, keeps only
    letters of the two alphabets, and optionally only those of one alphabet. */
module Normalizer {
  import opened Alphabets

  /** An optional argument. */
  datatype Option<T> = None | Some(value: T)

  /** `String.prototype.toUpperCase` on one character, for the characters
      whose upper case is a single letter of either alphabet (a..z, а..я,
      dotless ı, long ſ and the old Cyrillic letter variants U+1C80..U+1C86)
      and for ё, whose upper case Ё is then folded to Е. Every other character
      is left as it is: Ё and the alphabet letters are already upper case, and
      whatever JavaScript makes of any remaining character is neither a letter
      of either alphabet nor Ё, so the filter drops it either way. */
  function Upper(c: char): (u: char)
    ensures IsLetter(c) ==> u == c
    ensures u != c ==> IsLetter(u) || u == 'Ё'
  {
    var x := c as int;
    if 0x61 <= x <= 0x7A then (x - 0x20) as char         // a..z
    else if 0x430 <= x <= 0x44F then (x - 0x20) as char  // а..я
    else if x == 0x451 then 'Ё'                          // ё
    else if x == 0x131 then 'I'                          // ı
    else if x == 0x17F then 'S'                          // ſ
    else if x == 0x1C80 then 'В'
    else if x == 0x1C81 then 'Д'
    else if x == 0x1C82 then 'О'
    else if x == 0x1C83 then 'С'
    else if x == 0x1C84 || x == 0x1C85 then 'Т'
    else if x == 0x1C86 then 'Ъ'
    else c
  }

  /** Upper-casing followed by the one folding rule: Ё becomes Е. */
  function Canon(c: char): char {
    var u := Upper(c);
    if u == 'Ё' then 'Е' else u
  }

  /** The whole text upper-cased and folded, character by character. */
  function CanonText(t: seq<char>): (u: seq<char>)
    ensures |u| == |t|
    ensures forall i :: 0 <= i < |t| ==> u[i] == Canon(t[i])
  {
    if |t| == 0 then [] else [Canon(t[0])] + CanonText(t[1..])
  }

  /** The optional alphabet argument admits `x`: an absent or empty alphabet
      admits everything. */
  predicate Permitted(x: char, alphabet: Option<seq<char>>) {
    match alphabet
    case None => true
    case Some(a) => |a| == 0 || x in a
  }

  /** A normalised character survives both filters. */
  predicate Kept(x: char, alphabet: Option<seq<char>>) {
    IsLetter(x) && Permitted(x, alphabet)
  }

  /** filterText: the kept characters of the normalised text, in order. Every
      output character is a letter of either alphabet, and of the given
      alphabet when one with letters is passed. */
  function FilterText(t: seq<char>, alphabet: Option<seq<char>>): (r: seq<char>)
    ensures |r| <= |t|
    ensures forall i :: 0 <= i < |r| ==> IsLetter(r[i])
    ensures alphabet.Some? && |alphabet.value| > 0 ==> forall i :: 0 <= i < |r| ==> r[i] in alphabet.value
  {
    if |t| == 0 then []
    else
      var x := Canon(t[0]);
      (if Kept(x, alphabet) then [x] else []) + FilterText(t[1..], alphabet)
  }

  /** `r` can be obtained from `u` by deleting characters. */
  predicate IsSubsequence(r: seq<char>, u: seq<char>)
    decreases |u|
  {
    if |r| == 0 then true
    else if |u| == 0 then false
    else if r[0] == u[0] then IsSubsequence(r[1..], u[1..])
    else IsSubsequence(r, u[1..])
  }

  // ---------------------------------------------------------------------------
  // Properties

  /** Letters of the alphabets are already normal: upper-casing and folding
      leave them alone. */
  lemma CanonFixesLetters(c: char)
    requires IsLetter(c)
    ensures Canon(c) == c
  {
    MembershipByRange(c);
  }

  /** Ё and ё are both normalised to Е. */
  lemma FoldsYo()
    ensures Canon('Ё') == 'Е' && Canon('ё') == 'Е'
  {
  }

  /** The output keeps the relative order of the normalised input. */
  lemma {:induction false} FilterOrder(t: seq<char>, alphabet: Option<seq<char>>)
    ensures IsSubsequence(FilterText(t, alphabet), CanonText(t))
  {
    if |t| > 0 {
      FilterOrder(t[1..], alphabet);
      var r := FilterText(t, alphabet);
      var u := CanonText(t);
      assert u[1..] == CanonText(t[1..]);
      if !Kept(Canon(t[0]), alphabet) && |r| > 0 {
        assert r == FilterText(t[1..], alphabet);
        assert Kept(r[0], alphabet);
        assert r[0] != u[0];
      }
    }
  }

  /** Nothing admissible is lost and nothing else comes through: each kept
      character occurs as often as in the normalised input, every other
      character not at all. */
  lemma {:induction false} FilterCounts(t: seq<char>, alphabet: Option<seq<char>>, x: char)
    ensures Count(FilterText(t, alphabet), x) == (if Kept(x, alphabet) then Count(CanonText(t), x) else 0)
  {
    if |t| > 0 {
      FilterCounts(t[1..], alphabet, x);
      var y := Canon(t[0]);
      CountAppend(if Kept(y, alphabet) then [y] else [], FilterText(t[1..], alphabet), x);
      assert CanonText(t)[1..] == CanonText(t[1..]);
    }
  }

  /** A text of kept characters is left unchanged. */
  lemma {:induction false} FilterFixesKept(t: seq<char>, alphabet: Option<seq<char>>)
    requires forall i :: 0 <= i < |t| ==> Kept(t[i], alphabet)
    ensures FilterText(t, alphabet) == t
  {
    if |t| > 0 {
      CanonFixesLetters(t[0]);
      FilterFixesKept(t[1..], alphabet);
      assert [t[0]] + t[1..] == t;
    }
  }

  /** Normalising twice with the same alphabet is normalising once. */
  lemma FilterIdempotent(t: seq<char>, alphabet: Option<seq<char>>)
    ensures FilterText(FilterText(t, alphabet), alphabet) == FilterText(t, alphabet)
  {
    var r := FilterText(t, alphabet);
    FilterFixesKept(r, alphabet);
  }

  /** Filtering a concatenation filters each part. */
  lemma {:induction false} FilterAppend(t: seq<char>, u: seq<char>, alphabet: Option<seq<char>>)
    ensures FilterText(t + u, alphabet) == FilterText(t, alphabet) + FilterText(u, alphabet)
  {
    if |t| == 0 {
      assert t + u == u;
    } else {
      var x := Canon(t[0]);
      var head := if Kept(x, alphabet) then [x] else [];
      assert (t + u)[0] == t[0] && (t + u)[1..] == t[1..] + u;
      assert FilterText(t + u, alphabet) == head + FilterText(t[1..] + u, alphabet);
      FilterAppend(t[1..], u, alphabet);
      assert head + (FilterText(t[1..], alphabet) + FilterText(u, alphabet))
          == (head + FilterText(t[1..], alphabet)) + FilterText(u, alphabet);
    }
  }

  /** The fold in action: "ёлка" restricted to Russian is "ЕЛКА". */
  lemma ExampleYolka()
    ensures FilterText("ёлка", Some(Russian)) == "ЕЛКА"
  {
    MembershipByRange('Е');
    MembershipByRange('Л');
    MembershipByRange('К');
    MembershipByRange('А');
  }

  /** Without an alphabet both scripts are kept; punctuation and spaces go. */
  lemma ExampleMixed()
    ensures FilterText("Hi, мир!", None) == "HIМИР"
  {
    MembershipByRange('H');
    MembershipByRange('I');
    MembershipByRange('М');
    MembershipByRange('И');
    MembershipByRange('Р');
    MembershipByRange(',');
    MembershipByRange(' ');
    MembershipByRange('!');
  }
}
