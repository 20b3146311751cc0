/** The display format applied to every text the application shows:
    `t.replace(/\s/g, '').replace(/(\D{5})/g, '$1 ').trim()` — whitespace
    removed, a space after every run of five non-digits, the ends trimmed. */
module Grouping {
  import opened Alphabets
  import opened Normalizer

  /** JavaScript's `\s`, which is also the set `trim` removes: tab, line
      feed, vertical tab, form feed, carriage return, space, no-break space,
      U+1680, U+2000..U+200A, U+2028, U+2029, U+202F, U+205F, U+3000 and the
      byte order mark U+FEFF. */
  predicate IsSpace(c: char)
    ensures IsSpace(c) ==> !IsDigit(c) && !IsLetter(c)
  {
    var x := c as int;
    || 0x09 <= x <= 0x0D
    || x == 0x20 || x == 0xA0 || x == 0x1680
    || 0x2000 <= x <= 0x200A
    || x == 0x2028 || x == 0x2029 || x == 0x202F || x == 0x205F
    || x == 0x3000 || x == 0xFEFF
  }

  /** JavaScript's `\d`. */
  predicate IsDigit(c: char) {
    '0' <= c <= '9'
  }

  predicate NoSpace(t: seq<char>) {
    forall i :: 0 <= i < |t| ==> !IsSpace(t[i])
  }

  predicate NoDigit(t: seq<char>) {
    forall i :: 0 <= i < |t| ==> !IsDigit(t[i])
  }

  /** `replace(/\s/g, '')`. */
  function StripSpaces(t: seq<char>): (r: seq<char>)
    ensures NoSpace(r)
  {
    if |t| == 0 then []
    else (if IsSpace(t[0]) then [] else [t[0]]) + StripSpaces(t[1..])
  }

  /** `replace(/(\D{5})/g, '$1 ')`: scanning from the left, five consecutive
      non-digits are copied followed by a space and the scan resumes after
      them; where no such run starts, one character is copied unchanged. */
  function GroupFives(t: seq<char>): seq<char>
    decreases |t|
  {
    if |t| >= 5 && NoDigit(t[..5]) then t[..5] + " " + GroupFives(t[5..])
    else if |t| == 0 then []
    else [t[0]] + GroupFives(t[1..])
  }

  /** `trimStart()`: the longest suffix of `t` that does not start with
      whitespace; everything cut off is whitespace. */
  function TrimStart(t: seq<char>): (r: seq<char>)
    ensures |r| > 0 ==> !IsSpace(r[0])
    ensures |r| <= |t| && r == t[|t| - |r|..]
    ensures forall i :: 0 <= i < |t| - |r| ==> IsSpace(t[i])
  {
    if |t| > 0 && IsSpace(t[0]) then TrimStart(t[1..]) else t
  }

  /** `trimEnd()`: the longest prefix of `t` that does not end with
      whitespace; everything cut off is whitespace. */
  function TrimEnd(t: seq<char>): (r: seq<char>)
    ensures |r| > 0 ==> !IsSpace(r[|r| - 1])
    ensures |t| > 0 && !IsSpace(t[0]) ==> |r| > 0 && r[0] == t[0]
    ensures |r| <= |t| && r == t[..|r|]
    ensures forall i :: |r| <= i < |t| ==> IsSpace(t[i])
  {
    if |t| > 0 && IsSpace(t[|t| - 1]) then TrimEnd(t[..|t| - 1]) else t
  }

  /** `r` is the piece of `t` starting at `i`, and everything of `t` before
      and after that piece is whitespace. */
  predicate TrimmedAt(t: seq<char>, r: seq<char>, i: int) {
    && 0 <= i <= |t| - |r|
    && r == t[i..i + |r|]
    && (forall j :: 0 <= j < i ==> IsSpace(t[j]))
    && (forall j :: i + |r| <= j < |t| ==> IsSpace(t[j]))
  }

  /** `trim()`: the result is a contiguous piece of `t` with only whitespace
      cut off before and after it, and it neither starts nor ends with
      whitespace; so it differs from `t` only by whitespace and is `t` itself
      when `t` has none at either end. */
  function Trim(t: seq<char>): (r: seq<char>)
    ensures |r| > 0 ==> !IsSpace(r[0]) && !IsSpace(r[|r| - 1])
    ensures exists i :: TrimmedAt(t, r, i)
    ensures StripSpaces(r) == StripSpaces(t)
    ensures (|t| == 0 || (!IsSpace(t[0]) && !IsSpace(t[|t| - 1]))) ==> r == t
  {
    var s := TrimStart(t);
    PieceOfSuffix(t, s, TrimEnd(s), |t| - |s|);
    StripTrimStart(t);
    StripTrimEnd(s);
    TrimEnd(s)
  }

  /** A prefix `r` of the suffix `s` of `t` starting at `i`, with whitespace
      before `i` and after `r`, is `t` trimmed at `i`. */
  lemma PieceOfSuffix(t: seq<char>, s: seq<char>, r: seq<char>, i: int)
    requires 0 <= i <= |t| && s == t[i..] && |r| <= |s| && r == s[..|r|]
    requires forall j :: 0 <= j < i ==> IsSpace(t[j])
    requires forall j :: |r| <= j < |s| ==> IsSpace(s[j])
    ensures TrimmedAt(t, r, i)
  {
    assert r == t[i..i + |r|];
    forall j | i + |r| <= j < |t|
      ensures IsSpace(t[j])
    {
      assert t[j] == s[j - i];
    }
  }


  /** The grouping expression, lifted out of its call sites. */
  function Format(t: seq<char>): (r: seq<char>)
    ensures |r| > 0 ==> !IsSpace(r[0]) && !IsSpace(r[|r| - 1])
  {
    Trim(GroupFives(StripSpaces(t)))
  }

  /** Reference layout: the text cut into groups of five, with one space
      between consecutive groups. */
  function Chunked(s: seq<char>): seq<char>
    decreases |s|
  {
    if |s| <= 5 then s else s[..5] + " " + Chunked(s[5..])
  }

  // ---------------------------------------------------------------------------
  // Whitespace removal

  lemma {:induction false} StripAppend(t: seq<char>, u: seq<char>)
    ensures StripSpaces(t + u) == StripSpaces(t) + StripSpaces(u)
  {
    if |t| == 0 {
      assert t + u == u;
    } else {
      assert (t + u)[1..] == t[1..] + u;
      StripAppend(t[1..], u);
    }
  }

  lemma {:induction false} StripNoSpace(t: seq<char>)
    requires NoSpace(t)
    ensures StripSpaces(t) == t
  {
    if |t| > 0 {
      StripNoSpace(t[1..]);
      assert [t[0]] + t[1..] == t;
    }
  }

  /** `replace(/\s/g, '')` removes every whitespace character and keeps
      every other character as often as it occurs. */
  lemma {:induction false} StripCounts(t: seq<char>, c: char)
    ensures Count(StripSpaces(t), c) == (if IsSpace(c) then 0 else Count(t, c))
  {
    if |t| > 0 {
      var head := if IsSpace(t[0]) then [] else [t[0]];
      StripCounts(t[1..], c);
      CountAppend(head, StripSpaces(t[1..]), c);
      assert [t[0]][1..] == [];
    }
  }

  /** The characters that remain keep their relative order. */
  lemma {:induction false} StripOrder(t: seq<char>)
    ensures IsSubsequence(StripSpaces(t), t)
  {
    if |t| > 0 {
      StripOrder(t[1..]);
      var r := StripSpaces(t);
      if IsSpace(t[0]) {
        assert r == StripSpaces(t[1..]);
        if |r| > 0 {
          assert !IsSpace(r[0]);
          assert r[0] != t[0];
        }
      } else {
        assert r == [t[0]] + StripSpaces(t[1..]);
        assert r[1..] == StripSpaces(t[1..]);
      }
    }
  }

  /** The grouping inserts nothing but spaces. */
  lemma {:induction false} StripGroupFives(t: seq<char>)
    ensures StripSpaces(GroupFives(t)) == StripSpaces(t)
    decreases |t|
  {
    if |t| >= 5 && NoDigit(t[..5]) {
      StripGroupFives(t[5..]);
      StripAppend(t[..5] + " ", GroupFives(t[5..]));
      StripAppend(t[..5], " ");
      StripAppend(t[..5], t[5..]);
      assert t[..5] + t[5..] == t;
    } else if |t| > 0 {
      StripGroupFives(t[1..]);
      StripAppend([t[0]], GroupFives(t[1..]));
      StripAppend([t[0]], t[1..]);
      assert [t[0]] + t[1..] == t;
    }
  }

  lemma {:induction false} StripTrimStart(t: seq<char>)
    ensures StripSpaces(TrimStart(t)) == StripSpaces(t)
  {
    if |t| > 0 && IsSpace(t[0]) {
      StripTrimStart(t[1..]);
    }
  }

  lemma {:induction false} StripTrimEnd(t: seq<char>)
    ensures StripSpaces(TrimEnd(t)) == StripSpaces(t)
  {
    if |t| > 0 && IsSpace(t[|t| - 1]) {
      var p := t[..|t| - 1];
      StripTrimEnd(p);
      StripAppend(p, [t[|t| - 1]]);
      assert p + [t[|t| - 1]] == t;
    }
  }

  /** Removing the whitespace from the formatted text gives back the input
      with its whitespace removed: the format only moves spaces around. */
  lemma FormatKeepsText(t: seq<char>)
    ensures StripSpaces(Format(t)) == StripSpaces(t)
  {
    var g := GroupFives(StripSpaces(t));
    StripTrimStart(g);
    StripTrimEnd(TrimStart(g));
    StripGroupFives(StripSpaces(t));
    StripNoSpace(StripSpaces(t));
  }

  // ---------------------------------------------------------------------------
  // Layout of a plain text (no whitespace, no digits)

  /** Fewer than five characters are copied one by one. */
  lemma {:induction false} GroupShort(s: seq<char>)
    requires |s| < 5
    ensures GroupFives(s) == s
  {
    if |s| > 0 {
      GroupShort(s[1..]);
      assert [s[0]] + s[1..] == s;
    }
  }

  /** On a digit-free text the grouping is the reference layout, plus one
      trailing space when the length is a positive multiple of five. */
  lemma {:induction false} GroupPlain(s: seq<char>)
    requires NoDigit(s)
    ensures GroupFives(s) == Chunked(s) + (if |s| > 0 && |s| % 5 == 0 then " " else [])
    decreases |s|
  {
    if |s| < 5 {
      GroupShort(s);
    } else if |s| == 5 {
      assert s[5..] == [];
      assert s[..5] == s;
    } else {
      GroupPlain(s[5..]);
    }
  }

  lemma {:induction false} ChunkedEnds(s: seq<char>)
    requires |s| > 0
    ensures |Chunked(s)| > 0
    ensures Chunked(s)[0] == s[0]
    ensures Chunked(s)[|Chunked(s)| - 1] == s[|s| - 1]
    decreases |s|
  {
    if |s| > 5 {
      ChunkedEnds(s[5..]);
    }
  }

  /** Trimming a text that ends in a non-space, with or without one extra
      trailing space, gives the text. */
  lemma TrimPadded(c: seq<char>, pad: seq<char>)
    requires |c| > 0 && !IsSpace(c[0]) && !IsSpace(c[|c| - 1])
    requires pad == [] || pad == " "
    ensures Trim(c + pad) == c
  {
    var g := c + pad;
    assert TrimStart(g) == g;
    assert TrimEnd(c) == c;
    if pad == " " {
      assert IsSpace(g[|g| - 1]);
      assert g[..|g| - 1] == c;
      assert TrimEnd(g) == TrimEnd(c);
    } else {
      assert g == c;
    }
  }

  /** On a plain text the format is exactly the reference layout. */
  lemma FormatPlain(s: seq<char>)
    requires NoSpace(s) && NoDigit(s)
    ensures Format(s) == Chunked(s)
  {
    StripNoSpace(s);
    GroupPlain(s);
    if |s| > 0 {
      ChunkedEnds(s);
      TrimPadded(Chunked(s), if |s| % 5 == 0 then " " else []);
    }
  }

  /** The reference layout: a space exactly at every sixth position, the
      text's characters everywhere else in order, so every group has five
      characters except possibly the last, which has one to five. */
  lemma ChunkedLayout(s: seq<char>)
    requires NoSpace(s)
    ensures |Chunked(s)| == (if |s| == 0 then 0 else |s| + (|s| - 1) / 5)
    ensures forall i :: 0 <= i < |Chunked(s)| ==> (IsSpace(Chunked(s)[i]) <==> i % 6 == 5)
    ensures forall i :: 0 <= i < |Chunked(s)| && i % 6 != 5 ==> Chunked(s)[i] == s[i - i / 6]
  {
    ChunkedLength(s);
    forall i | 0 <= i < |Chunked(s)|
      ensures IsSpace(Chunked(s)[i]) <==> i % 6 == 5
      ensures i % 6 != 5 ==> Chunked(s)[i] == s[i - i / 6]
    {
      ChunkedAt(s, i);
    }
  }

  lemma {:induction false} ChunkedLength(s: seq<char>)
    ensures |Chunked(s)| == (if |s| == 0 then 0 else |s| + (|s| - 1) / 5)
    decreases |s|
  {
    if |s| > 5 {
      ChunkedLength(s[5..]);
      assert |Chunked(s)| == 6 + |Chunked(s[5..])|;
    }
  }

  /** One position of the reference layout. */
  lemma {:induction false} ChunkedAt(s: seq<char>, i: int)
    requires NoSpace(s)
    requires 0 <= i < |Chunked(s)|
    ensures i % 6 == 5 ==> Chunked(s)[i] == ' '
    ensures i % 6 != 5 ==> 0 <= i - i / 6 < |s| && Chunked(s)[i] == s[i - i / 6]
    decreases |s|
  {
    if |s| <= 5 {
      assert i < 5;
      SmallPosition(i);
    } else {
      var rest := s[5..];
      var q := Chunked(rest);
      assert Chunked(s) == s[..5] + " " + q;
      if i < 6 {
        SmallPosition(i);
      } else {
        assert Chunked(s)[i] == q[i - 6];
        ChunkedAt(rest, i - 6);
        NextGroup(i);
      }
    }
  }

  /** Within the first group, position and index agree. */
  lemma SmallPosition(i: int)
    requires 0 <= i < 6
    ensures i % 6 == i && i / 6 == 0
  {
  }

  /** Moving on by one group of six. */
  lemma NextGroup(i: int)
    requires i >= 6
    ensures (i - 6) % 6 == i % 6 && (i - 6) / 6 == i / 6 - 1
  {
  }

  /** What the user sees for a plain text: spaces exactly at positions
      5, 11, 17, ..., the text's characters in order everywhere else, no
      leading or trailing space, and the text back once spaces are removed. */
  lemma FormatLayout(s: seq<char>)
    requires NoSpace(s) && NoDigit(s)
    ensures StripSpaces(Format(s)) == s
    ensures |Format(s)| == (if |s| == 0 then 0 else |s| + (|s| - 1) / 5)
    ensures forall i :: 0 <= i < |Format(s)| ==> (IsSpace(Format(s)[i]) <==> i % 6 == 5)
    ensures forall i :: 0 <= i < |Format(s)| && i % 6 != 5 ==> Format(s)[i] == s[i - i / 6]
  {
    FormatKeepsText(s);
    StripNoSpace(s);
    FormatPlain(s);
    ChunkedLayout(s);
  }

  // ---------------------------------------------------------------------------
  // Formatting and normalising

  lemma LetterIsPlain(c: char)
    requires IsLetter(c)
    ensures !IsSpace(c) && !IsDigit(c)
  {
    MembershipByRange(c);
  }

  /** The filter ignores the grouping spaces. */
  lemma {:induction false} FilterChunked(s: seq<char>)
    requires forall i :: 0 <= i < |s| ==> IsLetter(s[i])
    ensures FilterText(Chunked(s), None) == s
    decreases |s|
  {
    if |s| <= 5 {
      FilterFixesKept(s, None);
    } else {
      FilterChunked(s[5..]);
      FilterAppend(s[..5] + " ", Chunked(s[5..]), None);
      FilterAppend(s[..5], " ", None);
      FilterFixesKept(s[..5], None);
      assert FilterText(" ", None) == [] by {
        MembershipByRange(' ');
      }
      assert s[..5] + s[5..] == s;
    }
  }

  /** A normalised text shown in groups of five reads back as the same text:
      normalising the formatted text undoes the grouping. */
  lemma FilterUndoesFormat(s: seq<char>)
    requires forall i :: 0 <= i < |s| ==> IsLetter(s[i])
    ensures FilterText(Format(s), None) == s
  {
    forall i | 0 <= i < |s|
      ensures !IsSpace(s[i]) && !IsDigit(s[i])
    {
      LetterIsPlain(s[i]);
    }
    FormatPlain(s);
    FilterChunked(s);
  }
}
