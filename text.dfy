/**
 * String operations the bot's handlers apply to chat text: Python's
 * `str.strip()`, the anchored `re.sub` that strips whitespace and hyphens,
 * `str.replace(x, '')` with `str.split(x)` as its reference definition,
 * and `str(i)` for a counter.
 * Strings are sequences of characters; the character classes are the
 * ASCII members of the classes Python uses.
 */
module TextOps {

  /** Characters Python's `str.isspace()` and `\s` accept, restricted to ASCII:
      tab, line feed, vertical tab, form feed, carriage return,
      the four information separators 0x1C..0x1F, and the space. */
  predicate IsSpace(c: char) {
    (0x09 <= c as int <= 0x0D) || (0x1C <= c as int <= 0x20)
  }

  predicate IsNotSpace(c: char) {
    !IsSpace(c)
  }

  /** The character class `[\s\-]` of the clean-up regular expression. */
  predicate IsSpaceOrHyphen(c: char) {
    IsSpace(c) || c == '-'
  }

  /** An ASCII decimal digit, the model's `\d`. */
  predicate IsDigit(c: char) {
    '0' <= c <= '9'
  }

  predicate AllSatisfy(s: string, p: char -> bool) {
    forall i :: 0 <= i < |s| ==> p(s[i])
  }

  /* ---------------------------------------------------------------------
     Trimming
     --------------------------------------------------------------------- */

  /** Drops the longest prefix whose characters all satisfy `drop`. */
  function TrimStart(s: string, drop: char -> bool): (r: string)
    ensures |r| <= |s|
    ensures AllSatisfy(s[..|s| - |r|], drop)
    ensures r == [] || !drop(r[0])
    decreases |s|
  {
    if s != [] && drop(s[0]) then
      var r := TrimStart(s[1..], drop);
      assert s[1..][..|s| - 1 - |r|] == s[1..|s| - |r|];
      r
    else
      s
  }

  /** Drops the longest suffix whose characters all satisfy `drop`. */
  function TrimEnd(s: string, drop: char -> bool): (r: string)
    ensures |r| <= |s|
    ensures AllSatisfy(s[|r|..], drop)
    ensures r == [] || !drop(r[|r| - 1])
    decreases |s|
  {
    if s != [] && drop(s[|s| - 1]) then
      var r := TrimEnd(s[..|s| - 1], drop);
      assert s[..|s| - 1][|r|..] == s[|r|..|s| - 1];
      r
    else
      s
  }

  /** The start-trim is a suffix of the text. */
  lemma {:induction false} TrimStartSuffix(s: string, drop: char -> bool)
    ensures TrimStart(s, drop) == s[|s| - |TrimStart(s, drop)|..]
    decreases |s|
  {
    if s != [] && drop(s[0]) {
      var r := TrimStart(s[1..], drop);
      TrimStartSuffix(s[1..], drop);
      assert s[1..][|s| - 1 - |r|..] == s[|s| - |r|..];
    } else {
      assert s[0..] == s;
    }
  }

  /** The end-trim is a prefix of the text. */
  lemma {:induction false} TrimEndPrefix(s: string, drop: char -> bool)
    ensures TrimEnd(s, drop) == s[..|TrimEnd(s, drop)|]
    decreases |s|
  {
    if s != [] && drop(s[|s| - 1]) {
      var r := TrimEnd(s[..|s| - 1], drop);
      TrimEndPrefix(s[..|s| - 1], drop);
      assert s[..|s| - 1][..|r|] == s[..|r|];
    } else {
      assert s[..|s|] == s;
    }
  }

  /** Drops both the longest prefix and the longest suffix of `drop` characters. */
  function Strip(s: string, drop: char -> bool): (r: string)
    ensures |r| <= |s|
    ensures r == [] || (!drop(r[0]) && !drop(r[|r| - 1]))
  {
    var t := TrimStart(s, drop);
    TrimEndPrefix(t, drop);
    TrimEnd(t, drop)
  }

  /** Python's `str.strip()` with no argument. */
  function Trim(s: string): (r: string)
    ensures |r| <= |s|
    ensures r == [] || (!IsSpace(r[0]) && !IsSpace(r[|r| - 1]))
  {
    Strip(s, IsSpace)
  }

  /** What is left of `s` after stripping is the piece of `s` at
      `StripOffset`, with only dropped characters around it. */
  lemma StripInside(s: string, drop: char -> bool)
    ensures StripOffset(s, drop) + |Strip(s, drop)| <= |s|
    ensures Inside(s, Strip(s, drop), StripOffset(s, drop), drop)
  {
    var t := TrimStart(s, drop);
    var r := TrimEnd(t, drop);
    var i := |s| - |t|;
    assert Strip(s, drop) == r && StripOffset(s, drop) == i;
    assert t == s[i..] by {
      TrimStartSuffix(s, drop);
    }
    assert r == t[..|r|] by {
      TrimEndPrefix(t, drop);
    }
    assert r == s[i..i + |r|];
    assert forall k :: 0 <= k < i ==> drop(s[k]) by {
      forall k | 0 <= k < i ensures drop(s[k]) {
        assert s[k] == s[..i][k];
      }
    }
    assert forall k :: i + |r| <= k < |s| ==> drop(s[k]) by {
      forall k | i + |r| <= k < |s| ensures drop(s[k]) {
        assert s[k] == t[k - i] == t[|r|..][k - i - |r|];
      }
    }
  }

  /** Stripping leaves nothing exactly when every character is dropped. */
  lemma StripEmpty(s: string, drop: char -> bool)
    ensures Strip(s, drop) == [] <==> AllSatisfy(s, drop)
  {
    var t := TrimStart(s, drop);
    TrimStartSuffix(s, drop);
    TrimEndPrefix(t, drop);
    if TrimEnd(t, drop) == [] {
      assert t == [];
      assert s[..|s|] == s;
    }
  }

  /** Where the stripped text starts within the original. */
  function StripOffset(s: string, drop: char -> bool): nat {
    |s| - |TrimStart(s, drop)|
  }

  /** A final dropped character does not change the end-trim. */
  lemma TrimEndDropped(s: string, c: char, drop: char -> bool)
    requires drop(c)
    ensures TrimEnd(s + [c], drop) == TrimEnd(s, drop)
  {
    assert (s + [c])[..|s|] == s;
  }

  /** A leading dropped character does not change the start-trim. */
  lemma TrimStartDropped(c: char, s: string, drop: char -> bool)
    requires drop(c)
    ensures TrimStart([c] + s, drop) == TrimStart(s, drop)
  {
    assert ([c] + s)[1..] == s;
  }

  /** Stripping text that neither starts nor ends with a dropped character
      changes nothing. */
  lemma StripUnchanged(s: string, drop: char -> bool)
    requires s == [] || (!drop(s[0]) && !drop(s[|s| - 1]))
    ensures Strip(s, drop) == s
  {
  }

  /** A prefix made only of dropped characters does not change the
      start-trim. */
  lemma {:induction false} TrimStartDroppedPrefix(p: string, s: string, drop: char -> bool)
    requires AllSatisfy(p, drop)
    ensures TrimStart(p + s, drop) == TrimStart(s, drop)
    decreases |p|
  {
    if p != [] {
      assert (p + s)[0] == p[0] && drop(p[0]);
      assert (p + s)[1..] == p[1..] + s;
      assert AllSatisfy(p[1..], drop) by {
        forall i | 0 <= i < |p| - 1 ensures drop(p[1..][i]) {
          assert p[1..][i] == p[i + 1];
        }
      }
      TrimStartDroppedPrefix(p[1..], s, drop);
    } else {
      assert p + s == s;
    }
  }

  /** One dropped character after a text with kept ends is stripped away. */
  lemma StripDroppedAfter(s: string, c: char, drop: char -> bool)
    requires s != [] && !drop(s[0]) && !drop(s[|s| - 1]) && drop(c)
    ensures Strip(s + [c], drop) == s
  {
    var x := s + [c];
    assert x[0] == s[0];
    assert TrimStart(x, drop) == x;
    TrimEndDropped(s, c, drop);
    assert TrimEnd(s, drop) == s;
  }

  /** One dropped character before a text with kept ends is stripped away. */
  lemma StripDroppedBefore(c: char, s: string, drop: char -> bool)
    requires s != [] && !drop(s[0]) && !drop(s[|s| - 1]) && drop(c)
    ensures Strip([c] + s, drop) == s
  {
    TrimStartDropped(c, s, drop);
    assert TrimStart(s, drop) == s;
    assert TrimEnd(s, drop) == s;
  }

  /** Dropped characters on both sides of a text with kept ends are stripped
      away. */
  lemma StripDroppedAround(c: char, s: string, d: char, drop: char -> bool)
    requires s != [] && !drop(s[0]) && !drop(s[|s| - 1]) && drop(c) && drop(d)
    ensures Strip([c] + s + [d], drop) == s
  {
    var x := s + [d];
    assert [c] + s + [d] == [c] + x;
    TrimStartDropped(c, x, drop);
    assert x[0] == s[0];
    assert TrimStart(x, drop) == x;
    TrimEndDropped(s, d, drop);
    assert TrimEnd(s, drop) == s;
  }

  /** `r` sits at offset `i` of `s` with only `drop` characters around it. */
  predicate Inside(s: string, r: string, i: nat, drop: char -> bool)
    requires i + |r| <= |s|
  {
    && r == s[i..i + |r|]
    && (forall k :: 0 <= k < i ==> drop(s[k]))
    && (forall k :: i + |r| <= k < |s| ==> drop(s[k]))
  }

  /** A piece inside a piece, with whitespace around the outer one and
      whitespace or hyphens around the inner one, is inside the whole text
      with whitespace or hyphens around it. */
  lemma NestedInside(x: string, t: string, r: string, i1: nat, i2: nat)
    requires i1 + |t| <= |x| && Inside(x, t, i1, IsSpace)
    requires i2 + |r| <= |t| && Inside(t, r, i2, IsSpaceOrHyphen)
    ensures i1 + i2 + |r| <= |x| && Inside(x, r, i1 + i2, IsSpaceOrHyphen)
  {
    var i := i1 + i2;
    var e := i + |r|;
    forall k | 0 <= k < |r| ensures r[k] == x[i + k] {
      assert r[k] == t[i2 + k];
      assert t[i2 + k] == x[i1 + i2 + k];
    }
    assert r == x[i..e];
    forall k | 0 <= k < i ensures IsSpaceOrHyphen(x[k]) {
      if k >= i1 {
        assert x[k] == t[k - i1];
      }
    }
    forall k | e <= k < |x| ensures IsSpaceOrHyphen(x[k]) {
      if k < i1 + |t| {
        assert x[k] == t[k - i1];
      }
    }
  }

  /** Where `Strip(Trim(x), IsSpaceOrHyphen)` starts within `x`. */
  function TrimStripOffset(x: string): nat {
    StripOffset(x, IsSpace) + StripOffset(Trim(x), IsSpaceOrHyphen)
  }

  /** Trimming whitespace and then stripping whitespace and hyphens cuts the
      text only at its two ends, and only of whitespace and hyphens. */
  lemma TrimThenStripInside(x: string)
    ensures TrimStripOffset(x) + |Strip(Trim(x), IsSpaceOrHyphen)| <= |x|
    ensures Inside(x, Strip(Trim(x), IsSpaceOrHyphen), TrimStripOffset(x), IsSpaceOrHyphen)
  {
    var t := Strip(x, IsSpace);
    var r := Strip(t, IsSpaceOrHyphen);
    var i1, i2 := StripOffset(x, IsSpace), StripOffset(t, IsSpaceOrHyphen);
    assert Trim(x) == t;
    assert TrimStripOffset(x) == i1 + i2;
    assert Strip(Trim(x), IsSpaceOrHyphen) == r;
    assert i1 + |t| <= |x| && Inside(x, t, i1, IsSpace) by {
      StripInside(x, IsSpace);
    }
    assert i2 + |r| <= |t| && Inside(t, r, i2, IsSpaceOrHyphen) by {
      StripInside(t, IsSpaceOrHyphen);
    }
    NestedInside(x, t, r, i1, i2);
  }

  /** Stripping a second time changes nothing. */
  lemma StripIdempotent(s: string, drop: char -> bool)
    ensures Strip(Strip(s, drop), drop) == Strip(s, drop)
  {
  }

  /* ---------------------------------------------------------------------
     Replace-all with the empty string, and its reference definition by
     splitting and joining
     --------------------------------------------------------------------- */

  predicate OccursAt(s: string, pat: string, i: int) {
    0 <= i && i + |pat| <= |s| && s[i..i + |pat|] == pat
  }

  predicate Occurs(s: string, pat: string) {
    exists i :: 0 <= i <= |s| - |pat| && OccursAt(s, pat, i)
  }

  /** Python's `s.replace(pat, '')`: scanning from the left, every
      occurrence of `pat` that does not overlap an earlier removed one is
      deleted. */
  function RemoveAll(s: string, pat: string): (r: string)
    requires pat != []
    ensures |r| <= |s|
    decreases |s|
  {
    if |s| < |pat| then s
    else if s[..|pat|] == pat then RemoveAll(s[|pat|..], pat)
    else [s[0]] + RemoveAll(s[1..], pat)
  }

  /** Where `pat` does not occur, deleting it changes nothing. */
  lemma RemoveAllAbsent(s: string, pat: string)
    requires pat != [] && !Occurs(s, pat)
    ensures RemoveAll(s, pat) == s
  {
    RemoveAllAfterPrefix(s, |s|, pat);
    assert s[..|s|] == s;
    assert s[|s|..] == [];
  }

  /** When no occurrence of `pat` starts before index `n`, deleting keeps
      the first `n` characters and deletes from the rest. */
  lemma {:induction false} RemoveAllAfterPrefix(s: string, n: nat, pat: string)
    requires pat != [] && n <= |s|
    requires forall j :: 0 <= j < n ==> !OccursAt(s, pat, j)
    ensures RemoveAll(s, pat) == s[..n] + RemoveAll(s[n..], pat)
    decreases n
  {
    if n > 0 {
      var t := s[1..];
      assert RemoveAll(t, pat) == s[1..n] + RemoveAll(s[n..], pat) by {
        NoOccurrenceInTail(s, pat, n);
        RemoveAllAfterPrefix(t, n - 1, pat);
        assert t[..n - 1] == s[1..n] && t[n - 1..] == s[n..];
      }
      assert RemoveAll(s, pat) == [s[0]] + RemoveAll(t, pat) by {
        assert !OccursAt(s, pat, 0);
        RemoveAllStep(s, pat);
      }
      JoinHead(s, n, RemoveAll(s, pat), RemoveAll(t, pat), RemoveAll(s[n..], pat));
    }
  }

  /** Gluing a kept first character to a kept prefix and the rest. */
  lemma JoinHead(s: string, n: nat, a: string, b: string, c: string)
    requires 0 < n <= |s| && a == [s[0]] + b && b == s[1..n] + c
    ensures a == s[..n] + c
  {
    assert s[..n] == [s[0]] + s[1..n];
  }

  /** Where no occurrence starts, the first character is kept. */
  lemma RemoveAllStep(s: string, pat: string)
    requires pat != [] && s != [] && !OccursAt(s, pat, 0)
    ensures RemoveAll(s, pat) == [s[0]] + RemoveAll(s[1..], pat)
  {
    if |s| < |pat| {
      assert RemoveAll(s[1..], pat) == s[1..];
      assert s == [s[0]] + s[1..];
    }
  }

  /** Occurrence-free starts before `n` in `s` stay occurrence-free, one
      place to the left, in `s[1..]`. */
  lemma NoOccurrenceInTail(s: string, pat: string, n: nat)
    requires s != [] && forall j :: 0 <= j < n ==> !OccursAt(s, pat, j)
    ensures forall j :: 0 <= j < n - 1 ==> !OccursAt(s[1..], pat, j)
  {
    forall j | 0 <= j < n - 1 ensures !OccursAt(s[1..], pat, j) {
      assert !OccursAt(s, pat, j + 1);
      if j + |pat| <= |s| - 1 {
        assert s[1..][j..j + |pat|] == s[j + 1..j + 1 + |pat|];
      }
    }
  }

  /** Python's `s.split(pat)`: the pieces between the non-overlapping
      occurrences of `pat`, found from the left. */
  function Split(s: string, pat: string): (r: seq<string>)
    requires pat != []
    ensures |r| >= 1
    decreases |s|
  {
    if |s| < |pat| then
      [s]
    else if s[..|pat|] == pat then
      [[]] + Split(s[|pat|..], pat)
    else
      var t := Split(s[1..], pat);
      [[s[0]] + t[0]] + t[1..]
  }

  /** Python's `sep.join(parts)`. */
  function Join(parts: seq<string>, sep: string): string
    requires |parts| >= 1
  {
    if |parts| == 1 then parts[0] else parts[0] + sep + Join(parts[1..], sep)
  }

  /** Python's `''.join(parts)`. */
  function Concat(parts: seq<string>): string {
    if parts == [] then [] else parts[0] + Concat(parts[1..])
  }

  /** Splitting at `pat` and joining with `pat` gives back the text. */
  lemma {:induction false} JoinSplit(s: string, pat: string)
    requires pat != []
    ensures Join(Split(s, pat), pat) == s
    decreases |s|
  {
    if |s| < |pat| {
    } else if s[..|pat|] == pat {
      JoinSplit(s[|pat|..], pat);
      assert s == [] + pat + s[|pat|..];
    } else {
      var t := Split(s[1..], pat);
      JoinSplit(s[1..], pat);
      JoinExtendHead([s[0]], t, pat);
      assert s == [s[0]] + s[1..];
    }
  }

  /** Gluing text in front of the first piece glues it in front of the join. */
  lemma JoinExtendHead(h: string, parts: seq<string>, sep: string)
    requires |parts| >= 1
    ensures Join([h + parts[0]] + parts[1..], sep) == h + Join(parts, sep)
  {
    var q := [h + parts[0]] + parts[1..];
    assert q[0] == h + parts[0];
    assert q[1..] == parts[1..];
    if |parts| > 1 {
      assert Join(q, sep) == (h + parts[0]) + sep + Join(parts[1..], sep);
    }
  }

  /** Deleting every occurrence is the same as splitting at them and gluing
      the pieces together: the replace-all removes all occurrences, not the
      first one only. */
  lemma {:induction false} RemoveAllIsConcatOfSplit(s: string, pat: string)
    requires pat != []
    ensures RemoveAll(s, pat) == Concat(Split(s, pat))
    decreases |s|
  {
    if |s| < |pat| {
      assert Concat([s]) == s + Concat([]);
    } else if s[..|pat|] == pat {
      RemoveAllIsConcatOfSplit(s[|pat|..], pat);
      assert Concat(Split(s, pat)) == [] + Concat(Split(s[|pat|..], pat));
    } else {
      var t := Split(s[1..], pat);
      RemoveAllIsConcatOfSplit(s[1..], pat);
      assert Split(s, pat)[1..] == t[1..];
      assert Concat(t) == t[0] + Concat(t[1..]);
    }
  }

  /** The first piece of a split is a prefix of the text. */
  lemma {:induction false} SplitHeadIsPrefix(s: string, pat: string)
    requires pat != []
    ensures var h := Split(s, pat)[0]; |h| <= |s| && h == s[..|h|]
    decreases |s|
  {
    if |s| < |pat| {
      assert s[..|s|] == s;
    } else if s[..|pat|] == pat {
      assert Split(s, pat)[0] == [];
    } else {
      var t := Split(s[1..], pat);
      SplitHeadIsPrefix(s[1..], pat);
      assert t[0] == s[1..][..|t[0]|] == s[1..|t[0]| + 1];
      assert Split(s, pat)[0] == [s[0]] + t[0];
      assert s[..|t[0]| + 1] == [s[0]] + s[1..|t[0]| + 1];
    }
  }

  /** The first piece ends at the leftmost occurrence of `pat`: no occurrence
      starts inside it, and when there is more than one piece an occurrence
      starts right after it. With `JoinSplit` this fixes the cut `str.split`
      and `str.replace` make when occurrences overlap. */
  lemma {:induction false} SplitHeadLeftmost(s: string, pat: string)
    requires pat != []
    ensures forall j :: 0 <= j < |Split(s, pat)[0]| ==> !OccursAt(s, pat, j)
    ensures |Split(s, pat)| > 1 ==> OccursAt(s, pat, |Split(s, pat)[0]|)
    decreases |s|
  {
    if |s| < |pat| {
      assert Split(s, pat) == [s];
    } else if s[..|pat|] == pat {
      assert Split(s, pat)[0] == [];
      assert s[0..|pat|] == pat;
    } else {
      var t := Split(s[1..], pat);
      SplitHeadLeftmost(s[1..], pat);
      assert Split(s, pat) == [[s[0]] + t[0]] + t[1..];
      forall j | 0 <= j < |t[0]| + 1 ensures !OccursAt(s, pat, j) {
        if j == 0 {
          assert s[0..|pat|] == s[..|pat|];
        } else {
          var k := j - 1;
          assert !OccursAt(s[1..], pat, k);
          if k + |pat| <= |s| - 1 {
            assert s[1..][k..k + |pat|] == s[k + 1..k + 1 + |pat|];
          }
        }
      }
      if |t| > 1 {
        var n := |t[0]|;
        assert OccursAt(s[1..], pat, n);
        assert s[n + 1..n + 1 + |pat|] == s[1..][n..n + |pat|];
      }
    }
  }

  /** No piece of a split contains `pat`: every occurrence was cut out. */
  lemma {:induction false} SplitPiecesFree(s: string, pat: string)
    requires pat != []
    ensures forall k :: 0 <= k < |Split(s, pat)| ==> !Occurs(Split(s, pat)[k], pat)
    decreases |s|
  {
    var r := Split(s, pat);
    if |s| < |pat| {
      assert r == [s];
    } else if s[..|pat|] == pat {
      var t := Split(s[|pat|..], pat);
      SplitPiecesFree(s[|pat|..], pat);
      assert r == [[]] + t;
      forall k | 0 <= k < |r| ensures !Occurs(r[k], pat) {
        if k > 0 {
          assert r[k] == t[k - 1];
        }
      }
    } else {
      var t := Split(s[1..], pat);
      SplitPiecesFree(s[1..], pat);
      SplitHeadIsPrefix(s[1..], pat);
      HeadPieceFree(s, t[0], pat);
      assert r == [[s[0]] + t[0]] + t[1..];
      forall k | 0 <= k < |r| ensures !Occurs(r[k], pat) {
        if k > 0 {
          assert r[k] == t[k];
        }
      }
    }
  }

  /** Extending a piece free of `pat` by one character in front keeps it free
      when the text does not start with `pat` there. */
  lemma HeadPieceFree(s: string, p: string, pat: string)
    requires pat != [] && |s| >= |pat| && s[..|pat|] != pat
    requires |p| < |s| && p == s[1..][..|p|] && !Occurs(p, pat)
    ensures !Occurs([s[0]] + p, pat)
  {
    var h := [s[0]] + p;
    assert h == s[..|h|];
    if Occurs(h, pat) {
      var i :| 0 <= i <= |h| - |pat| && OccursAt(h, pat, i);
      if i != 0 {
        assert p[i - 1..i - 1 + |pat|] == h[i..i + |pat|];
        assert OccursAt(p, pat, i - 1);
      }
    }
  }

  /* ---------------------------------------------------------------------
     Decimal rendering of a counter, Python's `str(i)` for i >= 0
     --------------------------------------------------------------------- */

  function DigitChar(d: nat): char
    requires d < 10
  {
    ('0' as int + d) as char
  }

  function DigitValue(c: char): nat
    requires IsDigit(c)
  {
    c as int - '0' as int
  }

  /** The number that a string of digits denotes. */
  function DecimalValue(s: string): nat
    requires AllSatisfy(s, IsDigit)
  {
    if s == [] then 0 else DecimalValue(s[..|s| - 1]) * 10 + DigitValue(s[|s| - 1])
  }

  /** Renders `n` in decimal without leading zeros. */
  function NatToString(n: nat): (r: string)
    ensures r != [] && AllSatisfy(r, IsDigit)
    ensures |r| > 1 ==> r[0] != '0'
  {
    if n < 10 then [DigitChar(n)] else NatToString(n / 10) + [DigitChar(n % 10)]
  }

  /** Reading back the rendered digits gives the number. */
  lemma {:induction false} NatToStringValue(n: nat)
    ensures DecimalValue(NatToString(n)) == n
  {
    if n >= 10 {
      NatToStringValue(n / 10);
      var r := NatToString(n);
      assert r[..|r| - 1] == NatToString(n / 10);
    }
  }

  function Pow10(w: nat): (p: nat)
    ensures p >= 1
  {
    if w == 0 then 1 else 10 * Pow10(w - 1)
  }

  /** The last `w` decimal digits of `n`, with leading zeros: the rendering of
      `%02d`-style fixed-width fields. */
  function Pad(n: nat, w: nat): (r: string)
    ensures |r| == w && AllSatisfy(r, IsDigit)
  {
    if w == 0 then [] else Pad(n / 10, w - 1) + [DigitChar(n % 10)]
  }

  /** A string of `w` digits denotes a number below 10^w. */
  lemma {:induction false} DecimalValueBound(s: string)
    requires AllSatisfy(s, IsDigit)
    ensures DecimalValue(s) < Pow10(|s|)
  {
    if s != [] {
      DecimalValueBound(s[..|s| - 1]);
    }
  }

  /** Rendering a number below 10^w in w digits and reading it back gives the number. */
  lemma {:induction false} PadValue(n: nat, w: nat)
    requires n < Pow10(w)
    ensures DecimalValue(Pad(n, w)) == n
  {
    if w > 0 {
      var q, d := n / 10, n % 10;
      assert n == q * 10 + d && 0 <= d < 10;
      assert q < Pow10(w - 1);
      PadValue(q, w - 1);
      var r := Pad(n, w);
      assert r == Pad(q, w - 1) + [DigitChar(d)];
      assert r[..|r| - 1] == Pad(q, w - 1);
      assert DigitValue(r[|r| - 1]) == d;
    }
  }

  /** Reading a digit string and rendering it back in as many digits gives the
      string, leading zeros included. */
  lemma {:induction false} ValuePad(s: string)
    requires AllSatisfy(s, IsDigit)
    ensures Pad(DecimalValue(s), |s|) == s
  {
    if s != [] {
      var init := s[..|s| - 1];
      ValuePad(init);
      var v := DecimalValue(s);
      assert v / 10 == DecimalValue(init) && v % 10 == DigitValue(s[|s| - 1]);
      assert s == init + [s[|s| - 1]];
    }
  }
}
