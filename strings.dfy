/**
 * The pieces of Python's `str` behaviour that the scripts rely on, restricted to ASCII:
 * `lower`, `upper`, `capitalize`, `split` on one character, `join`, `replace`, `strip`,
 * `str(int)` and `int(str)`.
 */
module Strings {
  import opened Wrappers

  // ---------------------------------------------------------------- character case

  predicate IsAsciiUpper(c: char) { 'A' <= c <= 'Z' }
  predicate IsAsciiLower(c: char) { 'a' <= c <= 'z' }

  function LowerChar(c: char): (r: char)
    ensures IsAsciiUpper(c) ==> IsAsciiLower(r) && r as int == c as int + 32
    ensures !IsAsciiUpper(c) ==> r == c
  {
    if IsAsciiUpper(c) then (c as int - 'A' as int + 'a' as int) as char else c
  }

  function UpperChar(c: char): (r: char)
    ensures IsAsciiLower(c) ==> IsAsciiUpper(r) && r as int == c as int - 32
    ensures !IsAsciiLower(c) ==> r == c
  {
    if IsAsciiLower(c) then (c as int - 'a' as int + 'A' as int) as char else c
  }

  /** `str.lower()` */
  function Lower(s: string): (r: string)
    ensures |r| == |s|
    ensures forall i :: 0 <= i < |r| ==> !IsAsciiUpper(r[i])
    ensures forall i :: 0 <= i < |r| && !IsAsciiUpper(s[i]) ==> r[i] == s[i]
    ensures forall i :: 0 <= i < |s| ==> LowerChar(r[i]) == LowerChar(s[i])
  {
    seq(|s|, i requires 0 <= i < |s| => LowerChar(s[i]))
  }

  /** `str.upper()` */
  function Upper(s: string): (r: string)
    ensures |r| == |s|
    ensures forall i :: 0 <= i < |r| ==> !IsAsciiLower(r[i])
    ensures forall i :: 0 <= i < |r| && !IsAsciiLower(s[i]) ==> r[i] == s[i]
    ensures forall i :: 0 <= i < |s| ==> LowerChar(r[i]) == LowerChar(s[i])
  {
    seq(|s|, i requires 0 <= i < |s| => UpperChar(s[i]))
  }

  /** `str.capitalize()`: first character upper-cased, the rest lower-cased. */
  function Capitalize(s: string): (r: string)
    ensures |r| == |s|
    ensures r != [] ==> !IsAsciiLower(r[0])
    ensures forall i :: 1 <= i < |r| ==> !IsAsciiUpper(r[i])
    ensures forall i :: 0 <= i < |s| ==> LowerChar(r[i]) == LowerChar(s[i])
  {
    if s == [] then [] else [UpperChar(s[0])] + Lower(s[1..])
  }

  lemma LowerCons(c: char, t: string)
    ensures Lower([c] + t) == [LowerChar(c)] + Lower(t)
  {
  }

  lemma CapitalizeCons(c: char, t: string)
    ensures Capitalize([c] + t) == [UpperChar(c)] + Lower(t)
  {
    assert ([c] + t)[1..] == t;
  }

  // ---------------------------------------------------------------- split and join

  /**
   * `s.split(sep)` for a single-character separator: always at least one part,
   * consecutive, leading or trailing separators give empty parts.
   */
  function Split(s: string, sep: char): (parts: seq<string>)
    ensures |parts| >= 1
    ensures forall p :: p in parts ==> sep !in p
    decreases |s|
  {
    if s == [] then [""]
    else
      var rest := Split(s[1..], sep);
      if s[0] == sep then [""] + rest
      else
        assert rest[0] in rest;
        [[s[0]] + rest[0]] + rest[1..]
  }

  /** `sep.join(parts)`: the parts with one separator between neighbours. */
  function Join(sep: string, parts: seq<string>): (r: string)
    ensures |r| == JoinedLength(|sep|, parts)
  {
    if |parts| == 0 then ""
    else if |parts| == 1 then parts[0]
    else parts[0] + sep + Join(sep, parts[1..])
  }

  /** The length of the parts together, plus one separator length between neighbours. */
  function JoinedLength(sepLength: nat, parts: seq<string>): nat
  {
    if parts == [] then 0
    else if |parts| == 1 then |parts[0]|
    else |parts[0]| + sepLength + JoinedLength(sepLength, parts[1..])
  }

  lemma JoinCons(sep: string, p: string, rest: seq<string>)
    requires rest != []
    ensures Join(sep, [p] + rest) == p + sep + Join(sep, rest)
  {
    assert ([p] + rest)[1..] == rest;
  }

  lemma ConcatCons(p: string, rest: seq<string>)
    ensures Join("", [p] + rest) == p + Join("", rest)
  {
    if rest != [] {
      JoinCons("", p, rest);
    }
  }

  /** Joining the parts of a split with the separator gives back the text. */
  lemma {:induction false} JoinSplit(s: string, sep: char)
    ensures Join([sep], Split(s, sep)) == s
    decreases |s|
  {
    if s != [] {
      var rest := Split(s[1..], sep);
      var parts := Split(s, sep);
      JoinSplit(s[1..], sep);
      assert s == [s[0]] + s[1..];
      if s[0] == sep {
        assert parts == [""] + rest;
        JoinCons([sep], "", rest);
      } else if |rest| == 1 {
        assert parts == [[s[0]] + rest[0]];
      } else {
        assert parts == [[s[0]] + rest[0]] + rest[1..];
        JoinCons([sep], [s[0]] + rest[0], rest[1..]);
        assert rest == [rest[0]] + rest[1..];
        JoinCons([sep], rest[0], rest[1..]);
      }
    }
  }

  lemma {:induction false} SplitPrefix(x: string, t: string, sep: char)
    requires sep !in x
    ensures Split(x + t, sep) == [x + Split(t, sep)[0]] + Split(t, sep)[1..]
    decreases |x|
  {
    if x != [] {
      assert (x + t)[0] == x[0] && (x + t)[1..] == x[1..] + t;
      SplitPrefix(x[1..], t, sep);
      assert [x[0]] + (x[1..] + Split(t, sep)[0]) == x + Split(t, sep)[0];
    } else {
      var r := Split(t, sep);
      assert x + t == t && x + r[0] == r[0];
      assert r == [r[0]] + r[1..];
    }
  }

  /** Splitting a join recovers the parts, when no part holds the separator. */
  lemma {:induction false} SplitJoin(parts: seq<string>, sep: char)
    requires |parts| >= 1
    requires forall p :: p in parts ==> sep !in p
    ensures Split(Join([sep], parts), sep) == parts
    decreases |parts|
  {
    if |parts| == 1 {
      SplitPrefix(parts[0], "", sep);
      assert parts[0] + "" == parts[0];
    } else {
      var j := Join([sep], parts[1..]);
      SplitJoin(parts[1..], sep);
      assert Join([sep], parts) == parts[0] + ([sep] + j);
      SplitPrefix(parts[0], [sep] + j, sep);
      assert ([sep] + j)[1..] == j;
      assert Split([sep] + j, sep) == [""] + parts[1..];
      assert parts[0] + "" == parts[0];
    }
  }

  /** Number of occurrences of `c` in `s`. */
  function CountChar(s: string, c: char): (n: nat)
    ensures n <= |s|
    ensures n == 0 <==> c !in s
  {
    if s == [] then 0 else (if s[0] == c then 1 else 0) + CountChar(s[1..], c)
  }

  // ---------------------------------------------------------------- replace

  /** `pat` occurs in `s` starting at position `i`. */
  predicate OccursAt(s: string, pat: string, i: int)
  {
    0 <= i <= |s| - |pat| && s[i..i + |pat|] == pat
  }

  /** `pat` occurs somewhere in `s`. */
  predicate Contains(s: string, pat: string)
  {
    exists i :: 0 <= i <= |s| - |pat| && OccursAt(s, pat, i)
  }

  /**
   * `s.replace(pat, rep)`: one left-to-right scan that replaces non-overlapping
   * occurrences and does not look again at replaced text.
   */
  function ReplaceAll(s: string, pat: string, rep: string): (r: string)
    requires pat != []
    ensures |rep| <= |pat| ==> |r| <= |s|
    decreases |s|
  {
    if |s| < |pat| then s
    else if s[..|pat|] == pat then rep + ReplaceAll(s[|pat|..], pat, rep)
    else [s[0]] + ReplaceAll(s[1..], pat, rep)
  }

  /** With a one-character pattern the scan works character by character. */
  lemma ReplaceCharCons(c: char, t: string, p: char, rep: string)
    ensures ReplaceAll([c] + t, [p], rep) == (if c == p then rep else [c]) + ReplaceAll(t, [p], rep)
  {
    assert ([c] + t)[..1] == [c] && ([c] + t)[1..] == t;
  }

  /** Replacing a one-character pattern maps each character on its own. */
  lemma {:induction false} ReplaceCharMap(s: string, p: char, rep: char)
    ensures var r := ReplaceAll(s, [p], [rep]);
      |r| == |s| && forall i :: 0 <= i < |s| ==> r[i] == if s[i] == p then rep else s[i]
    decreases |s|
  {
    if s != [] {
      assert s == [s[0]] + s[1..];
      ReplaceCharCons(s[0], s[1..], p, [rep]);
      ReplaceCharMap(s[1..], p, rep);
    }
  }

  /** Text in which the pattern does not occur is left alone. */
  lemma {:induction false} ReplaceAllAbsent(s: string, pat: string, rep: string)
    requires pat != []
    requires !Contains(s, pat)
    ensures ReplaceAll(s, pat, rep) == s
    decreases |s|
  {
    if |s| >= |pat| {
      assert !OccursAt(s, pat, 0);
      assert s[..|pat|] != pat;
      AbsentFromSlice(s, 1, |s|, pat);
      assert s[1..|s|] == s[1..];
      ReplaceAllAbsent(s[1..], pat, rep);
      assert s == [s[0]] + s[1..];
    }
  }

  /** A pattern absent from `s` is absent from every slice of `s`. */
  lemma AbsentFromSlice(s: string, i: nat, j: nat, pat: string)
    requires i <= j <= |s|
    requires !Contains(s, pat)
    ensures !Contains(s[i..j], pat)
  {
    forall k | 0 <= k <= j - i - |pat|
      ensures !OccursAt(s[i..j], pat, k)
    {
      var x, y := s[i..j][k..k + |pat|], s[i + k..i + k + |pat|];
      forall m | 0 <= m < |pat|
        ensures x[m] == y[m]
      {
      }
      assert x == y;
      assert !OccursAt(s, pat, i + k);
    }
  }

  /** The scan copies a prefix in which no occurrence starts. */
  lemma {:induction false} ReplaceAllSkip(x: string, t: string, pat: string, rep: string)
    requires pat != []
    requires forall k :: 0 <= k < |x| ==> !OccursAt(x + t, pat, k)
    ensures ReplaceAll(x + t, pat, rep) == x + ReplaceAll(t, pat, rep)
    decreases |x|
  {
    var s := x + t;
    if x == [] {
      assert s == t;
    } else {
      assert s[1..] == x[1..] + t;
      forall k | 0 <= k < |x| - 1
        ensures !OccursAt(x[1..] + t, pat, k)
      {
        OccursShift(s, pat, k);
      }
      ReplaceAllSkip(x[1..], t, pat, rep);
      ReplaceAllMiss(s, pat, rep);
      assert s[0] == x[0];
      assert x == [x[0]] + x[1..];
      Reassociate([x[0]], x[1..], ReplaceAll(t, pat, rep));
    }
  }

  /** Where no occurrence starts, the scan copies one character and moves on. */
  lemma ReplaceAllMiss(s: string, pat: string, rep: string)
    requires pat != [] && s != [] && !OccursAt(s, pat, 0)
    ensures ReplaceAll(s, pat, rep) == [s[0]] + ReplaceAll(s[1..], pat, rep)
  {
    if |s| < |pat| {
      assert |s[1..]| < |pat|;
      assert s == [s[0]] + s[1..];
    }
  }

  /** An occurrence in the text after its first character is one in the text, one place later. */
  lemma OccursShift(s: string, pat: string, k: nat)
    requires s != []
    ensures OccursAt(s[1..], pat, k) <==> OccursAt(s, pat, k + 1)
  {
    if k <= |s| - 1 - |pat| {
      assert s[1..][k..k + |pat|] == s[k + 1..k + 1 + |pat|];
    }
  }

  /** An occurrence at the front is replaced and the scan resumes after it. */
  lemma ReplaceAllAtFront(s: string, pat: string, rep: string)
    requires pat != [] && OccursAt(s, pat, 0)
    ensures ReplaceAll(s, pat, rep) == rep + ReplaceAll(s[|pat|..], pat, rep)
  {
  }

  /**
   * The first occurrence is replaced, the text before it is kept, and the scan goes on
   * after it; with `ReplaceAllAbsent` this pins `str.replace` down completely.
   */
  lemma ReplaceAllFirst(s: string, pat: string, rep: string, i: nat)
    requires pat != []
    requires OccursAt(s, pat, i)
    requires forall j :: 0 <= j < i ==> !OccursAt(s, pat, j)
    ensures ReplaceAll(s, pat, rep) == s[..i] + rep + ReplaceAll(s[i + |pat|..], pat, rep)
  {
    var t := s[i..];
    SplitAt(s, i);
    ReplaceAllSkip(s[..i], t, pat, rep);
    FrontOfSuffix(s, pat, i);
    ReplaceAllAtFront(t, pat, rep);
    Reassociate(s[..i], rep, ReplaceAll(s[i + |pat|..], pat, rep));
  }

  /** A sequence is its prefix followed by the rest. */
  lemma SplitAt<T>(s: seq<T>, i: nat)
    requires i <= |s|
    ensures s == s[..i] + s[i..]
  {
  }

  /** An occurrence at `i` is one at the front of the text from `i`, followed by the text after it. */
  lemma FrontOfSuffix(s: string, pat: string, i: nat)
    requires OccursAt(s, pat, i)
    ensures OccursAt(s[i..], pat, 0) && s[i..][|pat|..] == s[i + |pat|..]
  {
    assert s[i..][..|pat|] == s[i..i + |pat|];
  }

  lemma Reassociate(a: string, b: string, c: string)
    ensures (a + b) + c == a + (b + c)
  {
  }

  /** A pattern at the front is replaced and the scan resumes right after it. */
  lemma ReplaceAllPatFirst(pat: string, rest: string, rep: string)
    requires pat != []
    ensures ReplaceAll(pat + rest, pat, rep) == rep + ReplaceAll(rest, pat, rep)
  {
    assert (pat + rest)[..|pat|] == pat && (pat + rest)[|pat|..] == rest;
  }

  /** Removing a pattern that occurs only at the front leaves what follows it. */
  lemma RemoveFront(pat: string, rest: string)
    requires pat != [] && !Contains(rest, pat)
    ensures ReplaceAll(pat + rest, pat, "") == rest
  {
    ReplaceAllPatFirst(pat, rest, "");
    ReplaceAllAbsent(rest, pat, "");
  }

  /** Removing a pattern that occurs once, behind a pattern-free prefix ending in a foreign character. */
  lemma RemoveSoleOccurrence(x: string, pat: string, rest: string)
    requires pat != [] && x != []
    requires !Contains(x, pat) && x[|x| - 1] !in pat && !Contains(rest, pat)
    ensures ReplaceAll(x + pat + rest, pat, "") == x + rest
  {
    Reassociate(x, pat, rest);
    ReplaceAllPast(x, pat + rest, pat, "");
    RemoveFront(pat, rest);
  }

  /** Removing a pattern that occurs once, behind a prefix without the pattern's first character. */
  lemma RemoveSoleOccurrenceLead(x: string, pat: string, rest: string)
    requires pat != [] && pat[0] !in x && !Contains(rest, pat)
    ensures ReplaceAll(x + pat + rest, pat, "") == x + rest
  {
    Reassociate(x, pat, rest);
    ReplaceAllLead(x, pat + rest, pat, "");
    RemoveFront(pat, rest);
  }

  /** A prefix that holds no occurrence and ends in a character foreign to the pattern is copied. */
  lemma ReplaceAllPast(x: string, t: string, pat: string, rep: string)
    requires pat != [] && x != []
    requires !Contains(x, pat) && x[|x| - 1] !in pat
    ensures ReplaceAll(x + t, pat, rep) == x + ReplaceAll(t, pat, rep)
  {
    var s := x + t;
    forall k | 0 <= k < |x|
      ensures !OccursAt(s, pat, k)
    {
      if k + |pat| <= |x| {
        assert s[k..k + |pat|] == x[k..k + |pat|];
        assert !OccursAt(x, pat, k);
      } else if k + |pat| <= |s| {
        assert s[k..k + |pat|][|x| - 1 - k] == x[|x| - 1];
        assert pat[|x| - 1 - k] != x[|x| - 1];
      }
    }
    ReplaceAllSkip(x, t, pat, rep);
  }

  /** A prefix without the pattern's first character is copied. */
  lemma ReplaceAllLead(x: string, t: string, pat: string, rep: string)
    requires pat != [] && pat[0] !in x
    ensures ReplaceAll(x + t, pat, rep) == x + ReplaceAll(t, pat, rep)
  {
    var s := x + t;
    forall k | 0 <= k < |x|
      ensures !OccursAt(s, pat, k)
    {
      if k + |pat| <= |s| {
        assert s[k..k + |pat|][0] == x[k];
        assert pat[0] != x[k];
      }
    }
    ReplaceAllSkip(x, t, pat, rep);
  }

  /** A text that lacks one of the pattern's characters cannot hold the pattern. */
  lemma AbsentForeignChar(s: string, pat: string, q: nat)
    requires q < |pat| && pat[q] !in s
    ensures !Contains(s, pat)
  {
    forall k | 0 <= k <= |s| - |pat|
      ensures !OccursAt(s, pat, k)
    {
      assert s[k..k + |pat|][q] == s[k + q];
      assert s[k + q] in s;
    }
  }

  /** Two pattern-free texts joined by a character foreign to the pattern stay pattern-free. */
  lemma AbsentAcrossSeparator(x: string, c: char, y: string, pat: string)
    requires pat != [] && c !in pat
    requires !Contains(x, pat) && !Contains(y, pat)
    ensures !Contains(x + [c] + y, pat)
  {
    var s := x + [c] + y;
    forall k | 0 <= k <= |s| - |pat|
      ensures !OccursAt(s, pat, k)
    {
      if k + |pat| <= |x| {
        assert s[k..k + |pat|] == x[k..k + |pat|];
        assert !OccursAt(x, pat, k);
      } else if k > |x| {
        assert s[k..k + |pat|] == y[k - |x| - 1..k - |x| - 1 + |pat|];
        assert !OccursAt(y, pat, k - |x| - 1);
      } else {
        assert s[k..k + |pat|][|x| - k] == c;
        assert pat[|x| - k] != c;
      }
    }
  }

  /** A pattern-free text stays pattern-free behind one character where the pattern does not start. */
  lemma AbsentBehindChar(c: char, t: string, pat: string)
    requires pat != [] && !Contains(t, pat) && !OccursAt([c] + t, pat, 0)
    ensures !Contains([c] + t, pat)
  {
    var s := [c] + t;
    forall k | 1 <= k <= |s| - |pat|
      ensures !OccursAt(s, pat, k)
    {
      assert s[k..k + |pat|] == t[k - 1..k - 1 + |pat|];
      assert !OccursAt(t, pat, k - 1);
    }
  }

  /** A pattern-free text stays pattern-free behind a prefix without the pattern's first character. */
  lemma AbsentBehindLead(x: string, t: string, pat: string)
    requires pat != [] && pat[0] !in x
    requires !Contains(t, pat)
    ensures !Contains(x + t, pat)
  {
    var s := x + t;
    forall k | 0 <= k <= |s| - |pat|
      ensures !OccursAt(s, pat, k)
    {
      if k < |x| {
        assert s[k..k + |pat|][0] == x[k];
        assert pat[0] != x[k];
      } else {
        assert s[k..k + |pat|] == t[k - |x|..k - |x| + |pat|];
        assert !OccursAt(t, pat, k - |x|);
      }
    }
  }

  // ---------------------------------------------------------------- strip

  /** `str.isspace()` on ASCII: space, tab, newline, vertical tab, form feed, carriage return, and 0x1C-0x1F. */
  predicate IsSpace(c: char)
  {
    c == ' ' || 9 <= c as int <= 13 || 28 <= c as int <= 31
  }

  /** The end of the run of whitespace that starts at `i`. */
  function SpaceRunEnd(s: string, i: nat): (j: nat)
    requires i <= |s|
    ensures i <= j <= |s|
    ensures forall k :: i <= k < j ==> IsSpace(s[k])
    ensures j < |s| ==> !IsSpace(s[j])
    decreases |s| - i
  {
    if i < |s| && IsSpace(s[i]) then SpaceRunEnd(s, i + 1) else i
  }

  /** The start of the run of whitespace that ends at `j`, going back no further than `lo`. */
  function SpaceRunStart(s: string, lo: nat, j: nat): (i: nat)
    requires lo <= j <= |s|
    ensures lo <= i <= j
    ensures forall k :: i <= k < j ==> IsSpace(s[k])
    ensures lo < i ==> !IsSpace(s[i - 1])
    decreases j - lo
  {
    if lo < j && IsSpace(s[j - 1]) then SpaceRunStart(s, lo, j - 1) else j
  }

  /** Where the stripped text starts: after the leading whitespace. */
  function StripStart(s: string): nat
    ensures StripStart(s) <= |s|
  {
    SpaceRunEnd(s, 0)
  }

  /** Where the stripped text ends: before the trailing whitespace. */
  function StripEnd(s: string): (e: nat)
    ensures StripStart(s) <= e <= |s|
  {
    SpaceRunStart(s, StripStart(s), |s|)
  }

  /** `str.strip()`: the text between the leading and the trailing whitespace. */
  function Strip(s: string): (r: string)
    ensures |r| <= |s|
    ensures r == [] || (!IsSpace(r[0]) && !IsSpace(r[|r| - 1]))
  {
    s[StripStart(s)..StripEnd(s)]
  }

  /** Strip removes only whitespace, from the two ends, and keeps the middle. */
  lemma StripRemovesOnlySpace(s: string)
    ensures var a, e := StripStart(s), StripEnd(s);
      && Strip(s) == s[a..e]
      && (forall k :: 0 <= k < a ==> IsSpace(s[k]))
      && (forall k :: e <= k < |s| ==> IsSpace(s[k]))
  {
  }

  /** Whitespace around a text whose ends are not whitespace is exactly what strip removes. */
  lemma StripExact(ws1: string, m: string, ws2: string)
    requires forall k :: 0 <= k < |ws1| ==> IsSpace(ws1[k])
    requires forall k :: 0 <= k < |ws2| ==> IsSpace(ws2[k])
    requires m != [] && !IsSpace(m[0]) && !IsSpace(m[|m| - 1])
    ensures Strip(ws1 + m + ws2) == m
  {
    var s := ws1 + m + ws2;
    var e := |ws1| + |m|;
    assert forall k :: 0 <= k < |ws1| ==> IsSpace(s[k]);
    assert forall k :: e <= k < |s| ==> IsSpace(s[k]);
    assert !IsSpace(s[|ws1|]) && !IsSpace(s[e - 1]);
    assert StripStart(s) == |ws1|;
    assert StripEnd(s) == e;
    assert s[|ws1|..e] == m;
  }

  /** Stripping twice is stripping once. */
  lemma StripIdempotent(s: string)
    ensures Strip(Strip(s)) == Strip(s)
  {
    var r := Strip(s);
    if r != [] {
      assert StripStart(r) == 0;
      assert StripEnd(r) == |r|;
      assert r[0..|r|] == r;
    }
  }

  /** A pattern absent from `s` stays absent after stripping. */
  lemma StripKeepsAbsent(s: string, pat: string)
    requires !Contains(s, pat)
    ensures !Contains(Strip(s), pat)
  {
    AbsentFromSlice(s, StripStart(s), StripEnd(s), pat);
  }

  // ---------------------------------------------------------------- decimal numbers

  predicate IsDigit(c: char) { '0' <= c <= '9' }

  predicate AllDigits(s: string) { forall k :: 0 <= k < |s| ==> IsDigit(s[k]) }

  function DigitChar(d: nat): char
    requires d < 10
  {
    ('0' as int + d) as char
  }

  /** `str(n)` for a natural number. */
  function NatToString(n: nat): (r: string)
    ensures |r| >= 1 && AllDigits(r)
  {
    if n < 10 then [DigitChar(n)] else NatToString(n / 10) + [DigitChar(n % 10)]
  }

  /** `str(i)` for an int: a minus sign for negatives, then the decimal digits. */
  function IntToString(i: int): (r: string)
    ensures |r| >= 1
    ensures i < 0 ==> |r| >= 2 && r[0] == '-' && AllDigits(r[1..])
    ensures i >= 0 ==> AllDigits(r)
  {
    if i < 0 then "-" + NatToString(-i) else NatToString(i)
  }

  /** The value of a string of decimal digits. */
  function DigitsValue(s: string): nat
    requires AllDigits(s)
  {
    if s == [] then 0
    else DigitsValue(s[..|s| - 1]) * 10 + (s[|s| - 1] as int - '0' as int)
  }

  /** The texts `int()` accepts once stripped: one or more digits, with an optional sign before them. */
  predicate IsIntText(s: string)
  {
    (s != [] && AllDigits(s)) || (|s| >= 2 && (s[0] == '-' || s[0] == '+') && AllDigits(s[1..]))
  }

  /**
   * `int(s)` for text with no surrounding whitespace: an optional sign followed by one or
   * more ASCII digits; anything else is a ValueError (None).
   */
  function ParseInt(s: string): (r: Option<int>)
    ensures AllDigits(s) ==> (r.Some? <==> s != [])
    ensures r.Some? ==> s != [] && (r.value < 0 ==> s[0] == '-')
    ensures r.Some? && s[0] == '-' ==> r.value <= 0
    ensures r.Some? <==> IsIntText(s)
    ensures s != [] && AllDigits(s) ==> r == Some(DigitsValue(s) as int)
    ensures |s| >= 2 && s[0] == '+' && AllDigits(s[1..]) ==> r == Some(DigitsValue(s[1..]) as int)
    ensures |s| >= 2 && s[0] == '-' && AllDigits(s[1..]) ==> r == Some(0 - DigitsValue(s[1..]) as int)
  {
    if |s| >= 2 && s[0] == '-' && AllDigits(s[1..]) then Some(0 - DigitsValue(s[1..]) as int)
    else if |s| >= 2 && s[0] == '+' && AllDigits(s[1..]) then Some(DigitsValue(s[1..]))
    else if |s| >= 1 && AllDigits(s) then Some(DigitsValue(s))
    else None
  }

  lemma {:induction false} DigitsOfNat(n: nat)
    ensures DigitsValue(NatToString(n)) == n
  {
    var r := NatToString(n);
    if n < 10 {
      assert r[..0] == [];
    } else {
      DigitsOfNat(n / 10);
      assert r[..|r| - 1] == NatToString(n / 10);
    }
  }

  /** `int(str(i)) == i` */
  lemma IntRoundTrip(i: int)
    ensures ParseInt(IntToString(i)) == Some(i)
  {
    if i < 0 {
      DigitsOfNat(-i);
      assert IntToString(i)[1..] == NatToString(-i);
    } else {
      DigitsOfNat(i);
    }
  }

  /** Leading zeros do not change the value: `int("007") == int("7")`. */
  lemma {:induction false} LeadingZeroIgnored(t: string)
    requires t != [] && AllDigits(t)
    ensures ParseInt("0" + t) == ParseInt(t)
  {
    ZeroDigitsValue(t);
  }

  lemma {:induction false} ZeroDigitsValue(t: string)
    requires AllDigits(t)
    ensures AllDigits("0" + t) && DigitsValue("0" + t) == DigitsValue(t)
    decreases |t|
  {
    var u := "0" + t;
    assert AllDigits(u) by {
      forall k | 0 <= k < |u| ensures IsDigit(u[k]) {
        if k > 0 { assert u[k] == t[k - 1]; }
      }
    }
    if t == [] {
      assert u[..|u| - 1] == [];
    } else {
      assert u[..|u| - 1] == "0" + t[..|t| - 1];
      assert u[|u| - 1] == t[|t| - 1];
      ZeroDigitsValue(t[..|t| - 1]);
    }
  }

  /** Different natural numbers print differently. */
  lemma NatToStringInjective(m: nat, n: nat)
    requires NatToString(m) == NatToString(n)
    ensures m == n
  {
    DigitsOfNat(m);
    DigitsOfNat(n);
  }
}
