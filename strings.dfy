/**
 * The Python `str` operations the storyboard scripts rely on, over `seq<char>`:
 * `sep.join(xs)`, `s.find(pat)`, `s.split(sep)`, `s[i:j]` and `s.strip()`.
 */
module Strings {

  /** `pat` occurs in `s` starting at index `i`. */
  predicate OccursAt(s: string, pat: string, i: nat)
  {
    i + |pat| <= |s| && s[i..i + |pat|] == pat
  }

  ghost predicate Contains(s: string, pat: string)
  {
    exists i: nat :: OccursAt(s, pat, i)
  }

  // ---------------------------------------------------------------------------
  // sep.join(xs)
  // ---------------------------------------------------------------------------

  function Join(sep: string, xs: seq<string>): string
  {
    if |xs| == 0 then ""
    else if |xs| == 1 then xs[0]
    else xs[0] + sep + Join(sep, xs[1..])
  }

  /** Where element `k` of `xs` starts inside `Join(sep, xs)`. */
  function Offset(sep: string, xs: seq<string>, k: nat): nat
    requires k <= |xs|
  {
    if k == 0 then 0 else Offset(sep, xs, k - 1) + |xs[k - 1]| + |sep|
  }

  /**
   * Joining keeps every element, unmodified and in its original order: element
   * `k` sits at `Offset(sep, xs, k)`, is followed by one separator when another
   * element comes after it, and ends the joined text when it is the last one.
   */
  lemma {:induction false} JoinAt(sep: string, xs: seq<string>, k: nat)
    requires k < |xs|
    ensures Offset(sep, xs, k) + |xs[k]| <= |Join(sep, xs)|
    ensures Join(sep, xs)[Offset(sep, xs, k)..Offset(sep, xs, k) + |xs[k]|] == xs[k]
    ensures k + 1 < |xs| ==>
      && Offset(sep, xs, k + 1) <= |Join(sep, xs)|
      && Join(sep, xs)[Offset(sep, xs, k) + |xs[k]|..Offset(sep, xs, k + 1)] == sep
    ensures k + 1 == |xs| ==> Offset(sep, xs, k) + |xs[k]| == |Join(sep, xs)|
  {
    if k == 0 {
      JoinAtFirst(sep, xs);
    } else {
      JoinAt(sep, xs[1..], k - 1);
      JoinAtLater(sep, xs, k);
    }
  }

  /** Element `k` of `xs` appears verbatim in `Join(sep, xs)` at `Offset(sep, xs, k)`. */
  lemma JoinHas(sep: string, xs: seq<string>, k: nat)
    requires k < |xs|
    ensures var o := Offset(sep, xs, k);
      o + |xs[k]| <= |Join(sep, xs)| && Join(sep, xs)[o..o + |xs[k]|] == xs[k]
  {
    JoinAt(sep, xs, k);
  }

  /** Inside any text `a + Join(sep, xs) + c`, element `k` of `xs` appears verbatim. */
  lemma JoinedWithin(a: string, sep: string, xs: seq<string>, c: string, k: nat)
    requires k < |xs|
    ensures var p, at := a + Join(sep, xs) + c, |a| + Offset(sep, xs, k);
      at + |xs[k]| <= |a| + |Join(sep, xs)| && p[at..at + |xs[k]|] == xs[k]
  {
    JoinHas(sep, xs, k);
    FoundInMiddle(a, Join(sep, xs), c, Offset(sep, xs, k), xs[k]);
  }

  /** `JoinAt` for the first element. */
  lemma JoinAtFirst(sep: string, xs: seq<string>)
    requires 0 < |xs|
    ensures |xs[0]| <= |Join(sep, xs)| && Join(sep, xs)[..|xs[0]|] == xs[0]
    ensures 1 < |xs| ==>
      && Offset(sep, xs, 1) <= |Join(sep, xs)|
      && Join(sep, xs)[|xs[0]|..Offset(sep, xs, 1)] == sep
    ensures 1 == |xs| ==> |xs[0]| == |Join(sep, xs)|
  {
    if |xs| > 1 {
      var a := xs[0] + sep;
      var t := Join(sep, xs[1..]);
      assert Join(sep, xs) == a + t;
      assert (a + t)[..|xs[0]|] == xs[0];
      assert (a + t)[|xs[0]|..|a|] == sep;
    }
  }

  /** `JoinAt` for a later element, from `JoinAt` on the tail. */
  lemma JoinAtLater(sep: string, xs: seq<string>, k: nat)
    requires 0 < k < |xs|
    requires var tail, o := xs[1..], Offset(sep, xs[1..], k - 1);
      && o + |xs[k]| <= |Join(sep, tail)|
      && Join(sep, tail)[o..o + |xs[k]|] == xs[k]
      && (k + 1 < |xs| ==>
        && Offset(sep, tail, k) <= |Join(sep, tail)|
        && Join(sep, tail)[o + |xs[k]|..Offset(sep, tail, k)] == sep)
      && (k + 1 == |xs| ==> o + |xs[k]| == |Join(sep, tail)|)
    ensures Offset(sep, xs, k) + |xs[k]| <= |Join(sep, xs)|
    ensures Join(sep, xs)[Offset(sep, xs, k)..Offset(sep, xs, k) + |xs[k]|] == xs[k]
    ensures k + 1 < |xs| ==>
      && Offset(sep, xs, k + 1) <= |Join(sep, xs)|
      && Join(sep, xs)[Offset(sep, xs, k) + |xs[k]|..Offset(sep, xs, k + 1)] == sep
    ensures k + 1 == |xs| ==> Offset(sep, xs, k) + |xs[k]| == |Join(sep, xs)|
  {
    var tail := xs[1..];
    var a := xs[0] + sep;
    var t := Join(sep, tail);
    assert Join(sep, xs) == a + t;
    OffsetShift(sep, xs, k);
    var o := Offset(sep, tail, k - 1);
    SliceShift(a, t, o, o + |xs[k]|);
    if k + 1 < |xs| {
      OffsetShift(sep, xs, k + 1);
      SliceShift(a, t, o + |xs[k]|, Offset(sep, tail, k));
    }
  }

  /** Slicing within a prefix `a` is slicing `a`. */
  lemma PrefixSlice(a: string, b: string, x: nat, y: nat)
    requires x <= y <= |a|
    ensures (a + b)[x..y] == a[x..y]
  {
  }

  /** Slicing past a prefix `a` is slicing the rest. */
  lemma SliceShift(a: string, b: string, x: nat, y: nat)
    requires x <= y <= |b|
    ensures (a + b)[|a| + x..|a| + y] == b[x..y]
  {
  }

  /** Slicing `a + m + c` over the part `m` is slicing `m`. */
  lemma MiddleSlice(a: string, m: string, c: string, x: nat, y: nat)
    requires x <= y <= |m|
    ensures |a| + y <= |a + m + c|
    ensures (a + m + c)[|a| + x..|a| + y] == m[x..y]
  {
    assert a + m + c == a + (m + c);
    SliceShift(a, m + c, x, y);
    PrefixSlice(m, c, x, y);
  }

  /** `a + b + c` is `a`, then `b`, then `c`. */
  lemma Parts3(a: string, b: string, c: string)
    ensures var p := a + b + c;
      && p[..|a|] == a
      && p[|a|..|a| + |b|] == b
      && p[|a| + |b|..] == c
      && a <= p
  {
  }

  /** What `m` holds at `o` is held by `a + m + c` at `|a| + o`. */
  lemma FoundInMiddle(a: string, m: string, c: string, o: nat, e: string)
    requires o + |e| <= |m| && m[o..o + |e|] == e
    ensures |a| + o + |e| <= |a| + |m|
    ensures (a + m + c)[|a| + o..|a| + o + |e|] == e
  {
    MiddleSlice(a, m, c, o, o + |e|);
  }

  /** A slice inside a prefix `q` of `p` is the same slice of `q`. */
  lemma SliceOfPrefix(q: string, p: string, x: nat, y: nat)
    requires q <= p && x <= y <= |q|
    ensures p[x..y] == q[x..y]
  {
  }

  /** Offsets inside `xs` are those inside `xs[1..]`, shifted past `xs[0]` and one separator. */
  lemma {:induction false} OffsetShift(sep: string, xs: seq<string>, k: nat)
    requires 1 <= k <= |xs|
    ensures Offset(sep, xs, k) == |xs[0]| + |sep| + Offset(sep, xs[1..], k - 1)
  {
    if k > 1 {
      OffsetShift(sep, xs, k - 1);
    }
  }

  // ---------------------------------------------------------------------------
  // s.find(pat)
  // ---------------------------------------------------------------------------

  /** The least index at or after `from` where `pat` occurs, or -1. */
  function FindFrom(s: string, pat: string, from: nat): (r: int)
    requires from <= |s|
    ensures r == -1 || (from <= r && r + |pat| <= |s|)
    decreases |s| - from
  {
    if OccursAt(s, pat, from) then from
    else if from == |s| then -1
    else FindFrom(s, pat, from + 1)
  }

  /** `FindFrom` gives an occurrence, and none lies between `from` and it. */
  lemma {:induction false} FindFromFirst(s: string, pat: string, from: nat)
    requires from <= |s|
    ensures var r := FindFrom(s, pat, from);
      && (r == -1 || OccursAt(s, pat, r))
      && forall i: nat :: from <= i && (r == -1 || i < r) ==> !OccursAt(s, pat, i)
    decreases |s| - from
  {
    if !OccursAt(s, pat, from) && from < |s| {
      FindFromFirst(s, pat, from + 1);
    }
  }

  /** Python's `s.find(pat)`: the index of the first occurrence, -1 when there is none. */
  function Find(s: string, pat: string): (r: int)
    ensures r >= -1 && (r >= 0 ==> r + |pat| <= |s|)
  {
    FindFrom(s, pat, 0)
  }

  /** `find` gives an occurrence of `pat`, and no earlier index holds one. */
  lemma FindFirst(s: string, pat: string)
    ensures var r := Find(s, pat);
      r >= 0 ==> OccursAt(s, pat, r) && forall i: nat :: i < r ==> !OccursAt(s, pat, i)
  {
    FindFromFirst(s, pat, 0);
  }

  /** `find` gives -1 exactly when `pat` does not occur in `s`. */
  lemma FindMissing(s: string, pat: string)
    ensures Find(s, pat) == -1 <==> !Contains(s, pat)
  {
    FindFromFirst(s, pat, 0);
  }

  // ---------------------------------------------------------------------------
  // s.split(sep)
  // ---------------------------------------------------------------------------

  /**
   * Python's `s.split(sep)` for a non-empty separator: the pieces between
   * non-overlapping occurrences of `sep`, scanned from the left. (Python raises
   * on an empty separator; the scripts only split on non-empty literals.)
   */
  function Split(s: string, sep: string): (r: seq<string>)
    requires sep != ""
    ensures |r| >= 1
    decreases |s|
  {
    var k := Find(s, sep);
    if k == -1 then [s] else [s[..k]] + Split(s[k + |sep|..], sep)
  }

  function Last(xs: seq<string>): string
    requires |xs| >= 1
  {
    xs[|xs| - 1]
  }

  /** One step of `Split`: the text is cut at the first separator. */
  lemma SplitStep(s: string, sep: string)
    requires sep != "" && Find(s, sep) != -1
    ensures var k := Find(s, sep);
      && k + |sep| <= |s|
      && s == s[..k] + sep + s[k + |sep|..]
      && Split(s, sep) == [s[..k]] + Split(s[k + |sep|..], sep)
      && !Contains(s[..k], sep)
  {
    var k := Find(s, sep);
    FindFirst(s, sep);
    AroundOccurrence(s, sep, k);
    PrefixBeforeFirst(s, sep, k);
  }

  /** An occurrence of `pat` at `k` cuts `s` into the text before, `pat`, and the text after. */
  lemma AroundOccurrence(s: string, pat: string, k: nat)
    requires OccursAt(s, pat, k)
    ensures s == s[..k] + pat + s[k + |pat|..]
  {
    assert s == s[..k] + s[k..k + |pat|] + s[k + |pat|..];
  }

  lemma JoinCons(sep: string, x: string, xs: seq<string>)
    requires |xs| >= 1
    ensures Join(sep, [x] + xs) == x + sep + Join(sep, xs)
  {
    assert ([x] + xs)[1..] == xs;
  }

  /** Joining the pieces with the separator gives back the split text. */
  lemma {:induction false} JoinSplit(s: string, sep: string)
    requires sep != ""
    ensures Join(sep, Split(s, sep)) == s
    decreases |s|
  {
    var k := Find(s, sep);
    if k != -1 {
      SplitStep(s, sep);
      var rest := s[k + |sep|..];
      JoinSplit(rest, sep);
      JoinCons(sep, s[..k], Split(rest, sep));
    }
  }

  /** A prefix of `s` that ends before the first occurrence of `pat` does not contain `pat`. */
  lemma PrefixBeforeFirst(s: string, pat: string, k: nat)
    requires pat != "" && k <= |s|
    requires forall i: nat :: i < k ==> !OccursAt(s, pat, i)
    ensures !Contains(s[..k], pat)
  {
    forall i: nat ensures OccursAt(s[..k], pat, i) ==> OccursAt(s, pat, i) && i < k {
      if i + |pat| <= k {
        assert s[..k][i..i + |pat|] == s[i..i + |pat|];
      }
    }
  }

  /** No piece of a split contains the separator. */
  lemma {:induction false} SplitPiecesFree(s: string, sep: string)
    requires sep != ""
    ensures forall j :: 0 <= j < |Split(s, sep)| ==> !Contains(Split(s, sep)[j], sep)
    decreases |s|
  {
    var k := Find(s, sep);
    FindMissing(s, sep);
    if k == -1 {
      assert Split(s, sep) == [s];
    } else {
      SplitStep(s, sep);
      var rest := s[k + |sep|..];
      SplitPiecesFree(rest, sep);
      var pieces := Split(s, sep);
      forall j | 0 <= j < |pieces| ensures !Contains(pieces[j], sep) {
        if j > 0 {
          assert pieces[j] == Split(rest, sep)[j - 1];
        }
      }
    }
  }

  /**
   * The first piece is the text before the first occurrence of the separator
   * (all of `s` when there is none), and that occurrence follows it directly.
   */
  lemma SplitFirst(s: string, sep: string)
    requires sep != ""
    ensures var first := Split(s, sep)[0];
      && !Contains(first, sep)
      && (!Contains(s, sep) ==> first == s)
      && (Contains(s, sep) ==> first == s[..Find(s, sep)])
      && (Contains(s, sep) ==> |first| + |sep| <= |s| && s[..|first| + |sep|] == first + sep)
  {
    var k := Find(s, sep);
    FindMissing(s, sep);
    if k != -1 {
      SplitStep(s, sep);
      PrefixSlice(s[..k] + sep, s[k + |sep|..], 0, k + |sep|);
    }
  }

  /** Past the first separator, the last piece is the last piece of the rest. */
  lemma SplitLastTail(s: string, sep: string)
    requires sep != "" && Find(s, sep) != -1
    ensures var k := Find(s, sep);
      && k + |sep| <= |s|
      && s == s[..k] + sep + s[k + |sep|..]
      && Last(Split(s, sep)) == Last(Split(s[k + |sep|..], sep))
  {
    var k := Find(s, sep);
    var rest := Split(s[k + |sep|..], sep);
    SplitStep(s, sep);
    LastCons(s[..k], rest);
  }

  lemma LastCons(x: string, xs: seq<string>)
    requires |xs| >= 1
    ensures Last([x] + xs) == Last(xs)
  {
  }

  /** If `rest` is `last` or ends with `sep + last`, then `a + sep + rest` ends with `sep + last`. */
  lemma EndsWithLast(s: string, a: string, sep: string, rest: string, last: string)
    requires s == a + sep + rest
    requires last == rest || (|last| + |sep| <= |rest| && rest[|rest| - |last| - |sep|..] == sep + last)
    ensures |last| + |sep| <= |s| && s[|s| - |last| - |sep|..] == sep + last
  {
    var m := |last| + |sep|;
    if last == rest {
      assert s == a + (sep + rest);
      assert s[|a|..] == sep + rest;
    } else {
      assert s == (a + sep) + rest;
      assert s[|s| - m..] == rest[|rest| - m..];
    }
  }

  /** The last piece contains no separator. */
  lemma {:induction false} SplitLastFree(s: string, sep: string)
    requires sep != ""
    ensures !Contains(Last(Split(s, sep)), sep)
    decreases |s|
  {
    var k := Find(s, sep);
    if k == -1 {
      FindMissing(s, sep);
      assert Split(s, sep) == [s];
    } else {
      SplitLastTail(s, sep);
      SplitLastFree(s[k + |sep|..], sep);
    }
  }

  /**
   * The last piece is the text after the last cut `split` makes, scanning from
   * the left: all of `s` when `find` gives -1, and otherwise `s` ends with the
   * separator followed by it.
   */
  lemma {:induction false} SplitLast(s: string, sep: string)
    requires sep != ""
    ensures var last := Last(Split(s, sep));
      && (Find(s, sep) == -1 ==> last == s)
      && (Find(s, sep) != -1 ==> |last| + |sep| <= |s| && s[|s| - |last| - |sep|..] == sep + last)
    decreases |s|
  {
    var k := Find(s, sep);
    if k == -1 {
      assert Split(s, sep) == [s];
    } else {
      var rest := s[k + |sep|..];
      SplitLastTail(s, sep);
      var last := Last(Split(rest, sep));
      SplitLast(rest, sep);
      if Find(rest, sep) != -1 {
        EndsWithLast(s, s[..k], sep, rest, last);
      } else {
        EndsWithLast(s, s[..k], sep, rest, rest);
      }
    }
  }

  // ---------------------------------------------------------------------------
  // s[i:j]
  // ---------------------------------------------------------------------------

  /** Python's `s[i:j]` for non-negative bounds: both are clipped to `|s|`, and `j <= i` gives "". */
  function Slice(s: string, i: nat, j: nat): (r: string)
    ensures i < j <= |s| ==> r == s[i..j]
    ensures j <= i || |s| <= i ==> r == ""
    ensures i < |s| < j ==> r == s[i..]
  {
    var a := if i < |s| then i else |s|;
    var b := if j < |s| then j else |s|;
    if a < b then s[a..b] else ""
  }

  // ---------------------------------------------------------------------------
  // s.strip()
  // ---------------------------------------------------------------------------

  /**
   * The characters `str.strip()` removes, restricted to ASCII: tab, line feed,
   * vertical tab, form feed and carriage return (0x09-0x0D), and the separators
   * 0x1C-0x1F and space (0x1C-0x20).
   */
  predicate IsSpace(c: char)
  {
    ('\t' <= c <= '\r') || ('\U{001C}' <= c <= ' ')
  }

  /** Every character of `s` from `lo` up to `hi` is whitespace. */
  predicate Spaces(s: string, lo: nat, hi: nat)
    requires lo <= hi <= |s|
  {
    forall i :: lo <= i < hi ==> IsSpace(s[i])
  }

  /** How many whitespace characters `s` starts with. */
  function LeadingSpaces(s: string): (n: nat)
    ensures n <= |s|
  {
    if s != "" && IsSpace(s[0]) then 1 + LeadingSpaces(s[1..]) else 0
  }

  /** `LeadingSpaces(s)` counts the whole whitespace run at the start of `s`. */
  lemma {:induction false} LeadingSpacesRun(s: string)
    ensures var n := LeadingSpaces(s);
      Spaces(s, 0, n) && (n == |s| || !IsSpace(s[n]))
  {
    if s != "" && IsSpace(s[0]) {
      LeadingSpacesRun(s[1..]);
      var n := LeadingSpaces(s);
      forall i | 0 <= i < n ensures IsSpace(s[i]) {
        if i > 0 {
          assert s[i] == s[1..][i - 1];
        }
      }
      if n < |s| {
        assert s[n] == s[1..][n - 1];
      }
    }
  }

  /** How many whitespace characters `s` ends with. */
  function TrailingSpaces(s: string): (n: nat)
    ensures n <= |s|
  {
    if s != "" && IsSpace(s[|s| - 1]) then 1 + TrailingSpaces(s[..|s| - 1]) else 0
  }

  /** `TrailingSpaces(s)` counts the whole whitespace run at the end of `s`. */
  lemma {:induction false} TrailingSpacesRun(s: string)
    ensures var n := TrailingSpaces(s);
      Spaces(s, |s| - n, |s|) && (n == |s| || !IsSpace(s[|s| - n - 1]))
  {
    if s != "" && IsSpace(s[|s| - 1]) {
      var init := s[..|s| - 1];
      TrailingSpacesRun(init);
      var n := TrailingSpaces(s);
      forall i | |s| - n <= i < |s| ensures IsSpace(s[i]) {
        if i < |s| - 1 {
          assert s[i] == init[i];
        }
      }
      if n < |s| {
        assert s[|s| - n - 1] == init[|init| - (n - 1) - 1];
      }
    }
  }

  /** Python's `s.strip()`: the leading whitespace is cut, then the trailing whitespace of what is left. */
  function Strip(s: string): string
  {
    var lead := LeadingSpaces(s);
    s[lead..|s| - TrailingSpaces(s[lead..])]
  }

  /**
   * `Strip(s)` is the middle part of `s` that starts at `LeadingSpaces(s)`, and
   * everything cut off before and after it is whitespace.
   */
  lemma StripSpec(s: string)
    ensures var r, lead := Strip(s), LeadingSpaces(s);
      && lead + |r| <= |s|
      && r == s[lead..lead + |r|]
      && Spaces(s, 0, lead)
      && Spaces(s, lead + |r|, |s|)
  {
    var lead := LeadingSpaces(s);
    var trail := TrailingSpaces(s[lead..]);
    LeadingSpacesRun(s);
    TrailingSpacesRun(s[lead..]);
    StripShape(s, lead, trail);
    assert Strip(s) == s[lead..|s| - trail];
  }

  /** `Strip(s)` neither starts nor ends with whitespace. */
  lemma StripEnds(s: string)
    ensures var r := Strip(s);
      r == "" || (!IsSpace(r[0]) && !IsSpace(r[|r| - 1]))
  {
    var lead := LeadingSpaces(s);
    var trail := TrailingSpaces(s[lead..]);
    LeadingSpacesRun(s);
    TrailingSpacesRun(s[lead..]);
    StripShape(s, lead, trail);
    assert Strip(s) == s[lead..|s| - trail];
  }

  lemma StripShape(s: string, lead: nat, trail: nat)
    requires lead <= |s| && (lead == |s| || !IsSpace(s[lead]))
    requires var t := s[lead..];
      trail <= |t| && Spaces(t, |t| - trail, |t|) && (trail == |t| || !IsSpace(t[|t| - trail - 1]))
    ensures lead <= |s| - trail
    ensures Spaces(s, |s| - trail, |s|)
    ensures var r := s[lead..|s| - trail];
      r == "" || (!IsSpace(r[0]) && !IsSpace(r[|r| - 1]))
  {
    var t := s[lead..];
    forall i | |s| - trail <= i < |s| ensures IsSpace(s[i]) {
      assert s[i] == t[i - lead];
    }
    if trail < |t| {
      assert s[|s| - trail - 1] == t[|t| - trail - 1];
    }
  }

  /** Stripping twice strips nothing more. */
  lemma StripIdempotent(s: string)
    ensures Strip(Strip(s)) == Strip(s)
  {
    var r := Strip(s);
    StripEnds(s);
    assert LeadingSpaces(r) == 0;
    assert r[0..] == r;
    assert TrailingSpaces(r) == 0;
  }
}
