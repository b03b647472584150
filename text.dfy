/** The few Python `str` operations the tool relies on, over `seq<char>`. */
module Text {

  /** The characters for which Python's `str.isspace()` holds; `str.strip()` removes them. */
  predicate IsSpace(c: char)
  {
    || c == ' ' || '\t' <= c <= '\r' || '\U{001C}' <= c <= '\U{001F}'
    || c == '\U{0085}' || c == '\U{00A0}' || c == '\U{1680}' || '\U{2000}' <= c <= '\U{200A}'
    || c == '\U{2028}' || c == '\U{2029}' || c == '\U{202F}' || c == '\U{205F}' || c == '\U{3000}'
  }

  /** The line boundaries of Python's `str.splitlines()` (`"\r\n"` counts as one). */
  predicate IsLineBreak(c: char)
  {
    || '\n' <= c <= '\r' || '\U{001C}' <= c <= '\U{001E}'
    || c == '\U{0085}' || c == '\U{2028}' || c == '\U{2029}'
  }

  predicate AllSpace(s: string)
  {
    forall i :: 0 <= i < |s| ==> IsSpace(s[i])
  }

  /** No whitespace at either end. */
  predicate Trimmed(s: string)
  {
    s == [] || (!IsSpace(s[0]) && !IsSpace(s[|s| - 1]))
  }

  predicate NoLineBreak(s: string)
  {
    forall i :: 0 <= i < |s| ==> !IsLineBreak(s[i])
  }

  /** `s.lstrip()`: what is left after dropping the leading whitespace. */
  function LStrip(s: string): (r: string)
    ensures |r| <= |s|
    ensures r == [] || !IsSpace(r[0])
  {
    if s != [] && IsSpace(s[0]) then LStrip(s[1..]) else s
  }

  /** `LStrip` leaves a suffix, and what it drops is whitespace. */
  lemma {:induction false} LStripSlice(s: string)
    ensures LStrip(s) == s[|s| - |LStrip(s)|..]
    ensures AllSpace(s[..|s| - |LStrip(s)|])
  {
    if s != [] && IsSpace(s[0]) {
      var r := LStrip(s[1..]);
      LStripSlice(s[1..]);
      assert s[..|s| - |r|] == [s[0]] + s[1..][..|s| - 1 - |r|];
    }
  }

  /** `s.rstrip()`: what is left after dropping the trailing whitespace. */
  function RStrip(s: string): (r: string)
    ensures |r| <= |s|
    ensures r == [] || !IsSpace(r[|r| - 1])
  {
    if s != [] && IsSpace(s[|s| - 1]) then RStrip(s[..|s| - 1]) else s
  }

  /** `RStrip` leaves a prefix, and what it drops is whitespace. */
  lemma {:induction false} RStripSlice(s: string)
    ensures RStrip(s) == s[..|RStrip(s)|]
    ensures AllSpace(s[|RStrip(s)|..])
  {
    if s != [] && IsSpace(s[|s| - 1]) {
      var init := s[..|s| - 1];
      var r := RStrip(init);
      RStripSlice(init);
      assert s[|r|..] == init[|r|..] + [s[|s| - 1]];
    }
  }

  /** Trailing whitespace is dropped by `rstrip` whatever precedes it. */
  lemma {:induction false} RStripTrailingSpace(t: string, w: string)
    requires AllSpace(w)
    ensures RStrip(t + w) == RStrip(t)
    decreases |w|
  {
    if w != [] {
      assert (t + w)[..|t + w| - 1] == t + w[..|w| - 1];
      RStripTrailingSpace(t, w[..|w| - 1]);
    } else {
      assert t + w == t;
    }
  }

  /** When the tail is not blank, `rstrip` only reaches into the tail. */
  lemma {:induction false} RStripKeepsHead(t: string, w: string)
    requires !AllSpace(w)
    ensures RStrip(t + w) == t + RStrip(w)
    decreases |w|
  {
    var last := w[|w| - 1];
    var init := w[..|w| - 1];
    assert (t + w)[|t + w| - 1] == last;
    if IsSpace(last) {
      assert !AllSpace(init) by {
        var i :| 0 <= i < |w| && !IsSpace(w[i]);
        assert i < |w| - 1 && init[i] == w[i];
      }
      assert (t + w)[..|t + w| - 1] == t + init;
      RStripKeepsHead(t, init);
    }
  }

  /** `s.strip()`: no whitespace at either end, empty exactly when `s` is blank. */
  function Strip(s: string): (r: string)
    ensures Trimmed(r)
    ensures r == "" <==> AllSpace(s)
  {
    var l := LStrip(s);
    StripFacts(s, l, RStrip(l));
    RStrip(l)
  }

  lemma StripFacts(s: string, l: string, r: string)
    requires l == LStrip(s) && r == RStrip(l)
    ensures Trimmed(r)
    ensures r == "" <==> AllSpace(s)
  {
    LStripSlice(s);
    RStripSlice(l);
    var k := |s| - |l|;
    assert l == s[k..];
    if r != [] {
      assert r[0] == l[0];
    }
    if r == [] {
      assert l[|r|..] == l;
      assert l == [];
      forall i | 0 <= i < |s| ensures IsSpace(s[i]) {
        assert s[i] == s[..k][i];
      }
    }
  }

  /** `s.strip()` is a slice of `s`, and what it cuts from either end is whitespace. */
  lemma StripSlice(s: string) returns (lo: nat)
    ensures lo + |Strip(s)| <= |s| && Strip(s) == s[lo..lo + |Strip(s)|]
    ensures AllSpace(s[..lo]) && AllSpace(s[lo + |Strip(s)|..])
  {
    var l := LStrip(s);
    LStripSlice(s);
    RStripSlice(l);
    lo := |s| - |l|;
  }

  /** `r` is `s` with only whitespace cut from its two ends. */
  predicate WhitespaceCut(s: string, r: string)
  {
    exists lo: nat :: (lo + |r| <= |s| && r == s[lo..lo + |r|] &&
                       AllSpace(s[..lo]) && AllSpace(s[lo + |r|..]))
  }

  /** `s.strip()` is what remains of `s` once only whitespace is cut from its two ends. */
  lemma StripCore(s: string)
    ensures WhitespaceCut(s, Strip(s))
  {
    var r := Strip(s);
    var lo := StripSlice(s);
    assert lo + |r| <= |s| && r == s[lo..lo + |r|] && AllSpace(s[..lo]) && AllSpace(s[lo + |r|..]);
  }

  /** Conversely, cutting only whitespace and leaving none at the ends can only give `s.strip()`. */
  lemma StripUnique(s: string, r: string)
    requires Trimmed(r) && WhitespaceCut(s, r)
    ensures r == Strip(s)
  {
    var lo: nat :| lo + |r| <= |s| && r == s[lo..lo + |r|] && AllSpace(s[..lo]) && AllSpace(s[lo + |r|..]);
    var t := Strip(s);
    var lo2 := StripSlice(s);
    if r == [] {
      assert s[lo + |r|..] == s[lo..];
      BlankHalves(s, lo);
    } else {
      assert s[lo] == r[0];
      assert t != "" by { assert !IsSpace(s[lo]); }
      SameCut(s, r, lo, t, lo2);
    }
  }

  /** Two non-empty trimmed slices with only whitespace around them are the same slice. */
  lemma SameCut(s: string, r: string, lo: nat, t: string, lo2: nat)
    requires r != [] && Trimmed(r) && lo + |r| <= |s| && r == s[lo..lo + |r|]
    requires AllSpace(s[..lo]) && AllSpace(s[lo + |r|..])
    requires t != [] && Trimmed(t) && lo2 + |t| <= |s| && t == s[lo2..lo2 + |t|]
    requires AllSpace(s[..lo2]) && AllSpace(s[lo2 + |t|..])
    ensures r == t
  {
    assert s[lo] == r[0] && s[lo2] == t[0];
    SpaceBeforeUnique(s, lo, lo2);
    var e, e2 := lo + |r|, lo2 + |t|;
    assert s[e - 1] == r[|r| - 1];
    assert s[e2 - 1] == t[|t| - 1];
    SpaceAfterUnique(s, e, e2);
  }

  /** A text whose two halves are blank is blank. */
  lemma BlankHalves(s: string, k: nat)
    requires k <= |s| && AllSpace(s[..k]) && AllSpace(s[k..])
    ensures AllSpace(s)
  {
    forall i | 0 <= i < |s| ensures IsSpace(s[i]) {
      if i < k { assert s[i] == s[..k][i]; } else { assert s[i] == s[k..][i - k]; }
    }
  }

  /** Only one position can have only whitespace before it and none at it. */
  lemma SpaceBeforeUnique(s: string, a: nat, b: nat)
    requires a < |s| && b < |s| && AllSpace(s[..a]) && AllSpace(s[..b])
    requires !IsSpace(s[a]) && !IsSpace(s[b])
    ensures a == b
  {
    forall i | 0 <= i < a ensures IsSpace(s[i]) { assert s[i] == s[..a][i]; }
    forall i | 0 <= i < b ensures IsSpace(s[i]) { assert s[i] == s[..b][i]; }
  }

  /** Only one end can have only whitespace after it and none just before it. */
  lemma SpaceAfterUnique(s: string, a: nat, b: nat)
    requires 0 < a <= |s| && 0 < b <= |s| && AllSpace(s[a..]) && AllSpace(s[b..])
    requires !IsSpace(s[a - 1]) && !IsSpace(s[b - 1])
    ensures a == b
  {
    forall i | a <= i < |s| ensures IsSpace(s[i]) { assert s[i] == s[a..][i - a]; }
    forall i | b <= i < |s| ensures IsSpace(s[i]) { assert s[i] == s[b..][i - b]; }
  }

  function LowerChar(c: char): char
  {
    if 'A' <= c <= 'Z' then (c as int + 32) as char else c
  }

  predicate NoUpper(s: string)
  {
    forall i :: 0 <= i < |s| ==> !('A' <= s[i] <= 'Z')
  }

  /** `s.lower()`, for the ASCII letters. */
  function Lower(s: string): (r: string)
    ensures |r| == |s|
    ensures forall i {:trigger r[i]} :: 0 <= i < |s| ==> r[i] == LowerChar(s[i])
    ensures NoUpper(r)
  {
    seq(|s|, i requires 0 <= i < |s| => LowerChar(s[i]))
  }

  /** `s.split(c)[0]`: everything before the first `c`, or all of `s`. */
  function BeforeFirst(s: string, c: char): (r: string)
    ensures |r| <= |s|
  {
    if s == [] || s[0] == c then [] else [s[0]] + BeforeFirst(s[1..], c)
  }

  /** `BeforeFirst` keeps a prefix free of `c`, and stops only at a `c`. */
  lemma {:induction false} BeforeFirstSlice(s: string, c: char)
    ensures BeforeFirst(s, c) == s[..|BeforeFirst(s, c)|] && c !in BeforeFirst(s, c)
    ensures |BeforeFirst(s, c)| < |s| ==> s[|BeforeFirst(s, c)|] == c
  {
    if s != [] && s[0] != c {
      BeforeFirstSlice(s[1..], c);
    }
  }

  /** Lowercasing works character by character, so it distributes over concatenation. */
  lemma LowerAppend(a: string, b: string)
    ensures Lower(a + b) == Lower(a) + Lower(b)
  {
    var x, y := Lower(a + b), Lower(a) + Lower(b);
    forall i | 0 <= i < |x| ensures x[i] == y[i] {
      if i < |a| { assert (a + b)[i] == a[i]; } else { assert (a + b)[i] == b[i - |a|]; }
    }
  }

  /** The text before the first `c` of `a + [c] + b`, when `a` has no `c`, is `a`. */
  lemma {:induction false} BeforeFirstAt(a: string, c: char, b: string)
    requires c !in a
    ensures BeforeFirst(a + [c] + b, c) == a
  {
    if a != [] {
      assert (a + [c] + b)[1..] == a[1..] + [c] + b;
      BeforeFirstAt(a[1..], c, b);
    }
  }

  /** `s[:n]`. */
  function Take(s: string, n: nat): (r: string)
    ensures |r| <= n && |r| <= |s| && r == s[..|r|]
    ensures |s| >= n ==> |r| == n
  {
    if |s| <= n then s else s[..n]
  }

  /** `sep.join(xs)`. */
  function Join(sep: string, xs: seq<string>): string
  {
    if xs == [] then "" else if |xs| == 1 then xs[0] else xs[0] + sep + Join(sep, xs[1..])
  }

  /** Where item `i` starts in `sep.join(xs)`: each earlier item is followed by one `sep`. */
  function Offset(sep: string, xs: seq<string>, i: nat): nat
    requires i <= |xs|
  {
    if i == 0 then 0 else Offset(sep, xs, i - 1) + |xs[i - 1]| + |sep|
  }

  /** Offsets counted in the items after the first. */
  lemma {:induction false} OffsetTail(sep: string, xs: seq<string>, i: nat)
    requires 1 <= i <= |xs|
    ensures Offset(sep, xs, i) == |xs[0]| + |sep| + Offset(sep, xs[1..], i - 1)
  {
    if i > 1 {
      OffsetTail(sep, xs, i - 1);
      assert xs[1..][i - 2] == xs[i - 1];
    }
  }

  /** A slice of the right operand of a concatenation, read through the whole. */
  lemma SliceAfter(a: string, b: string, x: nat, y: nat)
    requires x <= y <= |b|
    ensures (a + b)[|a| + x..|a| + y] == b[x..y]
  {
    var l, r := (a + b)[|a| + x..|a| + y], b[x..y];
    forall k | 0 <= k < |l| ensures l[k] == r[k] {
      assert l[k] == (a + b)[|a| + x + k];
    }
  }

  /** `sep.join(xs)` with two or more items: the first, one `sep`, and the join of the rest. */
  lemma JoinCons(sep: string, xs: seq<string>)
    requires |xs| >= 2
    ensures Join(sep, xs) == (xs[0] + sep) + Join(sep, xs[1..])
  {
  }

  /** The joined text is the items plus one `sep` between each two neighbours. */
  lemma {:induction false} JoinLength(sep: string, xs: seq<string>)
    requires xs != []
    ensures |Join(sep, xs)| == Offset(sep, xs, |xs|) - |sep|
    decreases |xs|
  {
    if |xs| > 1 {
      JoinCons(sep, xs);
      JoinLength(sep, xs[1..]);
      OffsetTail(sep, xs, |xs|);
    }
  }

  /** Item `i` of `sep.join(xs)` starts at `Offset(sep, xs, i)`. */
  lemma {:induction false} JoinItem(sep: string, xs: seq<string>, i: nat)
    requires i < |xs|
    ensures Offset(sep, xs, i) + |xs[i]| <= |Join(sep, xs)|
    ensures Join(sep, xs)[Offset(sep, xs, i)..Offset(sep, xs, i) + |xs[i]|] == xs[i]
    decreases |xs|
  {
    var j := Join(sep, xs);
    if |xs| == 1 {
      assert j == xs[0];
    } else {
      JoinCons(sep, xs);
      var head, tail := xs[0] + sep, xs[1..];
      if i == 0 {
        assert j[..|xs[0]|] == xs[0];
      } else {
        JoinItem(sep, tail, i - 1);
        OffsetTail(sep, xs, i);
        var o := Offset(sep, tail, i - 1);
        assert tail[i - 1] == xs[i];
        SliceAfter(head, Join(sep, tail), o, o + |xs[i]|);
      }
    }
  }

  /** A `sep` precedes every item but the first. */
  lemma {:induction false} JoinSeparator(sep: string, xs: seq<string>, i: nat)
    requires 1 <= i < |xs|
    ensures |sep| <= Offset(sep, xs, i) <= |Join(sep, xs)|
    ensures Join(sep, xs)[Offset(sep, xs, i) - |sep|..Offset(sep, xs, i)] == sep
    decreases |xs|
  {
    var j := Join(sep, xs);
    JoinCons(sep, xs);
    var head, tail := xs[0] + sep, xs[1..];
    OffsetTail(sep, xs, i);
    if i == 1 {
      assert j[|xs[0]|..|xs[0]| + |sep|] == sep;
    } else {
      JoinSeparator(sep, tail, i - 1);
      var o := Offset(sep, tail, i - 1);
      SliceAfter(head, Join(sep, tail), o - |sep|, o);
    }
  }

  /** The whole layout of `sep.join(xs)`: its length, every item and every separator in place. */
  lemma JoinLayout(sep: string, xs: seq<string>)
    ensures xs != [] ==> |Join(sep, xs)| == Offset(sep, xs, |xs|) - |sep|
    ensures forall i {:trigger Offset(sep, xs, i)} :: 0 <= i < |xs| ==>
      Offset(sep, xs, i) + |xs[i]| <= |Join(sep, xs)| &&
      Join(sep, xs)[Offset(sep, xs, i)..Offset(sep, xs, i) + |xs[i]|] == xs[i]
    ensures forall i {:trigger Offset(sep, xs, i)} :: 1 <= i < |xs| ==>
      |sep| <= Offset(sep, xs, i) <= |Join(sep, xs)| &&
      Join(sep, xs)[Offset(sep, xs, i) - |sep|..Offset(sep, xs, i)] == sep
  {
    if xs != [] {
      JoinLength(sep, xs);
    }
    JoinItems(sep, xs);
    JoinSeparators(sep, xs);
  }

  lemma JoinItems(sep: string, xs: seq<string>)
    ensures forall i {:trigger Offset(sep, xs, i)} :: 0 <= i < |xs| ==>
      Offset(sep, xs, i) + |xs[i]| <= |Join(sep, xs)| &&
      Join(sep, xs)[Offset(sep, xs, i)..Offset(sep, xs, i) + |xs[i]|] == xs[i]
  {
    forall i | 0 <= i < |xs| ensures
      Offset(sep, xs, i) + |xs[i]| <= |Join(sep, xs)| &&
      Join(sep, xs)[Offset(sep, xs, i)..Offset(sep, xs, i) + |xs[i]|] == xs[i]
    {
      JoinItem(sep, xs, i);
    }
  }

  lemma JoinSeparators(sep: string, xs: seq<string>)
    ensures forall i {:trigger Offset(sep, xs, i)} :: 1 <= i < |xs| ==>
      |sep| <= Offset(sep, xs, i) <= |Join(sep, xs)| &&
      Join(sep, xs)[Offset(sep, xs, i) - |sep|..Offset(sep, xs, i)] == sep
  {
    forall i | 1 <= i < |xs| ensures
      |sep| <= Offset(sep, xs, i) <= |Join(sep, xs)| &&
      Join(sep, xs)[Offset(sep, xs, i) - |sep|..Offset(sep, xs, i)] == sep
    {
      JoinSeparator(sep, xs, i);
    }
  }

  /** The index of the first line boundary of `s`, or `|s|`. */
  function LineEnd(s: string): (i: nat)
    ensures i <= |s|
    ensures i < |s| ==> IsLineBreak(s[i])
    ensures forall j :: 0 <= j < i ==> !IsLineBreak(s[j])
  {
    if s == [] || IsLineBreak(s[0]) then 0 else 1 + LineEnd(s[1..])
  }

  /** Where the text after the line ending at `i` starts: `"\r\n"` is one boundary. */
  function NextLine(s: string, i: nat): (k: nat)
    requires i < |s|
    ensures i < k <= |s|
  {
    if s[i] == '\r' && i + 1 < |s| && s[i + 1] == '\n' then i + 2 else i + 1
  }

  /** `s.splitlines()`: no boundary is kept, and a final boundary opens no empty line. */
  function Lines(s: string): (ls: seq<string>)
    decreases |s|
  {
    if s == [] then []
    else
      var i := LineEnd(s);
      if i == |s| then [s] else [s[..i]] + Lines(s[NextLine(s, i)..])
  }

  /** No line holds a line boundary. */
  lemma {:induction false} LinesHaveNoBreak(s: string)
    ensures forall k :: 0 <= k < |Lines(s)| ==> NoLineBreak(Lines(s)[k])
    decreases |s|
  {
    if s != [] {
      var i := LineEnd(s);
      if i < |s| {
        var rest := s[NextLine(s, i)..];
        LinesHaveNoBreak(rest);
        assert Lines(s) == [s[..i]] + Lines(rest);
        assert NoLineBreak(s[..i]);
      }
    }
  }

  /** `Path(p).name` for the paths `shutil.which` returns: the part after the last `/`. */
  function Basename(path: string): (r: string)
    ensures |r| <= |path| && r == path[|path| - |r|..] && '/' !in r
    ensures |r| < |path| ==> path[|path| - |r| - 1] == '/'
  {
    if path == [] || path[|path| - 1] == '/' then []
    else Basename(path[..|path| - 1]) + [path[|path| - 1]]
  }

  function DigitChar(d: nat): char
    requires d < 10
  {
    "0123456789"[d]
  }

  /** `str(n)` for a natural number. */
  function NatToString(n: nat): (s: string)
    ensures s != []
    ensures forall i :: 0 <= i < |s| ==> '0' <= s[i] <= '9'
  {
    if n < 10 then [DigitChar(n)] else NatToString(n / 10) + [DigitChar(n % 10)]
  }

  /** The value of a string of decimal digits (its inverse partner). */
  function DecimalValue(s: string): nat
  {
    if s == [] then 0
    else
      var c := s[|s| - 1];
      DecimalValue(s[..|s| - 1]) * 10 + (if '0' <= c <= '9' then c as int - '0' as int else 0)
  }

  /** Status codes print as decimal numerals that read back as the same number. */
  lemma {:induction false} NatToStringRoundTrip(n: nat)
    ensures DecimalValue(NatToString(n)) == n
  {
    var s := NatToString(n);
    if n >= 10 {
      NatToStringRoundTrip(n / 10);
      assert s[..|s| - 1] == NatToString(n / 10);
    }
  }
}
