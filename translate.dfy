/**
 * Choosing the gloss from translate-shell's brief output: the first line
 * that is not blank, stripped (`trans_brief` in
 * lookup_to_anki_multi_lang.py, `chinese_gloss_with_trans` in
 * lookup_to_anki.py).
 */
module Translate {
  import opened Wrappers
  import opened Text

  /** `(out or "")`, where `None` stands for a call that raised. */
  function OrEmpty(out: Option<string>): string
  {
    if out.Some? then out.value else ""
  }

  /**
   * The first line whose stripped form is not empty, stripped; `""` when
   * there is none. A line strips to `""` exactly when it is all whitespace.
   */
  function FirstNonBlank(lines: seq<string>): (r: string)
    ensures Trimmed(r)
  {
    if lines == [] then ""
    else if !AllSpace(lines[0]) then Strip(lines[0])
    else FirstNonBlank(lines[1..])
  }

  /** The gloss chosen from one run of the translator. */
  function Brief(out: Option<string>): string
  {
    FirstNonBlank(Lines(OrEmpty(out)))
  }

  /** The choice is empty exactly when every line is blank. */
  lemma {:induction false} FirstNonBlankEmpty(lines: seq<string>)
    ensures FirstNonBlank(lines) == "" <==> forall i :: 0 <= i < |lines| ==> AllSpace(lines[i])
  {
    if lines != [] && AllSpace(lines[0]) {
      var tail := lines[1..];
      FirstNonBlankEmpty(tail);
      assert forall i :: 0 < i < |lines| ==> lines[i] == tail[i - 1];
    }
  }

  /** A non-empty choice is the stripped form of a non-blank line, and every line before it is blank. */
  lemma {:induction false} FirstNonBlankIndex(lines: seq<string>) returns (k: nat)
    requires FirstNonBlank(lines) != ""
    ensures k < |lines| && !AllSpace(lines[k]) && FirstNonBlank(lines) == Strip(lines[k])
    ensures forall j :: 0 <= j < k ==> AllSpace(lines[j])
  {
    if !AllSpace(lines[0]) {
      k := 0;
    } else {
      var tail := lines[1..];
      var k' := FirstNonBlankIndex(tail);
      k := k' + 1;
      assert lines[k] == tail[k'];
      forall j | 0 <= j < k ensures AllSpace(lines[j]) {
        if j > 0 { assert lines[j] == tail[j - 1]; }
      }
    }
  }

  /** `FirstNonBlank` picks the earliest non-blank line, and is empty exactly when all lines are blank. */
  lemma FirstNonBlankIsFirst(lines: seq<string>)
    ensures var r := FirstNonBlank(lines);
      (r == "" <==> forall i :: 0 <= i < |lines| ==> AllSpace(lines[i])) &&
      (r != "" ==> exists k :: 0 <= k < |lines| && r == Strip(lines[k]) &&
                              forall j :: 0 <= j < k ==> AllSpace(lines[j]))
  {
    FirstNonBlankEmpty(lines);
    if FirstNonBlank(lines) != "" {
      var k := FirstNonBlankIndex(lines);
    }
  }

  /** Blank lines before the `i`-th do not change the choice. */
  lemma SkipBlank(lines: seq<string>, i: nat)
    requires i < |lines| && AllSpace(lines[i])
    ensures FirstNonBlank(lines[i..]) == FirstNonBlank(lines[i + 1..])
  {
    assert lines[i..][1..] == lines[i + 1..];
  }

  /** The chosen text holds no line boundary. */
  lemma {:induction false} FirstNonBlankNoBreak(lines: seq<string>)
    requires forall k :: 0 <= k < |lines| ==> NoLineBreak(lines[k])
    ensures NoLineBreak(FirstNonBlank(lines))
  {
    if lines != [] {
      if !AllSpace(lines[0]) {
        var s := Strip(lines[0]);
        var lo := StripSlice(lines[0]);
        forall i | 0 <= i < |s| ensures !IsLineBreak(s[i]) {
          assert s[i] == lines[0][lo + i];
        }
      } else {
        FirstNonBlankNoBreak(lines[1..]);
      }
    }
  }

  /**
   * The gloss has no whitespace at either end and no line boundary, and it is
   * empty exactly when every line of the output is blank.
   */
  lemma BriefShape(out: Option<string>)
    ensures Trimmed(Brief(out)) && NoLineBreak(Brief(out))
    ensures Brief(out) == "" <==> forall i :: 0 <= i < |Lines(OrEmpty(out))| ==> AllSpace(Lines(OrEmpty(out))[i])
  {
    var lines := Lines(OrEmpty(out));
    LinesHaveNoBreak(OrEmpty(out));
    FirstNonBlankNoBreak(lines);
    FirstNonBlankEmpty(lines);
    assert Brief(out) == FirstNonBlank(lines);
  }

  /**
   * `trans_brief`: the first non-blank line of the translator output,
   * stripped; `""` when there is none or the call raised.
   */
  method TransBrief(out: Option<string>) returns (r: string)
    ensures r == Brief(out)
    ensures Trimmed(r) && NoLineBreak(r)
  {
    BriefShape(out);
    var lines := Lines(OrEmpty(out));
    for i := 0 to |lines|
      invariant FirstNonBlank(lines) == FirstNonBlank(lines[i..])
    {
      var s := Strip(lines[i]);
      if s != "" {
        return s;
      }
      SkipBlank(lines, i);
    }
    return "";
  }

  // Stripping the whole output first does not change the chosen line.

  lemma {:induction false} LStripLeadingSpace(w: string, t: string)
    requires AllSpace(w)
    ensures LStrip(w + t) == LStrip(t)
    decreases |w|
  {
    if w != [] {
      assert (w + t)[1..] == w[1..] + t;
      LStripLeadingSpace(w[1..], t);
    } else {
      assert w + t == t;
    }
  }

  /** Leading whitespace does not change a stripped line. */
  lemma StripLeadingSpace(w: string, t: string)
    requires AllSpace(w)
    ensures Strip(w + t) == Strip(t)
  {
    LStripLeadingSpace(w, t);
  }

  /** Trailing whitespace after a non-blank text does not change it once stripped. */
  lemma StripTrailingSpace(u: string, w: string)
    requires AllSpace(w) && u != [] && !IsSpace(u[|u| - 1])
    ensures Strip(u + w) == Strip(u)
  {
    var l := LStrip(u);
    var k := |u| - |l|;
    LStripSlice(u);
    assert !AllSpace(u) by {
      assert !IsSpace(u[|u| - 1]);
    }
    assert l != [];
    assert u == u[..k] + l;
    assert u + w == u[..k] + (l + w);
    LStripLeadingSpace(u[..k], l + w);
    assert LStrip(u + w) == LStrip(l + w);
    assert (l + w)[0] == l[0];
    assert LStrip(l + w) == l + w;
    RStripTrailingSpace(l, w);
    assert Strip(u + w) == RStrip(l + w) == RStrip(l) == Strip(u);
  }

  /** Slices of a concatenation, each proved element by element. */
  lemma TakeConcat(w: string, t: string, j: nat)
    requires j <= |t|
    ensures (w + t)[..|w| + j] == w + t[..j]
  {
    var a, b := (w + t)[..|w| + j], w + t[..j];
    forall i | 0 <= i < |a| ensures a[i] == b[i] {
      if i >= |w| { assert a[i] == t[i - |w|]; }
    }
  }

  lemma DropConcat(w: string, t: string, k: nat)
    requires k <= |t|
    ensures (w + t)[|w| + k..] == t[k..]
  {
    var a, b := (w + t)[|w| + k..], t[k..];
    forall i | 0 <= i < |a| ensures a[i] == b[i] {
      assert a[i] == t[k + i];
    }
  }

  lemma TakePrefix(u: string, w: string, i: nat)
    requires i <= |u|
    ensures (u + w)[..i] == u[..i]
  {
    var a, b := (u + w)[..i], u[..i];
    forall j | 0 <= j < i ensures a[j] == b[j] {
      assert a[j] == u[j];
    }
  }

  lemma DropPrefix(u: string, w: string, n: nat)
    requires n <= |u|
    ensures (u + w)[n..] == u[n..] + w
  {
    var a, b := (u + w)[n..], u[n..] + w;
    forall j | 0 <= j < |a| ensures a[j] == b[j] {
      if n + j < |u| { assert a[j] == u[n + j]; } else { assert a[j] == w[n + j - |u|]; }
    }
  }

  lemma {:induction false} LineEndAfterNoBreak(w: string, t: string)
    requires NoLineBreak(w)
    ensures LineEnd(w + t) == |w| + LineEnd(t)
    decreases |w|
  {
    if w != [] {
      assert (w + t)[1..] == w[1..] + t;
      LineEndAfterNoBreak(w[1..], t);
    } else {
      assert w + t == t;
    }
  }

  lemma NextLineShift(w: string, t: string, j: nat)
    requires j < |t|
    ensures NextLine(w + t, |w| + j) == |w| + NextLine(t, j)
  {
    var s := w + t;
    assert s[|w| + j] == t[j];
    if j + 1 < |t| { assert s[|w| + j + 1] == t[j + 1]; }
  }

  lemma NextLinePrefix(u: string, w: string, i: nat)
    requires i < |u| && (u[i] == '\r' ==> i + 1 < |u|)
    ensures NextLine(u + w, i) == NextLine(u, i)
  {
    var s := u + w;
    assert s[i] == u[i];
    if u[i] == '\r' { assert s[i + 1] == u[i + 1]; }
  }

  /** How `Lines` takes off the first line when a boundary follows it. */
  lemma LinesCons(s: string)
    requires LineEnd(s) < |s|
    ensures Lines(s) == [s[..LineEnd(s)]] + Lines(s[NextLine(s, LineEnd(s))..])
  {
  }

  /** Two line lists that differ only in a first line with the same stripped form choose alike. */
  lemma SameHead(a: string, b: string, rest: seq<string>)
    requires Strip(a) == Strip(b)
    ensures FirstNonBlank([a] + rest) == FirstNonBlank([b] + rest)
  {
    assert ([a] + rest)[1..] == rest == ([b] + rest)[1..];
  }

  /** A blank line in front is skipped. */
  lemma BlankHead(a: string, rest: seq<string>)
    requires AllSpace(a)
    ensures FirstNonBlank([a] + rest) == FirstNonBlank(rest)
  {
    assert ([a] + rest)[1..] == rest;
  }

  /** A blank text has no line to choose. */
  lemma {:induction false} BlankHasNoGloss(w: string)
    requires AllSpace(w)
    ensures FirstNonBlank(Lines(w)) == ""
    decreases |w|
  {
    if w != [] {
      var i := LineEnd(w);
      if i < |w| {
        var n := NextLine(w, i);
        assert AllSpace(w[..i]);
        LinesCons(w);
        BlankHead(w[..i], Lines(w[n..]));
        BlankHasNoGloss(w[n..]);
      } else {
        assert Lines(w) == [w];
      }
    }
  }

  /** `LinesCons` with the boundary and the restart given by name. */
  lemma LinesAt(s: string, e: nat, n: nat)
    requires e == LineEnd(s) && e < |s| && n == NextLine(s, e)
    ensures Lines(s) == [s[..e]] + Lines(s[n..])
  {
  }

  /** `LinesAt` with the first line and the rest given by name. */
  lemma LinesSplitAt(s: string, e: nat, m: nat, first: string, rest: string)
    requires e == LineEnd(s) && e < |s| && m == NextLine(s, e)
    requires first == s[..e] && rest == s[m..]
    ensures Lines(s) == [first] + Lines(rest)
  {
    LinesAt(s, e, m);
  }

  /** With the first boundary of `t` at `j`, the first line of `w + t` is `w` followed by `t[..j]`. */
  lemma LinesShift(w: string, t: string, j: nat, n: nat)
    requires NoLineBreak(w) && j == LineEnd(t) < |t| && n == NextLine(t, j)
    ensures Lines(w + t) == [w + t[..j]] + Lines(t[n..])
  {
    var s := w + t;
    var e, m := |w| + j, |w| + n;
    LineEndAfterNoBreak(w, t);
    NextLineShift(w, t, j);
    TakeConcat(w, t, j);
    DropConcat(w, t, n);
    LinesSplitAt(s, e, m, w + t[..j], t[n..]);
  }

  /** Leading whitespace with no boundary in it joins the first line of `t`, and is stripped off. */
  lemma LeadingSpaceSameLine(w: string, t: string)
    requires AllSpace(w) && NoLineBreak(w) && w != []
    ensures FirstNonBlank(Lines(w + t)) == FirstNonBlank(Lines(t))
  {
    var j := LineEnd(t);
    if t == [] {
      assert w + t == w;
      BlankHasNoGloss(w);
    } else if j == |t| {
      LineEndAfterNoBreak(w, t);
      StripLeadingSpace(w, t);
    } else {
      LinesShift(w, t, j, NextLine(t, j));
      LinesCons(t);
      StripLeadingSpace(w, t[..j]);
      SameHead(w + t[..j], t[..j], Lines(t[NextLine(t, j)..]));
    }
  }

  /** Leading whitespace before a text that starts with a non-space does not change the choice. */
  lemma {:induction false} LeadingSpaceKeepsGloss(w: string, t: string)
    requires AllSpace(w) && (t == [] || !IsSpace(t[0]))
    ensures FirstNonBlank(Lines(w + t)) == FirstNonBlank(Lines(t))
    decreases |w|
  {
    var s := w + t;
    if w == [] {
      assert s == t;
    } else {
      var i := LineEnd(s);
      if i < |w| {
        assert s[i] == w[i];
        var n := NextLine(s, i);
        assert n <= |w|;
        assert AllSpace(s[..i]) by {
          forall j | 0 <= j < i ensures IsSpace(s[..i][j]) { assert s[j] == w[j]; }
        }
        LinesCons(s);
        BlankHead(s[..i], Lines(s[n..]));
        DropPrefix(w, t, n);
        LeadingSpaceKeepsGloss(w[n..], t);
      } else {
        assert NoLineBreak(w) by {
          forall j | 0 <= j < |w| ensures !IsLineBreak(w[j]) { assert s[j] == w[j]; }
        }
        LeadingSpaceSameLine(w, t);
      }
    }
  }

  /** A text with no boundary is one line. */
  lemma OneLine(u: string)
    requires u != [] && NoLineBreak(u)
    ensures Lines(u) == [u]
  {
    assert LineEnd(u) == |u|;
  }

  /** A non-blank first line is the choice. */
  lemma NonBlankHead(a: string, rest: seq<string>)
    requires Strip(a) != ""
    ensures FirstNonBlank([a] + rest) == Strip(a)
  {
  }

  /** A non-blank text before its first boundary is the choice. */
  lemma FirstLineChosen(s: string, i: nat, n: nat)
    requires i == LineEnd(s) < |s| && n == NextLine(s, i) && Strip(s[..i]) != ""
    ensures FirstNonBlank(Lines(s)) == Strip(s[..i])
  {
    LinesAt(s, i, n);
    NonBlankHead(s[..i], Lines(s[n..]));
  }

  /** A non-blank text with no boundary is the choice. */
  lemma OnlyLineChosen(s: string)
    requires LineEnd(s) == |s| && Strip(s) != ""
    ensures FirstNonBlank(Lines(s)) == Strip(s)
  {
    OneLine(s) by {
      forall j | 0 <= j < |s| ensures !IsLineBreak(s[j]) { assert j < LineEnd(s); }
    }
    NonBlankHead(s, []);
    assert [s] + [] == [s];
  }

  /** Trailing whitespace cut at any point leaves the stripped form of `u`. */
  lemma TrailingLineStrip(u: string, w: string, k: nat)
    requires AllSpace(w) && u != [] && !IsSpace(u[|u| - 1]) && k <= |w|
    ensures Strip((u + w)[..|u| + k]) == Strip(u) != ""
  {
    TakeConcat(u, w, k);
    assert AllSpace(w[..k]) by {
      forall j | 0 <= j < k ensures IsSpace(w[..k][j]) { assert w[..k][j] == w[j]; }
    }
    StripTrailingSpace(u, w[..k]);
    assert !IsSpace(u[|u| - 1]);
  }

  /** A non-blank text with no boundary, followed by whitespace, chooses its own stripped form. */
  lemma TrailingSpaceSameLine(u: string, w: string)
    requires AllSpace(w) && u != [] && !IsSpace(u[|u| - 1]) && NoLineBreak(u)
    ensures FirstNonBlank(Lines(u + w)) == FirstNonBlank(Lines(u))
  {
    var s := u + w;
    var k := LineEnd(w);
    var i := |u| + k;
    LineEndAfterNoBreak(u, w);
    TrailingLineStrip(u, w, k);
    assert LineEnd(u) == |u|;
    OnlyLineChosen(u);
    if i < |s| {
      FirstLineChosen(s, i, NextLine(s, i));
    } else {
      assert s[..i] == s;
      OnlyLineChosen(s);
    }
  }

  /** Trailing whitespace after a text that ends with a non-space does not change the choice. */
  lemma {:induction false} TrailingSpaceKeepsGloss(u: string, w: string)
    requires AllSpace(w) && (u == [] || !IsSpace(u[|u| - 1]))
    ensures FirstNonBlank(Lines(u + w)) == FirstNonBlank(Lines(u))
    decreases |u|
  {
    var s := u + w;
    if u == [] {
      assert s == w;
      BlankHasNoGloss(w);
    } else {
      var i := LineEnd(s);
      if i < |u| {
        assert LineEnd(u) == i by {
          assert u[i] == s[i];
          forall j | 0 <= j < i ensures !IsLineBreak(u[j]) { assert u[j] == s[j]; }
        }
        assert u[i] == '\r' ==> i + 1 < |u|;
        NextLinePrefix(u, w, i);
        var n := NextLine(u, i);
        TakePrefix(u, w, i);
        DropPrefix(u, w, n);
        LinesCons(s);
        LinesCons(u);
        TrailingSpaceKeepsGloss(u[n..], w);
      } else {
        assert NoLineBreak(u) by {
          forall j | 0 <= j < |u| ensures !IsLineBreak(u[j]) { assert u[j] == s[j]; }
        }
        TrailingSpaceSameLine(u, w);
      }
    }
  }

  /** A text is its leading whitespace followed by what `LStrip` leaves. */
  lemma LeadingSplit(s: string) returns (w: string)
    ensures s == w + LStrip(s) && AllSpace(w)
  {
    var l := LStrip(s);
    var k := |s| - |l|;
    LStripSlice(s);
    w := s[..k];
    forall i | 0 <= i < |s| ensures s[i] == (w + l)[i] {
      if i >= k { assert l[i - k] == s[i]; }
    }
  }

  /** A text is what `RStrip` leaves followed by its trailing whitespace. */
  lemma TrailingSplit(s: string) returns (w: string)
    ensures s == RStrip(s) + w && AllSpace(w)
  {
    var r := RStrip(s);
    RStripSlice(s);
    w := s[|r|..];
    forall i | 0 <= i < |s| ensures s[i] == (r + w)[i] {
      if i < |r| { assert r[i] == s[i]; }
    }
  }

  /** `chinese_gloss_with_trans` strips the whole output before splitting it; the choice is the same. */
  lemma StripFirstKeepsGloss(s: string)
    ensures FirstNonBlank(Lines(Strip(s))) == FirstNonBlank(Lines(s))
  {
    var l := LStrip(s);
    var w := LeadingSplit(s);
    LeadingSpaceKeepsGloss(w, l);
    var t := TrailingSplit(l);
    TrailingSpaceKeepsGloss(RStrip(l), t);
  }
}
