/**
 * The Anki TSV file: one `word<TAB>EN<TAB>ZH` line per lookup, appended at
 * the end (`append_tsv` in lookup_to_anki_multi_lang.py and lookup_to_anki.py).
 * The reading side (`ReadRecords`) is what an importer splitting on tabs and
 * newlines sees; it is the partner that the append is checked against.
 */
module Tsv {
  import opened Wrappers
  import opened Text

  datatype Record = Record(word: string, en: string, zh: string)

  /** The line `append_tsv` writes: the three fields, tab-separated, newline-terminated. */
  function FormatLine(word: string, en: string, zh: string): (line: string)
    ensures |line| == |word| + |en| + |zh| + 3
    ensures line[|line| - 1] == '\n' && line[|word|] == '\t' && line[|word| + 1 + |en|] == '\t'
    ensures word <= line
    ensures line[|word| + 1..|word| + 1 + |en|] == en
    ensures line[|word| + 2 + |en|..|line| - 1] == zh
  {
    var line := word + "\t" + en + "\t" + zh + "\n";
    assert line == word + ("\t" + en + "\t" + zh + "\n");
    assert line == (word + "\t") + en + ("\t" + zh + "\n");
    assert line == (word + "\t" + en + "\t") + zh + "\n";
    line
  }

  function RecordLine(r: Record): string
  {
    FormatLine(r.word, r.en, r.zh)
  }

  /** A field that the format can carry: no tab and no newline in it. */
  predicate CleanField(s: string)
  {
    '\t' !in s && '\n' !in s
  }

  predicate Clean(r: Record)
  {
    CleanField(r.word) && CleanField(r.en) && CleanField(r.zh)
  }

  /** A file holding these records, one line each, in order. */
  function Render(rs: seq<Record>): string
  {
    if rs == [] then "" else RecordLine(rs[0]) + Render(rs[1..])
  }

  /** `s.split(c)`: the pieces between the occurrences of `c`. */
  function Split(s: string, c: char): (parts: seq<string>)
    ensures |parts| >= 1
    decreases |s|
  {
    var h := BeforeFirst(s, c);
    if |h| == |s| then [s] else [h] + Split(s[|h| + 1..], c)
  }

  /** No piece holds `c`, and joining the pieces with `c` gives the text back. */
  lemma {:induction false} SplitJoin(s: string, c: char)
    ensures forall i :: 0 <= i < |Split(s, c)| ==> c !in Split(s, c)[i]
    ensures Join([c], Split(s, c)) == s
    decreases |s|
  {
    var h := BeforeFirst(s, c);
    BeforeFirstSlice(s, c);
    if |h| < |s| {
      var tail := s[|h| + 1..];
      var rest := Split(tail, c);
      SplitJoin(tail, c);
      var parts := [h] + rest;
      assert Split(s, c) == parts;
      assert parts[1..] == rest;
      assert Join([c], parts) == h + [c] + Join([c], rest);
      assert s == h + [c] + tail;
      forall i | 0 <= i < |parts| ensures c !in parts[i] {
        if i > 0 { assert parts[i] == rest[i - 1]; }
      }
    }
  }

  /** A line read back as a record, when it has exactly three fields; writing them out again gives the line. */
  function ParseLine(line: string): (r: Option<Record>)
    ensures r.Some? ==> '\t' !in r.value.word && '\t' !in r.value.en && '\t' !in r.value.zh
    ensures r.Some? ==> r.value.word + "\t" + r.value.en + "\t" + r.value.zh == line
  {
    var fields := Split(line, '\t');
    SplitJoin(line, '\t');
    if |fields| == 3 then
      assert fields[1..][1..] == [fields[2]];
      assert Join("\t", fields) == fields[0] + "\t" + Join("\t", fields[1..]);
      assert Join("\t", fields[1..]) == fields[1] + "\t" + fields[2];
      Some(Record(fields[0], fields[1], fields[2]))
    else None
  }

  /** The records of a file, or `None` when a line is malformed or the last line is unterminated. */
  function ReadRecords(content: string): Option<seq<Record>>
    decreases |content|
  {
    if content == "" then Some([])
    else
      var l := BeforeFirst(content, '\n');
      if |l| == |content| then None
      else
        match ParseLine(l)
        case None => None
        case Some(r) =>
          match ReadRecords(content[|l| + 1..])
          case None => None
          case Some(rest) => Some([r] + rest)
  }

  /** Splitting after a piece free of `c` and one `c`. */
  lemma SplitCons(h: string, c: char, rest: string)
    requires c !in h
    ensures Split(h + [c] + rest, c) == [h] + Split(rest, c)
  {
    var s := h + [c] + rest;
    var b := BeforeFirst(s, c);
    BeforeFirstSlice(s, c);
    assert s[|h|] == c;
    assert b == s[..|h|] == h;
    assert s[|h| + 1..] == rest;
  }

  /** Splitting a piece free of `c` leaves it whole. */
  lemma SplitNone(h: string, c: char)
    requires c !in h
    ensures Split(h, c) == [h]
  {
    BeforeFirstSlice(h, c);
  }

  /** Splitting at a `c` splits the two sides apart. */
  lemma {:induction false} SplitAppend(a: string, c: char, b: string)
    ensures Split(a + [c] + b, c) == Split(a, c) + Split(b, c)
    decreases |a|
  {
    var h := BeforeFirst(a, c);
    BeforeFirstSlice(a, c);
    if |h| == |a| {
      SplitCons(a, c, b);
    } else {
      var a' := a[|h| + 1..];
      var rest := a' + [c] + b;
      assert a == h + [c] + a';
      assert a + [c] + b == h + [c] + rest;
      SplitCons(h, c, rest);
      SplitCons(h, c, a');
      SplitAppend(a', c, b);
      assert [h] + (Split(a', c) + Split(b, c)) == ([h] + Split(a', c)) + Split(b, c);
    }
  }

  /** A text that holds `c` splits into at least two pieces. */
  lemma SplitAtLeastTwo(a: string, c: char)
    requires c in a
    ensures |Split(a, c)| >= 2
  {
    var h := BeforeFirst(a, c);
    BeforeFirstSlice(a, c);
    assert |h| < |a|;
  }

  /** A text with no newline, then a newline: the first line is that text, and what follows is left. */
  lemma FirstLine(body: string, tail: string)
    requires '\n' !in body
    ensures BeforeFirst(body + "\n" + tail, '\n') == body
    ensures (body + "\n" + tail)[|body| + 1..] == tail
  {
    var s := body + "\n" + tail;
    BeforeFirstSlice(s, '\n');
    assert s[|body|] == '\n';
    assert s[..|body|] == body;
  }

  /** The line body of a record: the fields, tab-separated. */
  lemma BodyHasNoNewline(word: string, en: string, zh: string)
    requires '\n' !in word && '\n' !in en && '\n' !in zh
    ensures '\n' !in word + "\t" + en + "\t" + zh
  {
    var body := word + "\t" + en + "\t" + zh;
    forall i | 0 <= i < |body| ensures body[i] != '\n' {
      if i < |word| { assert body[i] == word[i]; }
      else if i == |word| { }
      else if i < |word| + 1 + |en| { assert body[i] == en[i - |word| - 1]; }
      else if i == |word| + 1 + |en| { }
      else { assert body[i] == zh[i - |word| - 2 - |en|]; }
    }
  }

  /** A clean record's line, without its newline, parses back to the record. */
  lemma ParseFormat(r: Record)
    requires Clean(r)
    ensures ParseLine(r.word + "\t" + r.en + "\t" + r.zh) == Some(r)
  {
    var line := r.word + "\t" + r.en + "\t" + r.zh;
    var rest := r.en + "\t" + r.zh;
    assert line == r.word + ['\t'] + rest;
    assert rest == r.en + ['\t'] + r.zh;
    SplitCons(r.word, '\t', rest);
    SplitCons(r.en, '\t', r.zh);
    SplitNone(r.zh, '\t');
    assert Split(line, '\t') == [r.word, r.en, r.zh];
  }

  /** A clean record's line is read off the front of a file, leaving what follows. */
  lemma ReadLine(r: Record, tail: string)
    requires Clean(r)
    ensures ReadRecords(RecordLine(r) + tail) ==
      match ReadRecords(tail)
      case None => None
      case Some(rest) => Some([r] + rest)
  {
    var body := r.word + "\t" + r.en + "\t" + r.zh;
    assert RecordLine(r) + tail == body + "\n" + tail;
    BodyHasNoNewline(r.word, r.en, r.zh);
    FirstLine(body, tail);
    ParseFormat(r);
  }

  /** Reading the file back gives the records that were written, when their fields are clean. */
  lemma {:induction false} ReadRender(rs: seq<Record>)
    requires forall i :: 0 <= i < |rs| ==> Clean(rs[i])
    ensures ReadRecords(Render(rs)) == Some(rs)
  {
    if rs != [] {
      ReadRender(rs[1..]);
      ReadLine(rs[0], Render(rs[1..]));
      assert [rs[0]] + rs[1..] == rs;
    }
  }

  /** Appending one line to a rendered file renders one more record. */
  lemma {:induction false} RenderSnoc(rs: seq<Record>, r: Record)
    ensures Render(rs + [r]) == Render(rs) + RecordLine(r)
  {
    if rs == [] {
      assert [] + [r] == [r];
    } else {
      assert (rs + [r])[1..] == rs[1..] + [r];
      RenderSnoc(rs[1..], r);
    }
  }

  /** An append adds exactly the new record to what is read back, and keeps every earlier one. */
  lemma AppendAddsRecord(rs: seq<Record>, r: Record)
    requires forall i :: 0 <= i < |rs| ==> Clean(rs[i])
    requires Clean(r)
    ensures ReadRecords(Render(rs) + RecordLine(r)) == Some(rs + [r])
  {
    RenderSnoc(rs, r);
    ReadRender(rs + [r]);
  }

  /** There is no duplicate check: the same record appended twice is read back twice. */
  lemma SameRecordTwice(rs: seq<Record>, r: Record)
    requires forall i :: 0 <= i < |rs| ==> Clean(rs[i])
    requires Clean(r)
    ensures ReadRecords(Render(rs) + RecordLine(r) + RecordLine(r)) == Some(rs + [r, r])
  {
    var twice := rs + [r, r];
    CleanTwice(rs, r);
    RenderTwice(rs, r);
    ReadRender(twice);
  }

  lemma CleanTwice(rs: seq<Record>, r: Record)
    requires forall i :: 0 <= i < |rs| ==> Clean(rs[i])
    requires Clean(r)
    ensures forall i :: 0 <= i < |rs + [r, r]| ==> Clean((rs + [r, r])[i])
  {
  }

  /** Two appends of one record render that record twice. */
  lemma RenderTwice(rs: seq<Record>, r: Record)
    ensures Render(rs) + RecordLine(r) + RecordLine(r) == Render(rs + [r, r])
  {
    RenderSnoc(rs, r);
    RenderSnoc(rs + [r], r);
    assert rs + [r] + [r] == rs + [r, r];
  }

  /**
   * A tab inside a field is written as is: the line then has more than three
   * fields and no longer reads as a record.
   */
  lemma TabInWordBreaksLine(word: string, en: string, zh: string)
    requires '\t' in word
    requires '\n' !in word && '\n' !in en && '\n' !in zh
    ensures ReadRecords(FormatLine(word, en, zh)) == None
  {
    var body := word + "\t" + en + "\t" + zh;
    assert FormatLine(word, en, zh) == body + "\n" + "";
    BodyHasNoNewline(word, en, zh);
    TabInWordRejected(word, en, zh);
    BadLineRejected(body, "");
  }

  /** A line with a tab inside its first field splits into more than three fields. */
  lemma TabInWordRejected(word: string, en: string, zh: string)
    requires '\t' in word
    ensures ParseLine(word + "\t" + en + "\t" + zh) == None
  {
    var rest := en + "\t" + zh;
    assert word + "\t" + en + "\t" + zh == word + ['\t'] + rest;
    SplitAppend(word, '\t', rest);
    SplitAtLeastTwo(word, '\t');
    assert rest == en + ['\t'] + zh;
    SplitAppend(en, '\t', zh);
  }

  /** A file whose first line does not parse reads as `None`. */
  lemma BadLineRejected(body: string, tail: string)
    requires '\n' !in body && ParseLine(body) == None
    ensures ReadRecords(body + "\n" + tail) == None
  {
    FirstLine(body, tail);
  }

  /**
   * `" ; ".join(defs) if defs else ""`: every definition in order, each at
   * its offset, with `" ; "` between neighbours and nothing else.
   */
  function JoinDefs(defs: seq<string>): (en: string)
    ensures defs != [] ==> defs[0] <= en
    ensures en == "" <==> defs == [] || (|defs| == 1 && defs[0] == "")
    ensures defs != [] ==> |en| == Offset(" ; ", defs, |defs|) - 3
    ensures forall i {:trigger Offset(" ; ", defs, i)} :: 0 <= i < |defs| ==>
      Offset(" ; ", defs, i) + |defs[i]| <= |en| &&
      en[Offset(" ; ", defs, i)..Offset(" ; ", defs, i) + |defs[i]|] == defs[i]
    ensures forall i {:trigger Offset(" ; ", defs, i)} :: 1 <= i < |defs| ==>
      3 <= Offset(" ; ", defs, i) <= |en| &&
      en[Offset(" ; ", defs, i) - 3..Offset(" ; ", defs, i)] == " ; "
  {
    JoinFacts(defs);
    JoinLayout(" ; ", defs);
    if defs != [] then Join(" ; ", defs) else ""
  }

  /** The joined text begins with the first definition and is empty only for `[]` or `[""]`. */
  lemma {:induction false} JoinFacts(xs: seq<string>)
    ensures xs != [] ==> xs[0] <= Join(" ; ", xs)
    ensures Join(" ; ", xs) == "" <==> xs == [] || (|xs| == 1 && xs[0] == "")
  {
    if |xs| > 1 {
      var j := Join(" ; ", xs);
      assert j == xs[0] + " ; " + Join(" ; ", xs[1..]);
      assert j[..|xs[0]|] == xs[0];
      assert j[|xs[0]|] == ' ';
    }
  }

  /** The files of the vocabulary repository, by name; a file not yet created reads as empty. */
  class Repo {
    var files: map<string, string>

    constructor (initial: map<string, string>)
      ensures files == initial
    {
      files := initial;
    }

    function Content(name: string): string
      reads this
    {
      if name in files then files[name] else ""
    }

    /**
     * `append_tsv(tsv_path, word, en_text, zh_text)`: create the file if it is
     * missing, add the line at its end, and return the line.
     */
    method AppendTsv(name: string, word: string, en: string, zh: string) returns (line: string)
      modifies this
      ensures line == FormatLine(word, en, zh)
      ensures files == old(files)[name := old(Content(name)) + line]
      ensures old(Content(name)) <= Content(name)
      ensures forall other :: other != name ==> Content(other) == old(Content(other))
    {
      line := word + "\t" + en + "\t" + zh + "\n";
      var before := Content(name);
      files := files[name := before + line];
    }
  }
}
