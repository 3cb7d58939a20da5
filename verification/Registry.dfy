/** Inserting a missing value into a Wine registry file held as one string, in
    place, and the registrations built on it. */
module Registry {
  import opened Options
  import opened Texts
  import opened RegistryLines

  // ----- A string and its lines -----

  function Lines(s: string): (lines: seq<string>)
    ensures lines != []
    ensures forall i :: 0 <= i < |lines| ==> Free(lines[i], '\n')
  {
    if s == "" then [""]
    else if s[0] == '\n' then [""] + Lines(s[1..])
    else
      var t := Lines(s[1..]);
      [[s[0]] + t[0]] + t[1..]
  }

  lemma {:induction false} LinesJoin(a: string, b: string)
    ensures Lines(a + "\n" + b) == Lines(a) + Lines(b)
  {
    if a == "" {
      assert a + "\n" + b == "\n" + b;
    } else {
      assert (a + "\n" + b)[1..] == a[1..] + "\n" + b;
      LinesJoin(a[1..], b);
    }
  }

  lemma {:induction false} OneLine(a: string)
    requires Free(a, '\n')
    ensures Lines(a) == [a]
  {
    if a != "" {
      OneLine(a[1..]);
      assert a == [a[0]] + a[1..];
    }
  }

  lemma {:induction false} LastLine(a: string)
    ensures Lines(a)[|Lines(a)| - 1] == "" <==> a == "" || a[|a| - 1] == '\n'
  {
    if a != "" {
      LastLine(a[1..]);
    }
  }

  lemma {:induction false} LowerLines(s: string)
    ensures |Lines(Lower(s))| == |Lines(s)|
    ensures forall i :: 0 <= i < |Lines(s)| ==> Lines(Lower(s))[i] == Lower(Lines(s)[i])
  {
    if s != "" {
      LowerLines(s[1..]);
      assert Lower(s)[1..] == Lower(s[1..]);
    }
  }

  // ----- Places in a string -----

  predicate At(s: string, p: nat, pattern: string) {
    p + |pattern| <= |s| && s[p..p + |pattern|] == pattern
  }

  predicate LineStart(s: string, p: nat)
    requires p <= |s|
  {
    p == 0 || s[p - 1] == '\n'
  }

  /** The number of the line a place is in. */
  function LineNumber(s: string, p: nat): nat
    requires p <= |s|
  {
    if p == 0 then 0 else LineNumber(s, p - 1) + (if s[p - 1] == '\n' then 1 else 0)
  }

  lemma {:induction false} NumbersRise(s: string, p: nat, q: nat)
    requires p < q <= |s|
    ensures LineNumber(s, p) <= LineNumber(s, q)
    ensures LineStart(s, q) ==> LineNumber(s, p) < LineNumber(s, q)
  {
    if p < q - 1 { NumbersRise(s, p, q - 1); }
  }

  /** Cutting the text at a line's start cuts its lines there. */
  lemma {:induction false} LinesFrom(s: string, p: nat)
    requires p <= |s| && LineStart(s, p)
    ensures LineNumber(s, p) < |Lines(s)| && Lines(s)[LineNumber(s, p)..] == Lines(s[p..])
  {
    if p != 0 {
      var a := s[..p - 1];
      assert s == a + "\n" + s[p..];
      LinesJoin(a, s[p..]);
      NumberIs(s, p - 1);
    }
  }

  lemma {:induction false} NumberIs(s: string, p: nat)
    requires p <= |s|
    ensures |Lines(s[..p])| == LineNumber(s, p) + 1
  {
    if p == 0 {
      assert s[..0] == "";
    } else {
      NumberIs(s, p - 1);
      LinesEnd(s[..p - 1], s[p - 1]);
      assert s[..p] == s[..p - 1] + [s[p - 1]];
    }
  }

  lemma {:induction false} LinesEnd(s: string, c: char)
    ensures |Lines(s + [c])| == |Lines(s)| + (if c == '\n' then 1 else 0)
  {
    if s == "" {
      assert s + [c] == [c];
      assert [c][1..] == "";
    } else {
      assert (s + [c])[1..] == s[1..] + [c];
      LinesEnd(s[1..], c);
    }
  }

  /** A pattern without a line break is at a line's start exactly when the line
      begins with it. */
  lemma {:induction false} BeginsLine(s: string, p: nat, pattern: string)
    requires p <= |s| && LineStart(s, p) && Free(pattern, '\n')
    ensures LineNumber(s, p) < |Lines(s)|
    ensures At(s, p, pattern) <==> pattern <= Lines(s)[LineNumber(s, p)]
  {
    LinesFrom(s, p);
    assert Lines(s)[LineNumber(s, p)] == Lines(s[p..])[0];
    FirstLine(s[p..], pattern);
    assert At(s, p, pattern) <==> pattern <= s[p..];
  }

  lemma {:induction false} FirstLine(s: string, pattern: string)
    requires Free(pattern, '\n')
    ensures pattern <= s <==> pattern <= Lines(s)[0]
  {
    if pattern != "" && s != "" && s[0] != '\n' {
      FirstLine(s[1..], pattern[1..]);
      assert pattern <= s <==> pattern[0] == s[0] && pattern[1..] <= s[1..];
      var l := Lines(s)[0];
      assert pattern <= l <==> pattern[0] == l[0] && pattern[1..] <= l[1..];
    }
  }

  /** Every line has a start. */
  lemma {:induction false} StartOf(s: string, i: nat) returns (p: nat)
    requires i < |Lines(s)|
    ensures p <= |s| && LineStart(s, p) && LineNumber(s, p) == i
  {
    NumberIs(s, |s|);
    assert s[..|s|] == s;
    p := |s|;
    while !(LineStart(s, p) && LineNumber(s, p) == i)
      invariant p <= |s| && i <= LineNumber(s, p)
      decreases p
    {
      p := p - 1;
    }
  }

  // ----- Scanning -----

  method Find(s: string, pattern: string, from: nat) returns (p: int)
    ensures p < 0 ==> forall q :: from <= q ==> !At(s, q, pattern)
    ensures 0 <= p ==> from <= p && At(s, p, pattern) && forall q :: from <= q < p ==> !At(s, q, pattern)
  {
    p := from;
    while p + |pattern| <= |s|
      invariant from <= p && forall q :: from <= q < p ==> !At(s, q, pattern)
    {
      if s[p..p + |pattern|] == pattern {
        return;
      }
      p := p + 1;
    }
    p := -1;
  }

  predicate HeaderAt(lower: string, p: nat, header: string) {
    At(lower, p, header) && LineStart(lower, p)
  }

  method FindHeader(lower: string, header: string) returns (start: int)
    requires header != ""
    ensures start < 0 ==> forall p: nat :: !HeaderAt(lower, p, header)
    ensures 0 <= start ==> HeaderAt(lower, start, header) && forall p :: 0 <= p < start ==> !HeaderAt(lower, p, header)
  {
    start := Find(lower, header, 0);
    while start > 0 && lower[start - 1] != '\n'
      invariant start < 0 ==> forall p: nat :: !HeaderAt(lower, p, header)
      invariant 0 <= start ==> At(lower, start, header) && forall p :: 0 <= p < start ==> !HeaderAt(lower, p, header)
      decreases if start < 0 then 0 else |lower| - start
    {
      start := Find(lower, header, start + 1);
    }
  }

  /** A line strictly inside the range begins with the prefix. */
  ghost predicate ValueIn(lower: string, start: nat, end: nat, prefix: string) {
    exists p :: start < p < end && HeaderAt(lower, p, prefix)
  }

  method HasValue(lower: string, prefix: string, start: nat, end: nat) returns (found: bool)
    requires start < end <= |lower|
    ensures found <==> ValueIn(lower, start, end, prefix)
  {
    var line := Find(lower, "\n", start);
    if 0 <= line { BreakAt(lower, line); }
    NoStartBetween(lower, start, line, prefix);
    while line >= 0
      invariant line < 0 ==> !ValueIn(lower, start, end, prefix)
      invariant 0 <= line ==> start <= line < |lower| && lower[line] == '\n'
      invariant 0 <= line ==> forall p :: start < p < end && p <= line ==> !HeaderAt(lower, p, prefix)
      decreases if line < 0 then 0 else |lower| - line
    {
      line := line + 1;
      if line >= end {
        return false;
      }
      if At(lower, line, prefix) {
        assert HeaderAt(lower, line, prefix);
        return true;
      }
      ghost var from := line;
      line := Find(lower, "\n", line);
      if 0 <= line { BreakAt(lower, line); }
      NoStartBetween(lower, from, line, prefix);
    }
    return false;
  }

  lemma {:induction false} BreakAt(s: string, p: nat)
    ensures At(s, p, "\n") <==> p < |s| && s[p] == '\n'
  {
    if p < |s| { assert s[p..p + 1] == [s[p]]; }
  }

  /** No line starts after a place and up to the next line break. */
  lemma {:induction false} NoStartBetween(lower: string, from: nat, line: int, prefix: string)
    requires if line < 0 then forall q :: from <= q ==> !At(lower, q, "\n")
      else from <= line && forall q :: from <= q < line ==> !At(lower, q, "\n")
    ensures forall p :: from < p && (line < 0 || p <= line) ==> !HeaderAt(lower, p, prefix)
  {
    forall p | from < p && (line < 0 || p <= line) ensures !HeaderAt(lower, p, prefix) {
      if p <= |lower| { BreakAt(lower, p - 1); }
    }
  }

  // ----- From places to lines -----

  lemma {:induction false} MatchAt(s: string, p: nat, pattern: string)
    requires Free(pattern, '\n') && HeaderAt(Lower(s), p, pattern)
    ensures var k := LineNumber(Lower(s), p);
      k < |Lines(s)| && Matches(Lines(s)[k], pattern)
  {
    LowerLines(s);
    BeginsLine(Lower(s), p, pattern);
  }

  lemma {:induction false} PlaceOf(s: string, k: nat, pattern: string) returns (p: nat)
    requires Free(pattern, '\n') && k < |Lines(s)| && Matches(Lines(s)[k], pattern)
    ensures HeaderAt(Lower(s), p, pattern) && LineNumber(Lower(s), p) == k
  {
    LowerLines(s);
    p := StartOf(Lower(s), k);
    BeginsLine(Lower(s), p, pattern);
  }

  lemma {:induction false} HeaderFree(section: string)
    requires Plain(section)
    ensures Free(Header(section), '\n')
  {
    LowerFree(section, '\n');
  }

  /** The header the scan found heads the section's first line. */
  lemma {:induction false} HeaderRow(s: string, start: int, section: string)
    requires Plain(section)
    requires start < 0 ==> forall p: nat :: !HeaderAt(Lower(s), p, Header(section))
    requires 0 <= start ==> HeaderAt(Lower(s), start, Header(section))
    requires 0 <= start ==> forall p :: 0 <= p < start ==> !HeaderAt(Lower(s), p, Header(section))
    ensures Row(Lines(s), Header(section)) == if start < 0 then |Lines(s)| else LineNumber(Lower(s), start)
    ensures 0 <= start ==> LineNumber(Lower(s), start) < |Lines(s)|
  {
    var h := Header(section);
    HeaderFree(section);
    var r := Row(Lines(s), h);
    if 0 <= start { MatchAt(s, start, h); }
    if r < |Lines(s)| {
      var p := PlaceOf(s, r, h);
      if start < p && 0 <= start { NumbersRise(Lower(s), start, p); }
    }
  }

  /** The first place from `start` on before a line that opens a section, or the
      end of the text. */
  ghost predicate Ends(low: string, start: nat, end: nat) {
    && end <= |low| && (end == |low| || At(low, end, "\n["))
    && forall q :: start <= q < end ==> !At(low, q, "\n[")
  }

  lemma {:induction false} AtBreak(low: string, start: nat, end: nat)
    requires Ends(low, start, end) && end < |low|
    ensures low[end] == '\n' && end + 1 < |low| && HeaderAt(low, end + 1, "[")
  {
    assert low[end] == low[end..end + 2][0] && low[end + 1] == low[end..end + 2][1];
  }

  /** The place where the scan stops looking ends the section's last line. */
  lemma {:induction false} EndRow(s: string, start: nat, end: nat)
    requires start < end <= |s| && LineStart(Lower(s), start) && LineNumber(Lower(s), start) < |Lines(s)|
    requires Ends(Lower(s), start, end)
    ensures SectionEnd(Lines(s), LineNumber(Lower(s), start)) == LineNumber(Lower(s), end) + 1
  {
    var i, j := LineNumber(Lower(s), start), LineNumber(Lower(s), end) + 1;
    NumbersRise(Lower(s), start, end);
    EndLine(s, start, end);
    forall k | i < k < j ensures !Matches(Lines(s)[k], "[") {
      NoSectionInside(s, start, end, k);
    }
    SectionEndIs(Lines(s), i, j);
  }

  /** The line after the stop opens a section, if there is one. */
  lemma {:induction false} EndLine(s: string, start: nat, end: nat)
    requires end <= |s| && Ends(Lower(s), start, end)
    ensures var j := LineNumber(Lower(s), end) + 1;
      j <= |Lines(s)| && (j < |Lines(s)| ==> Matches(Lines(s)[j], "["))
  {
    if end < |s| {
      AtBreak(Lower(s), start, end);
      MatchAt(s, end + 1, "[");
    } else {
      NumberIs(Lower(s), end);
      assert Lower(s)[..end] == Lower(s);
      LowerLines(s);
    }
  }

  lemma {:induction false} NoSectionInside(s: string, start: nat, end: nat, k: nat)
    requires start <= end <= |s| && Ends(Lower(s), start, end) && k < |Lines(s)|
    requires LineNumber(Lower(s), start) < k <= LineNumber(Lower(s), end)
    ensures !Matches(Lines(s)[k], "[")
  {
    if Matches(Lines(s)[k], "[") {
      var p := PlaceOf(s, k, "[");
      Inside(Lower(s), start, end, p);
      assert At(Lower(s), p - 1, "\n[");
    }
  }

  lemma {:induction false} SectionEndIs(lines: seq<string>, i: nat, j: nat)
    requires i < j <= |lines| && (j < |lines| ==> Matches(lines[j], "["))
    requires forall k :: i < k < j ==> !Matches(lines[k], "[")
    ensures SectionEnd(lines, i) == j
  {
    RowIs(lines[i + 1..], "[", j - i - 1);
  }

  /** A line whose number lies between those of two places starts between them. */
  lemma {:induction false} Inside(s: string, start: nat, end: nat, p: nat)
    requires start <= end <= |s| && p <= |s| && LineStart(s, p)
    requires LineNumber(s, start) < LineNumber(s, p) <= LineNumber(s, end)
    ensures start < p <= end
  {
    if p < start { NumbersRise(s, p, start); }
    if end < p { NumbersRise(s, end, p); }
  }

  lemma {:induction false} RowOfPlace(s: string, start: nat, end: nat, pre: string)
    requires Free(pre, '\n') && start < end <= |s| && LineNumber(Lower(s), end) < |Lines(s)|
    requires ValueIn(Lower(s), start, end, pre)
    ensures LineNumber(Lower(s), start) <= LineNumber(Lower(s), end)
    ensures var body := Lines(s)[LineNumber(Lower(s), start) + 1..LineNumber(Lower(s), end) + 1];
      Row(body, pre) < |body|
  {
    var low := Lower(s);
    var i, j := LineNumber(low, start), LineNumber(low, end) + 1;
    NumbersRise(low, start, end);
    var body := Lines(s)[i + 1..j];
    var p :| start < p < end && HeaderAt(low, p, pre);
    MatchAt(s, p, pre);
    NumbersRise(low, start, p);
    NumbersRise(low, p, end);
    assert Matches(body[LineNumber(low, p) - i - 1], pre);
  }

  lemma {:induction false} PlaceOfRow(s: string, start: nat, end: nat, pre: string, k: nat)
    requires Free(pre, '\n') && pre != "" && start < end <= |s| && k < |Lines(s)|
    requires LineNumber(Lower(s), start) < k <= LineNumber(Lower(s), end)
    requires end == |s| || Lower(s)[end] == '\n'
    requires Matches(Lines(s)[k], pre)
    ensures ValueIn(Lower(s), start, end, pre)
  {
    var low := Lower(s);
    var p := PlaceOf(s, k, pre);
    Inside(low, start, end, p);
    assert low[p] == pre[0];
  }

  lemma {:induction false} BodyIs(s: string, start: nat, end: nat, section: string)
    requires Plain(section) && start < end <= |s|
    requires HeaderAt(Lower(s), start, Header(section))
    requires forall p :: 0 <= p < start ==> !HeaderAt(Lower(s), p, Header(section))
    requires Ends(Lower(s), start, end)
    ensures LineNumber(Lower(s), start) <= LineNumber(Lower(s), end) < |Lines(s)|
    ensures Body(Lines(s), section)
      == Some(Lines(s)[LineNumber(Lower(s), start) + 1..LineNumber(Lower(s), end) + 1])
  {
    HeaderRow(s, start, section);
    EndRow(s, start, end);
    NumbersRise(Lower(s), start, end);
    BodyBefore(Lines(s), section);
  }

  /** The scan finds the value exactly when the lookup does. */
  lemma {:induction false} ValueRow(s: string, start: nat, end: nat, section: string, name: string)
    requires Plain(section) && Plain(name) && start < end <= |s|
    requires HeaderAt(Lower(s), start, Header(section))
    requires forall p :: 0 <= p < start ==> !HeaderAt(Lower(s), p, Header(section))
    requires Ends(Lower(s), start, end)
    ensures ValueIn(Lower(s), start, end, Prefix(name)) <==> Lookup(Lines(s), section, name).Some?
  {
    LowerFree(name, '\n');
    BodyIs(s, start, end, section);
    var body := Lines(s)[LineNumber(Lower(s), start) + 1..LineNumber(Lower(s), end) + 1];
    LookupIs(Lines(s), section, name, body);
    RowInBody(s, start, end, Prefix(name));
  }

  lemma {:induction false} RowInBody(s: string, start: nat, end: nat, pre: string)
    requires Free(pre, '\n') && pre != "" && start < end <= |s| && Ends(Lower(s), start, end)
    requires LineNumber(Lower(s), start) <= LineNumber(Lower(s), end) < |Lines(s)|
    ensures var body := Lines(s)[LineNumber(Lower(s), start) + 1..LineNumber(Lower(s), end) + 1];
      ValueIn(Lower(s), start, end, pre) <==> Row(body, pre) < |body|
  {
    var body := Lines(s)[LineNumber(Lower(s), start) + 1..LineNumber(Lower(s), end) + 1];
    if ValueIn(Lower(s), start, end, pre) { RowOfPlace(s, start, end, pre); }
    if Row(body, pre) < |body| { PlaceOfBodyRow(s, start, end, pre); }
  }

  lemma {:induction false} PlaceOfBodyRow(s: string, start: nat, end: nat, pre: string)
    requires Free(pre, '\n') && pre != "" && start < end <= |s| && Ends(Lower(s), start, end)
    requires LineNumber(Lower(s), start) <= LineNumber(Lower(s), end) < |Lines(s)|
    requires var body := Lines(s)[LineNumber(Lower(s), start) + 1..LineNumber(Lower(s), end) + 1];
      Row(body, pre) < |body|
    ensures ValueIn(Lower(s), start, end, pre)
  {
    var i := LineNumber(Lower(s), start);
    var body := Lines(s)[i + 1..LineNumber(Lower(s), end) + 1];
    if end < |s| { AtBreak(Lower(s), start, end); }
    PlaceOfRow(s, start, end, pre, i + 1 + Row(body, pre));
  }

  // ----- The inserted text as lines -----

  lemma {:induction false} TailLines(assign: string, tail: string)
    requires Free(assign, '\n') && (tail == "" || tail[0] == '\n')
    ensures Lines(assign + "\n" + tail) == [assign, ""] + (if tail == "" then [] else Lines(tail[1..]))
  {
    LinesJoin(assign, tail);
    OneLine(assign);
  }

  /** The text with an assignment put in at `at`, on a line of its own. */
  function WithAssignment(s: string, at: nat, assign: string): string
    requires 0 < at <= |s|
  {
    s[..at] + (if s[at - 1] != '\n' then "\n" else "") + assign + "\n" + s[at..]
  }

  /** An assignment put in before a line break or at the end of the text. */
  lemma {:induction false} InsertedLines(s: string, end: nat, assign: string)
    requires 0 < end <= |s| && (end == |s| || s[end] == '\n') && Free(assign, '\n')
    ensures LineNumber(s, end) < |Lines(s)|
    ensures Lines(WithAssignment(s, end, assign)) == WithLine(Lines(s), LineNumber(s, end) + 1, assign)
  {
    var head, tail := s[..end], s[end..];
    assert head + tail == s;
    NumberIs(s, end);
    HeadLines(head, tail);
    TailLines(assign, tail);
    LastLine(head);
    Slices(Lines(head), if tail == "" then [] else Lines(tail[1..]));
    if s[end - 1] != '\n' { AfterLine(head, assign, tail); } else { AfterBreak(head, assign, tail); }
  }

  lemma {:induction false} Slices(a: seq<string>, b: seq<string>)
    requires a != []
    ensures (a + b)[..|a|] == a && (a + b)[|a|..] == b && (a + b)[..|a| - 1] == a[..|a| - 1]
    ensures (a + b)[|a| - 1] == a[|a| - 1]
  {
  }

  lemma {:induction false} AfterLine(head: string, assign: string, tail: string)
    ensures Lines(head + "\n" + assign + "\n" + tail) == Lines(head) + Lines(assign + "\n" + tail)
  {
    LinesJoin(head, assign + "\n" + tail);
    assert head + "\n" + assign + "\n" + tail == head + "\n" + (assign + "\n" + tail);
  }

  lemma {:induction false} AfterBreak(head: string, assign: string, tail: string)
    requires head != "" && head[|head| - 1] == '\n'
    ensures Lines(head + "" + assign + "\n" + tail) == Lines(head)[..|Lines(head)| - 1] + Lines(assign + "\n" + tail)
  {
    var h := head[..|head| - 1];
    LinesJoin(h, "");
    assert head == h + "\n" + "";
    AfterLine(h, assign, tail);
    assert head + "" + assign + "\n" + tail == h + "\n" + assign + "\n" + tail;
  }

  lemma {:induction false} HeadLines(head: string, tail: string)
    requires tail == "" || tail[0] == '\n'
    ensures Lines(head + tail) == Lines(head) + (if tail == "" then [] else Lines(tail[1..]))
  {
    if tail == "" {
      assert head + tail == head;
    } else {
      LinesJoin(head, tail[1..]);
      assert head + tail == head + "\n" + tail[1..];
    }
  }

  /** The line break that closes an unfinished last line. */
  function Gap(s: string): string {
    if s != "" && s[|s| - 1] != '\n' then "\n" else ""
  }

  lemma {:induction false} GapLines(s: string)
    ensures Lines(s + Gap(s)) == Lines(s) + (if Lines(s)[|Lines(s)| - 1] == "" then [] else [""])
  {
    LastLine(s);
    if Gap(s) == "" {
      assert s + Gap(s) == s;
    } else {
      LinesJoin(s, "");
      assert s + Gap(s) == s + "\n" + "";
    }
  }

  lemma {:induction false} NewSectionLines(s: string, head: string, assign: string)
    requires Free(head, '\n') && Free(assign, '\n')
    ensures Lines(s + Gap(s) + "\n" + head + "\n" + assign + "\n")
      == Lines(s) + ((if Lines(s)[|Lines(s)| - 1] == "" then [] else [""]) + [head, assign, ""])
  {
    var t := s + Gap(s);
    GapLines(s);
    OneLine(head);
    TailLines(assign, "");
    LinesJoin(head, assign + "\n" + "");
    LinesJoin(t, head + "\n" + (assign + "\n" + ""));
    Regroup(t, head, assign);
  }

  lemma {:induction false} Regroup(t: string, head: string, assign: string)
    ensures t + "\n" + head + "\n" + assign + "\n" == t + "\n" + (head + "\n" + (assign + "\n" + ""))
  {
  }

  // ----- The file -----

  /** The new text is the old one with something put in at one place. */
  ghost predicate Extends(after: string, before: string) {
    exists e: nat, ins: string :: PutIn(after, before, e, ins)
  }

  ghost predicate PutIn(after: string, before: string, e: nat, ins: string) {
    e <= |before| && after == before[..e] + ins + before[e..]
  }

  class RegistryFile {
    var contents: string

    constructor (contents: string)
      ensures this.contents == contents
    {
      this.contents := contents;
    }

    method AppendSection(section: string, name: string, text: string)
      modifies this
      ensures Extends(contents, old(contents))
      ensures Free(section, '\n') && Free(name, '\n') && Free(text, '\n') ==>
        var lines := Lines(old(contents));
        Lines(contents) == lines + ((if lines[|lines| - 1] == "" then [] else [""])
          + ["[" + section + "] 0", Assignment(name, text), ""])
    {
      ghost var was := contents;
      ghost var gap := Gap(was);
      if contents != "" && contents[|contents| - 1] != '\n' {
        contents := contents + "\n";
      }
      assert contents == was + gap;
      contents := contents + ("\n[" + section + "] 0\n" + (Assignment(name, text) + "\n"));
      Appended(was + gap, section, Assignment(name, text));
      if Free(section, '\n') && Free(name, '\n') && Free(text, '\n') {
        NewSectionLines(was, "[" + section + "] 0", Assignment(name, text));
      }
      assert PutIn(contents, was, |was|, contents[|was|..]);
    }

    /** Appends the assignment before the line break at `end`. */
    method InsertAt(at: nat, name: string, text: string)
      requires 0 < at <= |contents|
      modifies this
      ensures Extends(contents, old(contents))
      ensures contents == WithAssignment(old(contents), at, Assignment(name, text))
    {
      ghost var was := contents;
      var end := at;
      if contents[end - 1] != '\n' {
        contents := contents[..end] + "\n" + contents[end..];
        end := end + 1;
      }
      ghost var mid := contents;
      contents := contents[..end] + (Assignment(name, text) + "\n") + contents[end..];
      ghost var gap := if was[at - 1] != '\n' then "\n" else "";
      assert mid[..end] == was[..at] + gap && mid[end..] == was[at..];
      assert PutIn(contents, was, at, gap + Assignment(name, text) + "\n");
    }

    /** Puts the value in when its section lacks it. */
    method InsertMissing(section: string, name: string, text: string) returns (changed: bool)
      modifies this
      ensures if changed then Extends(contents, old(contents)) else contents == old(contents)
      ensures Clean(section, name, text) ==>
        && changed == (Lookup(Lines(old(contents)), section, name) == None)
        && Lines(contents) == Added(Lines(old(contents)), section, name, text)
    {
      var lower := Lower(contents);
      var start := FindHeader(lower, Header(section));
      if Clean(section, name, text) { HeaderRow(contents, start, section); }
      if start < 0 {
        AppendSection(section, name, text);
        return true;
      }
      var end := Find(lower, "\n[", start);
      if end < 0 {
        end := |lower|;
      }
      EndsLater(lower, start, end, Header(section));
      var found := HasValue(lower, Prefix(name), start, end);
      if Clean(section, name, text) { ValueRow(contents, start, end, section, name); }
      if found {
        return false;
      }
      if Clean(section, name, text) { AddedAt(contents, start, end, section, name, text); }
      InsertAt(end, name, text);
      changed := true;
    }
  }

  ghost predicate Clean(section: string, name: string, text: string) {
    Plain(section) && Plain(name) && Free(text, '\n')
  }

  lemma {:induction false} EndsLater(lower: string, start: nat, end: nat, header: string)
    requires header != "" && header[0] != '\n' && At(lower, start, header) && Ends(lower, start, end)
    requires start <= end
    ensures start < end
  {
    if start == end { assert lower[start] == header[0]; }
  }

  lemma {:induction false} Appended(t: string, section: string, assign: string)
    ensures t + ("\n[" + section + "] 0\n" + (assign + "\n"))
      == t + "\n" + ("[" + section + "] 0") + "\n" + assign + "\n"
  {
  }

  /** The text with the assignment put in at the section's end has the lines the
      insertion gives. */
  lemma {:induction false} AddedAt(s: string, start: nat, end: nat, section: string, name: string, text: string)
    requires Clean(section, name, text) && start < end <= |s|
    requires HeaderAt(Lower(s), start, Header(section))
    requires forall p :: 0 <= p < start ==> !HeaderAt(Lower(s), p, Header(section))
    requires Ends(Lower(s), start, end)
    requires Lookup(Lines(s), section, name) == None
    ensures Lines(WithAssignment(s, end, Assignment(name, text))) == Added(Lines(s), section, name, text)
  {
    HeaderRow(s, start, section);
    EndRow(s, start, end);
    InsertedAt(s, start, end, Assignment(name, text));
  }

  lemma {:induction false} InsertedAt(s: string, start: nat, end: nat, assign: string)
    requires 0 < end <= |s| && Ends(Lower(s), start, end) && Free(assign, '\n')
    ensures LineNumber(Lower(s), end) < |Lines(s)|
    ensures Lines(WithAssignment(s, end, assign)) == WithLine(Lines(s), LineNumber(Lower(s), end) + 1, assign)
  {
    if end < |s| { AtBreak(Lower(s), start, end); }
    SameNumber(s, end);
    InsertedLines(s, end, assign);
  }

  lemma {:induction false} SameNumber(s: string, p: nat)
    requires p <= |s|
    ensures LineNumber(Lower(s), p) == LineNumber(s, p)
  {
    if p != 0 { SameNumber(s, p - 1); }
  }
}
