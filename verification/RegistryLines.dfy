/** A Wine registry file as lines: sections, values, and what inserting a missing
    value does to every lookup. */
module RegistryLines {
  import opened Options
  import opened Texts

  /** A name that can stand in a section header or before an equals sign. */
  predicate Plain(s: string) {
    Free(s, '\n') && Free(s, '[') && Free(s, ']')
  }

  function Header(section: string): string { "[" + Lower(section) + "]" }
  function Prefix(name: string): string { Lower(name) + "=" }
  function Assignment(name: string, text: string): string { name + "=" + text }

  predicate Matches(line: string, pattern: string) {
    pattern <= Lower(line)
  }

  // ----- Lookup -----

  /** The first line the pattern begins, or one past the last. */
  function Row(lines: seq<string>, pattern: string): (i: nat)
    ensures i <= |lines|
    ensures forall k :: 0 <= k < i ==> !Matches(lines[k], pattern)
    ensures i < |lines| ==> Matches(lines[i], pattern)
  {
    if lines == [] || Matches(lines[0], pattern) then 0 else 1 + Row(lines[1..], pattern)
  }

  /** The lines before the next section. */
  function Until(lines: seq<string>): seq<string> {
    lines[..Row(lines, "[")]
  }

  /** The section's own lines: those after its header and before the next one. */
  function Body(lines: seq<string>, section: string): Option<seq<string>> {
    var i := Row(lines, Header(section));
    if i == |lines| then None else Some(Until(lines[i + 1..]))
  }

  function Value(body: seq<string>, name: string): Option<string> {
    var k := Row(body, Prefix(name));
    if k == |body| then None else Some(body[k][|Prefix(name)|..])
  }

  /** The text of a value in the first section of its name. */
  function Lookup(lines: seq<string>, section: string, name: string): Option<string> {
    var body := Body(lines, section);
    if body == None then None else Value(body.value, name)
  }

  lemma {:induction false} LookupIs(lines: seq<string>, section: string, name: string, body: seq<string>)
    requires Body(lines, section) == Some(body)
    ensures Lookup(lines, section, name) == Value(body, name)
    ensures Lookup(lines, section, name).Some? <==> Row(body, Prefix(name)) < |body|
  {
  }

  lemma {:induction false} RowIs(lines: seq<string>, pattern: string, i: nat)
    requires i <= |lines| && forall k :: 0 <= k < i ==> !Matches(lines[k], pattern)
    requires i < |lines| ==> Matches(lines[i], pattern)
    ensures Row(lines, pattern) == i
  {
    var r := Row(lines, pattern);
  }

  lemma {:induction false} RowOfSum(x: seq<string>, y: seq<string>, pattern: string)
    ensures Row(x + y, pattern) ==
      if Row(x, pattern) < |x| then Row(x, pattern) else |x| + Row(y, pattern)
  {
    var i := if Row(x, pattern) < |x| then Row(x, pattern) else |x| + Row(y, pattern);
    forall k | 0 <= k < i ensures !Matches((x + y)[k], pattern) {
      if |x| <= k { assert (x + y)[k] == y[k - |x|]; }
    }
    RowIs(x + y, pattern, i);
  }

  lemma {:induction false} HeaderStops(a: string, line: string)
    requires Plain(a) && Matches(line, Header(a))
    ensures |a| + 1 < |line| && Lower(line)[|a| + 1] == ']'
    ensures forall i :: 1 <= i <= |a| ==> Lower(line)[i] == Lower(a)[i - 1] != ']'
  {
    LowerFree(a, ']');
    assert Lower(line)[|a| + 1] == Header(a)[|a| + 1];
    forall i | 1 <= i <= |a| ensures Lower(line)[i] == Lower(a)[i - 1] {
      assert Lower(line)[i] == Header(a)[i];
    }
  }

  /** Two names cannot head the same line. */
  lemma {:induction false} OneHeader(a: string, b: string, line: string)
    requires Plain(a) && Plain(b) && Matches(line, Header(a)) && Matches(line, Header(b))
    ensures Lower(a) == Lower(b)
  {
    HeaderStops(a, line);
    HeaderStops(b, line);
    forall i | 0 <= i < |a| ensures Lower(a)[i] == Lower(b)[i] {
      assert Lower(line)[i + 1] == Lower(a)[i + 1 - 1];
    }
  }

  lemma {:induction false} LowerFree(s: string, c: char)
    requires Free(s, c) && !('a' <= c <= 'z')
    ensures Free(Lower(s), c)
  {
  }

  lemma {:induction false} HeaderOpens(section: string, line: string)
    requires Matches(line, Header(section))
    ensures Matches(line, "[")
  {
    assert Lower(line)[0] == Header(section)[0];
  }

  // ----- Insertion -----

  /** Where a section's lines end. */
  function SectionEnd(lines: seq<string>, i: nat): (j: nat)
    requires i < |lines|
    ensures i < j <= |lines|
  {
    i + 1 + Row(lines[i + 1..], "[")
  }

  /** A line and a blank before line `j`, in place of a blank before it. */
  function WithLine(lines: seq<string>, j: nat, line: string): seq<string>
    requires 0 < j <= |lines|
  {
    var a := if lines[j - 1] == "" then j - 1 else j;
    lines[..a] + ([line, ""] + lines[j..])
  }

  /** The file with the value added at the end of its section, before a blank line
      that ends it, or in a new section at the end. */
  function Inserted(lines: seq<string>, section: string, name: string, text: string): seq<string>
    requires lines != []
  {
    var i := Row(lines, Header(section));
    if i == |lines| then
      var gap := if lines[|lines| - 1] == "" then [] else [""];
      lines + (gap + ["[" + section + "] 0", Assignment(name, text), ""])
    else
      WithLine(lines, SectionEnd(lines, i), Assignment(name, text))
  }

  function Added(lines: seq<string>, section: string, name: string, text: string): (r: seq<string>)
    requires lines != []
    ensures r != []
  {
    if Lookup(lines, section, name).Some? then lines else Inserted(lines, section, name, text)
  }

  /** The lookup of another value only moves when it was missing from the very
      section and the new line can be read as it. */
  predicate Disturbed(lines: seq<string>, section: string, name: string, text: string, section2: string, name2: string) {
    && Lower(section2) == Lower(section) && Lookup(lines, section2, name2) == None
    && Matches(Assignment(name, text), Prefix(name2))
  }

  lemma {:induction false} RowOfTwo(a: string, b: string, pattern: string)
    ensures Row([a, b], pattern) == if Matches(a, pattern) then 0 else if Matches(b, pattern) then 1 else 2
  {
    RowIs([a, b], pattern, if Matches(a, pattern) then 0 else if Matches(b, pattern) then 1 else 2);
  }

  lemma {:induction false} NewLine(name: string, text: string)
    requires Plain(name)
    ensures !Matches(Assignment(name, text), "[")
  {
    var l := Lower(Assignment(name, text));
    assert l[0] == LowerChar(Assignment(name, text)[0]);
  }

  /** A section's lines without a blank at the end. */
  function Trimmed(body: seq<string>): seq<string> {
    if body != [] && body[|body| - 1] == "" then body[..|body| - 1] else body
  }

  /** The section that gained the value: its lines, and a blank, around the new one. */
  lemma {:induction false} BodyGains(body: seq<string>, name: string, text: string, name2: string)
    ensures Value(Trimmed(body) + [Assignment(name, text), ""], name2) == if Value(body, name2).Some? then Value(body, name2)
        else if Matches(Assignment(name, text), Prefix(name2))
        then Some(Assignment(name, text)[|Prefix(name2)|..]) else None
  {
    var a := Trimmed(body);
    var p := Prefix(name2);
    assert !Matches("", p);
    RowOfSum(a, [Assignment(name, text), ""], p);
    RowOfTwo(Assignment(name, text), "", p);
    if a != body {
      assert body == a + [""];
      RowOfSum(a, [""], p);
      RowIs([""], p, 1);
    }
  }

  /** An older section when a new one follows. */
  lemma {:induction false} InKeptSection(lines: seq<string>, gap: seq<string>, M: seq<string>, section2: string,
                                         name2: string)
    requires gap in {[], [""]} && gap <= M && Row(M, "[") == |gap|
    requires Row(lines, Header(section2)) < |lines|
    ensures Lookup(lines + M, section2, name2) == Lookup(lines, section2, name2)
  {
    var i2 := Row(lines, Header(section2));
    RowOfSum(lines, M, Header(section2));
    var rest := lines[i2 + 1..];
    assert (lines + M)[i2 + 1..] == rest + M;
    assert Body(lines, section2) == Some(Until(rest));
    assert Body(lines + M, section2) == Some(Until(rest + M));
    GapIsNoValue(rest, gap, M, name2);
  }

  lemma {:induction false} GapIsNoValue(rest: seq<string>, gap: seq<string>, M: seq<string>, name2: string)
    requires gap in {[], [""]} && gap <= M && Row(M, "[") == |gap|
    ensures Value(Until(rest + M), name2) == Value(Until(rest), name2)
  {
    RowOfSum(rest, M, "[");
    if Row(rest, "[") == |rest| {
      assert Until(rest + M) == rest + gap;
      assert Until(rest) == rest;
      assert !Matches("", Prefix(name2));
      RowOfSum(rest, gap, Prefix(name2));
      RowIs(gap, Prefix(name2), |gap|);
      assert Value(rest + gap, name2) == Value(rest, name2);
    } else {
      assert Until(rest + M) == Until(rest);
    }
  }

  /** The new section itself. */
  lemma {:induction false} InOwnSection(lines: seq<string>, gap: seq<string>, head: string, section: string,
                                        name: string, text: string)
    requires gap in {[], [""]} && head == "[" + section + "] 0" && Plain(section) && Plain(name)
    requires Row(lines, Header(section)) == |lines|
    ensures var M := gap + [head, Assignment(name, text), ""];
      Body(lines + M, section) == Some([Assignment(name, text), ""])
  {
    var M := gap + [head, Assignment(name, text), ""];
    NewSectionRows(gap, head, section, name, text, section);
    RowOfSum(lines, M, Header(section));
    assert (lines + M)[|lines| + |gap| + 1..] == [Assignment(name, text), ""];
    NewLine(name, text);
    RowOfTwo(Assignment(name, text), "", "[");
    assert Until([Assignment(name, text), ""]) == [Assignment(name, text), ""];
  }

  /** A new section at the end. */
  lemma {:induction false} InNewSection(lines: seq<string>, section: string, name: string, text: string,
                                        section2: string, name2: string)
    requires lines != [] && Plain(section) && Plain(name) && Plain(section2)
    requires Row(lines, Header(section)) == |lines|
    ensures Lookup(Inserted(lines, section, name, text), section2, name2)
      == AfterInsertion(lines, section, name, text, section2, name2)
  {
    var gap := if lines[|lines| - 1] == "" then [] else [""];
    var head := "[" + section + "] 0";
    var M := gap + [head, Assignment(name, text), ""];
    NewSectionRows(gap, head, section, name, text, section2);
    if Row(lines, Header(section2)) < |lines| {
      InKeptSection(lines, gap, M, section2, name2);
    } else if Lower(section2) == Lower(section) {
      InOwnSection(lines, gap, head, section, name, text);
      BodyGains([], name, text, name2);
      assert Trimmed([]) + [Assignment(name, text), ""] == [Assignment(name, text), ""];
    } else {
      RowOfSum(lines, M, Header(section2));
      assert Body(lines + M, section2) == None;
    }
  }

  lemma {:induction false} NewSectionRows(gap: seq<string>, head: string, section: string, name: string, text: string,
                                          section2: string)
    requires gap in {[], [""]} && head == "[" + section + "] 0" && Plain(section) && Plain(name) && Plain(section2)
    ensures var M := gap + [head, Assignment(name, text), ""];
      && Row(M, "[") == |gap|
      && Row(M, Header(section2)) == if Lower(section2) == Lower(section) then |gap| else |M|
  {
    var M := gap + [head, Assignment(name, text), ""];
    assert Lower(head) == Header(section) + " 0";
    assert Matches(head, Header(section));
    HeaderOpens(section, head);
    RowIs(M, "[", |gap|);
    NewLine(name, text);
    if Lower(section2) == Lower(section) {
      RowIs(M, Header(section2), |gap|);
    } else {
      if Matches(head, Header(section2)) { OneHeader(section, section2, head); }
      if Matches(Assignment(name, text), Header(section2)) { HeaderOpens(section2, Assignment(name, text)); }
      RowIs(M, Header(section2), |M|);
    }
  }

  /** What a lookup gives once the value has been inserted. */
  function AfterInsertion(lines: seq<string>, section: string, name: string, text: string,
                          section2: string, name2: string): Option<string> {
    if Disturbed(lines, section, name, text, section2, name2)
    then Some(Assignment(name, text)[|Prefix(name2)|..])
    else Lookup(lines, section2, name2)
  }

  /** A section that begins before the one the value goes into. */
  lemma {:induction false} InEarlierSection(lines: seq<string>, i: nat, a: nat, tail: seq<string>, section2: string,
                                            name2: string)
    requires i < a <= |lines| && Matches(lines[i], "[") && Row(lines, Header(section2)) < i
    ensures Lookup(lines[..a] + tail, section2, name2) == Lookup(lines, section2, name2)
  {
    var h2, lines' := Header(section2), lines[..a] + tail;
    var i2 := Row(lines, h2);
    RowIs(lines', h2, i2);
    var q := lines[i2 + 1..i + 1];
    assert q[i - i2 - 1] == lines[i];
    assert Row(q, "[") < |q|;
    assert lines[i2 + 1..] == q + lines[i + 1..];
    assert lines'[i2 + 1..] == q + lines'[i + 1..];
    RowOfSum(q, lines[i + 1..], "[");
    RowOfSum(q, lines'[i + 1..], "[");
    assert Until(lines[i2 + 1..]) == Until(q) == Until(lines'[i2 + 1..]);
  }

  lemma {:induction false} RowMoves(lines: seq<string>, a: nat, j: nat, M: seq<string>, h: string)
    requires a <= j <= |lines| && j <= Row(lines, h) && Row(M, h) == |M|
    ensures Row(lines[..a] + (M + lines[j..]), h) == a + |M| + (Row(lines, h) - j)
  {
    RowIs(lines[j..], h, Row(lines, h) - j);
    RowIs(lines[..a], h, a);
    RowOfSum(M, lines[j..], h);
    RowOfSum(lines[..a], M + lines[j..], h);
  }

  lemma {:induction false} TailMoves(lines: seq<string>, a: nat, j: nat, M: seq<string>, i: nat)
    requires a <= j <= i <= |lines|
    ensures (lines[..a] + (M + lines[j..]))[a + |M| + (i - j)..] == lines[i..]
  {
  }

  /** A section that begins after it, or nowhere. */
  lemma {:induction false} InLaterSection(lines: seq<string>, a: nat, j: nat, M: seq<string>, section2: string,
                                          name2: string)
    requires a <= j <= |lines| && j <= Row(lines, Header(section2)) && Row(M, Header(section2)) == |M|
    ensures Lookup(lines[..a] + (M + lines[j..]), section2, name2) == Lookup(lines, section2, name2)
  {
    var lines', i2 := lines[..a] + (M + lines[j..]), Row(lines, Header(section2));
    RowMoves(lines, a, j, M, Header(section2));
    if i2 < |lines| {
      TailMoves(lines, a, j, M, i2 + 1);
      SameBody(lines, lines', section2, name2);
    }
  }

  lemma {:induction false} SameBody(lines: seq<string>, lines': seq<string>, section: string, name: string)
    requires var i, i' := Row(lines, Header(section)), Row(lines', Header(section));
      i < |lines| && i' < |lines'| && lines[i + 1..] == lines'[i' + 1..]
    ensures Lookup(lines', section, name) == Lookup(lines, section, name)
  {
  }

  lemma {:induction false} OwnLines(lines: seq<string>, i: nat, j: nat)
    requires i < j <= |lines| && lines[i] != ""
    ensures lines[i + 1..if lines[j - 1] == "" then j - 1 else j] == Trimmed(lines[i + 1..j])
  {
  }

  lemma {:induction false} Dropped(lines: seq<string>, i: nat, a: nat, two: seq<string>, rest: seq<string>)
    requires i < a <= |lines|
    ensures (lines[..a] + (two + rest))[i + 1..] == lines[i + 1..a] + two + rest
  {
  }

  /** The lines of the section the value goes into, before and after. */
  lemma {:induction false} BodyBefore(lines: seq<string>, section: string)
    requires Row(lines, Header(section)) < |lines|
    ensures var i := Row(lines, Header(section));
      Body(lines, section) == Some(lines[i + 1..SectionEnd(lines, i)])
  {
    var i := Row(lines, Header(section));
    assert Until(lines[i + 1..]) == lines[i + 1..SectionEnd(lines, i)];
  }

  lemma {:induction false} BodyFree(lines: seq<string>, i: nat, a: nat)
    requires i < a <= |lines| && a <= SectionEnd(lines, i)
    ensures Row(lines[i + 1..a], "[") == a - i - 1
  {
    var own := lines[i + 1..a];
    assert lines[i + 1..][..|own|] == own;
    RowIs(own, "[", |own|);
  }

  lemma {:induction false} BodyAround(lines: seq<string>, section: string, a: nat, two: seq<string>, rest: seq<string>)
    requires Row(lines, Header(section)) < a <= |lines|
    ensures Body(lines[..a] + (two + rest), section)
      == Some(Until(lines[Row(lines, Header(section)) + 1..a] + two + rest))
  {
    var i := Row(lines, Header(section));
    RowIs(lines[..a] + (two + rest), Header(section), i);
    Dropped(lines, i, a, two, rest);
  }

  lemma {:induction false} BodyAfter(lines: seq<string>, section: string, name: string, text: string)
    requires Plain(name) && Row(lines, Header(section)) < |lines|
    ensures var i := Row(lines, Header(section));
      Body(Inserted(lines, section, name, text), section)
      == Some(Trimmed(lines[i + 1..SectionEnd(lines, i)]) + [Assignment(name, text), ""])
  {
    var i := Row(lines, Header(section));
    var j := SectionEnd(lines, i);
    HeaderOpens(section, lines[i]);
    OwnLines(lines, i, j);
    var a := if lines[j - 1] == "" then j - 1 else j;
    var two := [Assignment(name, text), ""];
    assert Inserted(lines, section, name, text) == lines[..a] + (two + lines[j..]);
    BodyAround(lines, section, a, two, lines[j..]);
    BodyFree(lines, i, a);
    UntilGains(lines[i + 1..a], name, text, lines[j..]);
  }

  lemma {:induction false} LookupGains(lines: seq<string>, lines': seq<string>, body: seq<string>, section: string,
                                       name: string, text: string, name2: string)
    requires Body(lines, section) == Some(body)
    requires Body(lines', section) == Some(Trimmed(body) + [Assignment(name, text), ""])
    ensures Lookup(lines', section, name2) == AfterInsertion(lines, section, name, text, section, name2)
  {
    BodyGains(body, name, text, name2);
  }

  /** The section the value goes into. */
  lemma {:induction false} InSameSection(lines: seq<string>, section: string, name: string, text: string,
                                         section2: string, name2: string)
    requires Plain(name) && Row(lines, Header(section)) < |lines| && Lower(section2) == Lower(section)
    ensures Lookup(Inserted(lines, section, name, text), section2, name2)
      == AfterInsertion(lines, section, name, text, section2, name2)
  {
    var i := Row(lines, Header(section));
    var body := lines[i + 1..SectionEnd(lines, i)];
    BodyBefore(lines, section);
    BodyAfter(lines, section, name, text);
    LookupGains(lines, Inserted(lines, section, name, text), body, section2, name, text, name2);
    assert AfterInsertion(lines, section, name, text, section2, name2)
      == AfterInsertion(lines, section2, name, text, section2, name2);
  }

  lemma {:induction false} UntilGains(own: seq<string>, name: string, text: string, rest: seq<string>)
    requires Plain(name) && Row(own, "[") == |own| && (rest != [] ==> Matches(rest[0], "["))
    ensures Until(own + [Assignment(name, text), ""] + rest) == own + [Assignment(name, text), ""]
  {
    var two := [Assignment(name, text), ""];
    NewLine(name, text);
    RowOfTwo(two[0], "", "[");
    RowOfSum(own, two, "[");
    RowIs(rest, "[", 0);
    RowOfSum(own + two, rest, "[");
  }

  /** Inserting a value that is missing changes no other lookup, except that a
      missing value of the same section may be found in the new line. */
  lemma {:induction false} InsertedLookup(lines: seq<string>, section: string, name: string, text: string,
                                          section2: string, name2: string)
    requires lines != [] && Plain(section) && Plain(name) && Plain(section2)
    ensures Lookup(Inserted(lines, section, name, text), section2, name2)
      == AfterInsertion(lines, section, name, text, section2, name2)
  {
    var i := Row(lines, Header(section));
    if i == |lines| {
      InNewSection(lines, section, name, text, section2, name2);
    } else if Lower(section2) == Lower(section) {
      InSameSection(lines, section, name, text, section2, name2);
    } else {
      InOtherSection(lines, section, name, text, section2, name2);
    }
  }

  lemma {:induction false} InOtherSection(lines: seq<string>, section: string, name: string, text: string,
                                          section2: string, name2: string)
    requires Plain(section) && Plain(name) && Plain(section2)
    requires Row(lines, Header(section)) < |lines| && Lower(section2) != Lower(section)
    ensures Lookup(Inserted(lines, section, name, text), section2, name2) == Lookup(lines, section2, name2)
  {
    var i := Row(lines, Header(section));
    var j := SectionEnd(lines, i);
    var a := if lines[j - 1] == "" then j - 1 else j;
    HeaderOpens(section, lines[i]);
    assert i < a;
    var two := [Assignment(name, text), ""];
    assert Inserted(lines, section, name, text) == lines[..a] + (two + lines[j..]);
    if Row(lines, Header(section2)) < i {
      InEarlierSection(lines, i, a, two + lines[j..], section2, name2);
    } else {
      NotBefore(lines, section, section2);
      NewLine(name, text);
      if Matches(Assignment(name, text), Header(section2)) { HeaderOpens(section2, Assignment(name, text)); }
      RowOfTwo(Assignment(name, text), "", Header(section2));
      InLaterSection(lines, a, j, two, section2, name2);
    }
  }

  /** A section cannot begin inside another one. */
  lemma {:induction false} NotBefore(lines: seq<string>, section: string, section2: string)
    requires Plain(section) && Plain(section2) && Lower(section2) != Lower(section)
    requires Row(lines, Header(section)) < |lines| && Row(lines, Header(section)) <= Row(lines, Header(section2))
    ensures SectionEnd(lines, Row(lines, Header(section))) <= Row(lines, Header(section2))
  {
    var i, i2 := Row(lines, Header(section)), Row(lines, Header(section2));
    if i2 < |lines| {
      HeaderOpens(section2, lines[i2]);
      if i2 == i {
        OneHeader(section, section2, lines[i]);
      } else {
        assert lines[i + 1..][i2 - i - 1] == lines[i2];
      }
    }
  }

  // ----- What an insertion guarantees -----

  lemma {:induction false} OwnPrefix(name: string, text: string)
    ensures Matches(Assignment(name, text), Prefix(name))
    ensures Assignment(name, text)[|Prefix(name)|..] == text
  {
    var l := Lower(Assignment(name, text));
    assert l[..|Prefix(name)|] == Prefix(name);
  }

  /** The value is there afterwards: with its old text if it had one, else with the
      new text. */
  lemma {:induction false} FoundAfterwards(lines: seq<string>, section: string, name: string, text: string)
    requires lines != [] && Plain(section) && Plain(name)
    ensures Lookup(Added(lines, section, name, text), section, name)
      == if Lookup(lines, section, name).Some? then Lookup(lines, section, name) else Some(text)
  {
    if Lookup(lines, section, name) == None {
      InsertedLookup(lines, section, name, text, section, name);
      OwnPrefix(name, text);
    }
  }

  /** Adding again changes nothing. */
  lemma {:induction false} AddedOnce(lines: seq<string>, section: string, name: string, text: string, again: string)
    requires lines != [] && Plain(section) && Plain(name)
    ensures Added(Added(lines, section, name, text), section, name, again) == Added(lines, section, name, text)
  {
    FoundAfterwards(lines, section, name, text);
  }

  /** Another lookup changes exactly when the value was missing and the new line
      can be read as the other, also missing, value of the same section. */
  lemma {:induction false} OthersUnchanged(lines: seq<string>, section: string, name: string, text: string,
                                           section2: string, name2: string)
    requires lines != [] && Plain(section) && Plain(name) && Plain(section2)
    ensures Lookup(Added(lines, section, name, text), section2, name2) == Lookup(lines, section2, name2)
      <==> Lookup(lines, section, name).Some? || !Disturbed(lines, section, name, text, section2, name2)
  {
    if Lookup(lines, section, name) == None {
      InsertedLookup(lines, section, name, text, section2, name2);
    }
  }

  /** Between names without an equals sign that is the same value. */
  lemma {:induction false} OnlyItself(name: string, text: string, name2: string)
    requires Free(name, '=') && Free(name2, '=')
    ensures Matches(Assignment(name, text), Prefix(name2)) <==> Lower(name2) == Lower(name)
  {
    OwnPrefix(name, text);
    var l := Lower(Assignment(name, text));
    if Matches(Assignment(name, text), Prefix(name2)) {
      assert l[|name2|] == Prefix(name2)[|name2|] == '=';
      assert l[|name|] == Prefix(name)[|name|] == '=';
      LowerFree(name, '=');
      LowerFree(name2, '=');
      assert Lower(name2) == l[..|name2|] && Lower(name) == l[..|name|];
    }
  }

  /** With one, a new value "a=b" is read as the missing value "a" too. */
  lemma {:induction false} EqualsSignSpoils(lines: seq<string>, section: string, a: string, b: string, text: string)
    requires lines != [] && Plain(section) && Plain(a) && Plain(b)
    requires Lookup(lines, section, a + "=" + b) == None && Lookup(lines, section, a) == None
    ensures Lookup(Added(lines, section, a + "=" + b, text), section, a) == Some(b + "=" + text)
  {
    InsertedLookup(lines, section, a + "=" + b, text, section, a);
    OwnPrefix(a, b + "=" + text);
    assert Assignment(a + "=" + b, text) == Assignment(a, b + "=" + text);
  }
}
