/** What a repair writes: the text every value has afterwards. */
module RegistryTexts {
  import opened Options
  import opened Texts
  import opened RegistryLines
  import opened Registry
  import opened RegistryRepairs

  // ----- Sections apart -----

  lemma {:induction false} LowerSum(a: string, b: string)
    ensures Lower(a + b) == Lower(a) + Lower(b)
  {
  }

  /** A class's section ends the same way for every class. */
  lemma {:induction false} SectionShape(wow: bool, c: Class)
    ensures Server(wow, c) == KeyStart(wow) + c.id + "}\\\\InprocServer32"
    ensures Folder(wow, c) == KeyStart(wow) + c.id + "}\\\\ShellFolder"
  {
  }

  lemma {:induction false} WidthsDiffer(s: string, t: string)
    ensures Lower(KeyStart(true) + s) != Lower(KeyStart(false) + t)
  {
    var p := "Software\\\\Classes\\\\";
    assert (KeyStart(true) + s)[|p|] == 'W' && (KeyStart(false) + t)[|p|] == 'C';
    assert Lower(KeyStart(true) + s)[|p|] == 'w' && Lower(KeyStart(false) + t)[|p|] == 'c';
  }

  lemma {:induction false} IdsDiffer(a: string, s: string, t: string, b: string)
    requires Lower(s) != Lower(t)
    ensures Lower(a + s + b) != Lower(a + t + b)
  {
    if Lower(a + s + b) == Lower(a + t + b) { MiddleIs(a, s, t, b); }
  }

  lemma {:induction false} MiddleIs(a: string, s: string, t: string, b: string)
    requires Lower(a + s + b) == Lower(a + t + b)
    ensures Lower(s) == Lower(t)
  {
    LowerSum(a + s, b);
    LowerSum(a, s);
    LowerSum(a + t, b);
    LowerSum(a, t);
    var x, n := Lower(a + s + b), |a|;
    assert |s| == |t| && x[n..n + |s|] == Lower(s) && x[n..n + |t|] == Lower(t);
  }

  lemma {:induction false} EndsDiffer(s: string, t: string)
    ensures Lower(s + "}\\\\InprocServer32") != Lower(t + "}\\\\ShellFolder")
  {
    var x, y := s + "}\\\\InprocServer32", t + "}\\\\ShellFolder";
    assert x[|x| - 1] == '2' && y[|y| - 1] == 'r';
    if |x| == |y| { assert Lower(x)[|x| - 1] == '2' && Lower(y)[|y| - 1] == 'r'; }
  }

  ghost predicate Same(wow: bool, c: Class, wow2: bool, c2: Class) {
    wow == wow2 && Lower(c.id) == Lower(c2.id)
  }

  /** Two classes or widths have no section in common, and servers none with folders. */
  lemma {:induction false} SectionsDiffer(wow: bool, c: Class, wow2: bool, c2: Class)
    ensures Lower(Server(wow, c)) != Lower(Folder(wow2, c2))
    ensures !Same(wow, c, wow2, c2) ==>
      Lower(Server(wow, c)) != Lower(Server(wow2, c2)) && Lower(Folder(wow, c)) != Lower(Folder(wow2, c2))
  {
    var a, b := "}\\\\InprocServer32", "}\\\\ShellFolder";
    SectionShape(wow, c);
    SectionShape(wow2, c2);
    EndsDiffer(KeyStart(wow) + c.id, KeyStart(wow2) + c2.id);
    if wow == wow2 {
      if Lower(c.id) != Lower(c2.id) {
        IdsDiffer(KeyStart(wow), c.id, c2.id, a);
        IdsDiffer(KeyStart(wow), c.id, c2.id, b);
      }
    } else {
      var x, y := if wow then c.id else c2.id, if wow then c2.id else c.id;
      WidthsDiffer(x + a, y + a);
      WidthsDiffer(x + b, y + b);
      Grouped(wow, c.id, a, b);
      Grouped(wow2, c2.id, a, b);
    }
  }

  lemma {:induction false} Grouped(wow: bool, id: string, a: string, b: string)
    ensures KeyStart(wow) + id + a == KeyStart(wow) + (id + a) && KeyStart(wow) + id + b == KeyStart(wow) + (id + b)
  {
  }

  // ----- One class -----

  /** What one class's values are after a repair, given what they were. */
  ghost predicate ServedBy(before: seq<string>, after: seq<string>, wow: bool, c: Class) {
    var server, threading := Lookup(before, Server(wow, c), "@"), Lookup(before, Server(wow, c), THREADING);
    var parsing := Lookup(before, Folder(wow, c), PARSING);
    && Lookup(after, Server(wow, c), "@") == (if server == None then Some(Path(wow, c)) else server)
    && Lookup(after, Server(wow, c), THREADING)
       == (if server == None && threading == None then Some(Quoted(c.model)) else threading)
    && Lookup(after, Folder(wow, c), PARSING) == if c.folder && parsing == None then Some("\"\"") else parsing
  }

  lemma {:induction false} Elsewhere(lines: seq<string>, section: string, name: string, text: string,
                                     section2: string, name2: string)
    requires lines != [] && Plain(section) && Plain(name) && Plain(section2)
    requires Lower(section2) != Lower(section) || !Matches(Assignment(name, text), Prefix(name2))
    ensures Lookup(Added(lines, section, name, text), section2, name2) == Lookup(lines, section2, name2)
  {
    OthersUnchanged(lines, section, name, text, section2, name2);
  }

  lemma {:induction false} NamesDiffer(a: string, b: string)
    ensures !Matches(Assignment("@", a), Prefix(THREADING)) && !Matches(Assignment(THREADING, b), Prefix("@"))
  {
    assert Lower(Assignment("@", a))[0] == '@' && Prefix(THREADING)[0] == '"';
    assert Lower(Assignment(THREADING, b))[0] == '"' && Prefix("@")[0] == '@';
  }

  lemma {:induction false} RegisteredTexts(lines: seq<string>, wow: bool, c: Class)
    requires lines != [] && Sound(c)
    ensures ServedBy(lines, Registered(lines, wow, c), wow, c)
  {
    var server, folder, path := Server(wow, c), Folder(wow, c), Path(wow, c);
    SoundNames(wow, c);
    SectionsDiffer(wow, c, wow, c);
    NamesDiffer(path, Quoted(c.model));
    var served := Added(lines, server, "@", path);
    FoundAfterwards(lines, server, "@", path);
    Elsewhere(lines, server, "@", path, server, THREADING);
    Elsewhere(lines, server, "@", path, folder, PARSING);
    var threaded := if Lookup(lines, server, "@") == None then Added(served, server, THREADING, Quoted(c.model)) else served;
    if Lookup(lines, server, "@") == None {
      FoundAfterwards(served, server, THREADING, Quoted(c.model));
      Elsewhere(served, server, THREADING, Quoted(c.model), server, "@");
      Elsewhere(served, server, THREADING, Quoted(c.model), folder, PARSING);
    }
    if c.folder {
      FoundAfterwards(threaded, folder, PARSING, "\"\"");
      Elsewhere(threaded, folder, PARSING, "\"\"", server, "@");
      Elsewhere(threaded, folder, PARSING, "\"\"", server, THREADING);
    }
  }

  /** A class leaves every other section alone. */
  lemma {:induction false} RegisteredApart(lines: seq<string>, wow: bool, c: Class, section: string, name: string)
    requires lines != [] && Sound(c) && Plain(section)
    requires Lower(section) != Lower(Server(wow, c)) && Lower(section) != Lower(Folder(wow, c))
    ensures Lookup(Registered(lines, wow, c), section, name) == Lookup(lines, section, name)
  {
    SoundNames(wow, c);
    var served := Added(lines, Server(wow, c), "@", Path(wow, c));
    Elsewhere(lines, Server(wow, c), "@", Path(wow, c), section, name);
    var threaded := Added(served, Server(wow, c), THREADING, Quoted(c.model));
    Elsewhere(served, Server(wow, c), THREADING, Quoted(c.model), section, name);
    Elsewhere(served, Folder(wow, c), PARSING, "\"\"", section, name);
    Elsewhere(threaded, Folder(wow, c), PARSING, "\"\"", section, name);
  }

  // ----- All of them -----

  ghost predicate Outside(section: string, wow: bool, classes: seq<Class>) {
    forall i :: 0 <= i < |classes| ==>
      Lower(section) != Lower(Server(wow, classes[i])) && Lower(section) != Lower(Folder(wow, classes[i]))
  }

  lemma {:induction false} WidthApart(lines: seq<string>, wow: bool, classes: seq<Class>, section: string, name: string)
    requires lines != [] && AllSound(classes) && Plain(section) && Outside(section, wow, classes)
    ensures Lookup(RegisteredAll(lines, wow, classes), section, name) == Lookup(lines, section, name)
  {
    if classes != [] {
      var n := |classes| - 1;
      WidthApart(lines, wow, classes[..n], section, name);
      RegisteredApart(RegisteredAll(lines, wow, classes[..n]), wow, classes[n], section, name);
    }
  }

  /** A whole repair leaves every section that is none of its classes' alone. */
  lemma {:induction false} RepairedApart(lines: seq<string>, pe64: bool, pe32: bool, classes: seq<Class>,
                                         section: string, name: string)
    requires lines != [] && AllSound(classes) && Plain(section)
    requires (pe64 ==> Outside(section, false, classes)) && (pe32 ==> Outside(section, true, classes))
    ensures Lookup(Repaired(lines, pe64, pe32, classes), section, name) == Lookup(lines, section, name)
  {
    var wide := if pe64 then RegisteredAll(lines, false, classes) else lines;
    if pe64 { WidthApart(lines, false, classes, section, name); }
    if pe32 { WidthApart(wide, true, classes, section, name); }
  }

  ghost predicate Different(classes: seq<Class>) {
    forall i, j :: 0 <= i < j < |classes| ==> Lower(classes[i].id) != Lower(classes[j].id)
  }

  /** The values of one class, when nothing has touched its sections on the way. */
  ghost predicate Untouched(before: seq<string>, after: seq<string>, wow: bool, c: Class) {
    && Lookup(after, Server(wow, c), "@") == Lookup(before, Server(wow, c), "@")
    && Lookup(after, Server(wow, c), THREADING) == Lookup(before, Server(wow, c), THREADING)
    && Lookup(after, Folder(wow, c), PARSING) == Lookup(before, Folder(wow, c), PARSING)
  }

  lemma {:induction false} OthersOutside(wow: bool, classes: seq<Class>, wow2: bool, c2: Class)
    requires forall i :: 0 <= i < |classes| ==> !Same(wow, classes[i], wow2, c2)
    ensures Outside(Server(wow2, c2), wow, classes) && Outside(Folder(wow2, c2), wow, classes)
  {
    forall i | 0 <= i < |classes|
      ensures Lower(Server(wow2, c2)) != Lower(Server(wow, classes[i])) && Lower(Server(wow2, c2)) != Lower(Folder(wow, classes[i]))
      ensures Lower(Folder(wow2, c2)) != Lower(Server(wow, classes[i])) && Lower(Folder(wow2, c2)) != Lower(Folder(wow, classes[i]))
    {
      SectionsDiffer(wow, classes[i], wow2, c2);
      SectionsDiffer(wow2, c2, wow, classes[i]);
    }
  }

  lemma {:induction false} WidthUntouched(lines: seq<string>, wow: bool, classes: seq<Class>, wow2: bool, c2: Class)
    requires lines != [] && AllSound(classes) && Sound(c2)
    requires forall i :: 0 <= i < |classes| ==> !Same(wow, classes[i], wow2, c2)
    ensures Untouched(lines, RegisteredAll(lines, wow, classes), wow2, c2)
  {
    SoundNames(wow2, c2);
    OthersOutside(wow, classes, wow2, c2);
    WidthApart(lines, wow, classes, Server(wow2, c2), "@");
    WidthApart(lines, wow, classes, Server(wow2, c2), THREADING);
    WidthApart(lines, wow, classes, Folder(wow2, c2), PARSING);
  }

  lemma {:induction false} RegisteredUntouched(lines: seq<string>, wow: bool, c: Class, wow2: bool, c2: Class)
    requires lines != [] && Sound(c) && Sound(c2) && !Same(wow, c, wow2, c2)
    ensures Untouched(lines, Registered(lines, wow, c), wow2, c2)
  {
    SoundNames(wow2, c2);
    SectionsDiffer(wow, c, wow2, c2);
    SectionsDiffer(wow2, c2, wow, c);
    RegisteredApart(lines, wow, c, Server(wow2, c2), "@");
    RegisteredApart(lines, wow, c, Server(wow2, c2), THREADING);
    RegisteredApart(lines, wow, c, Folder(wow2, c2), PARSING);
  }

  lemma {:induction false} ServedThrough(a: seq<string>, b: seq<string>, d: seq<string>, wow: bool, c: Class)
    ensures ServedBy(a, b, wow, c) && Untouched(b, d, wow, c) ==> ServedBy(a, d, wow, c)
    ensures Untouched(a, b, wow, c) && ServedBy(b, d, wow, c) ==> ServedBy(a, d, wow, c)
  {
  }

  lemma {:induction false} RestDiffers(wow: bool, classes: seq<Class>)
    requires classes != [] && AllSound(classes) && Different(classes)
    ensures var rest, last := classes[..|classes| - 1], classes[|classes| - 1];
      && AllSound(rest) && Different(rest) && Sound(last)
      && forall i :: 0 <= i < |rest| ==>
        rest[i] == classes[i] && !Same(wow, rest[i], wow, last) && !Same(wow, last, wow, rest[i])
  {
  }

  lemma {:induction false} StillServed(lines: seq<string>, before: seq<string>, after: seq<string>, wow: bool, last: Class,
                                       c: Class)
    requires before != [] && Sound(last) && Sound(c) && !Same(wow, last, wow, c) && after == Registered(before, wow, last)
    requires ServedBy(lines, before, wow, c)
    ensures ServedBy(lines, after, wow, c)
  {
    RegisteredUntouched(before, wow, last, wow, c);
    ServedThrough(lines, before, after, wow, c);
  }

  lemma {:induction false} LastServed(lines: seq<string>, after: seq<string>, wow: bool, rest: seq<Class>, last: Class)
    requires lines != [] && AllSound(rest) && Sound(last) && after == Registered(RegisteredAll(lines, wow, rest), wow, last)
    requires forall i :: 0 <= i < |rest| ==> !Same(wow, rest[i], wow, last)
    ensures ServedBy(lines, after, wow, last)
  {
    var before := RegisteredAll(lines, wow, rest);
    WidthUntouched(lines, wow, rest, wow, last);
    RegisteredTexts(before, wow, last);
    ServedThrough(lines, before, after, wow, last);
  }

  lemma {:induction false} WidthServes(lines: seq<string>, after: seq<string>, wow: bool, classes: seq<Class>, k: nat)
    requires lines != [] && AllSound(classes) && Different(classes) && k < |classes|
    requires after == RegisteredAll(lines, wow, classes)
    ensures ServedBy(lines, after, wow, classes[k])
    decreases |classes|, 1
  {
    var n := |classes| - 1;
    if k < n { EarlierServed(lines, after, wow, classes, k); } else { LatestServed(lines, after, wow, classes); }
  }

  lemma {:induction false} LatestServed(lines: seq<string>, after: seq<string>, wow: bool, classes: seq<Class>)
    requires lines != [] && AllSound(classes) && Different(classes) && classes != []
    requires after == RegisteredAll(lines, wow, classes)
    ensures ServedBy(lines, after, wow, classes[|classes| - 1])
  {
    RestDiffers(wow, classes);
    LastServed(lines, after, wow, classes[..|classes| - 1], classes[|classes| - 1]);
  }

  lemma {:induction false} EarlierServed(lines: seq<string>, after: seq<string>, wow: bool, classes: seq<Class>, k: nat)
    requires lines != [] && AllSound(classes) && Different(classes) && k < |classes| - 1
    requires after == RegisteredAll(lines, wow, classes)
    ensures ServedBy(lines, after, wow, classes[k])
    decreases |classes|, 0
  {
    var rest, last := classes[..|classes| - 1], classes[|classes| - 1];
    RestDiffers(wow, classes);
    var c, before := rest[k], RegisteredAll(lines, wow, rest);
    WidthServes(lines, before, wow, rest, k);
    StillServed(lines, before, after, wow, last, c);
  }

  /** After a repair every class has its texts in each projected width, and what it had
      in the other. */
  lemma {:induction false} RepairedServes(lines: seq<string>, pe64: bool, pe32: bool, classes: seq<Class>, k: nat)
    requires lines != [] && AllSound(classes) && Different(classes) && k < |classes|
    ensures var r := Repaired(lines, pe64, pe32, classes);
      && (if pe64 then ServedBy(lines, r, false, classes[k]) else Untouched(lines, r, false, classes[k]))
      && (if pe32 then ServedBy(lines, r, true, classes[k]) else Untouched(lines, r, true, classes[k]))
  {
    var wide := if pe64 then RegisteredAll(lines, false, classes) else lines;
    if pe64 {
      WidthServes(lines, wide, false, classes, k);
      WidthUntouched(lines, false, classes, true, classes[k]);
    }
    if pe32 {
      WidthServes(wide, RegisteredAll(wide, true, classes), true, classes, k);
      WidthUntouched(wide, true, classes, false, classes[k]);
    }
  }
}
