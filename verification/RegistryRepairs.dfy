/** Registering the classes of projected builtin modules: each repair only fills in
    what is missing, and running it again does nothing. */
module RegistryRepairs {
  import opened Options
  import opened Texts
  import opened RegistryLines
  import opened Registry

  /** A COM class and the builtin module that serves it; `folder` also asks for the
      shell-folder parsing flag. */
  datatype Class = Class(id: string, dll: string, model: string, folder: bool)

  const ENUMERATOR := Class("bcde0395-e52f-467c-8e3d-c4579291692e", "mmdevapi.dll", "Both", false)
  const PROVIDER := Class("a65b8071-3bfe-4213-9a5b-491da4461ca7", "dxdiagn.dll", "Apartment", false)
  const FOLDER := Class("450d8fba-ad25-11d0-98a8-0800361b1103", "shell32.dll", "Apartment", true)
  const LOCATOR1 := Class("4590f811-1d3a-11d0-891f-00aa004b2e24", "wbemprox.dll", "Both", false)
  const LOCATOR2 := Class("674b6698-ee92-11d0-ad71-00c04fd8fdff", "wbemprox.dll", "Both", false)
  const LOCATOR3 := Class("cb8555cc-9128-11d1-ad9b-00c04fd8fdff", "wbemprox.dll", "Both", false)
  const DEVICE := Class("62be5d10-60eb-11d0-bd3b-00a0c911ce86", "devenum.dll", "Both", false)
  const MONIKER := Class("4315d437-5b8c-11d0-bd3b-00a0c911ce86", "devenum.dll", "Both", false)

  /** The classes of each repair. */
  function AudioEnumerator(): seq<Class> { [ENUMERATOR] }
  function DxDiagProvider(): seq<Class> { [PROVIDER] }
  function DocumentsFolder(): seq<Class> { [FOLDER] }
  function WbemLocator(): seq<Class> { [LOCATOR1, LOCATOR2, LOCATOR3] }
  function MediaDevices(): seq<Class> { [DEVICE, MONIKER] }

  const THREADING := "\"ThreadingModel\""
  const PARSING := "\"WantsForParsing\""

  function KeyStart(wow: bool): string {
    "Software\\\\Classes\\\\" + (if wow then "Wow6432Node\\\\" else "") + "CLSID\\\\{"
  }

  function Key(wow: bool, c: Class): string {
    KeyStart(wow) + c.id + "}"
  }

  function Server(wow: bool, c: Class): string {
    Key(wow, c) + "\\\\InprocServer32"
  }

  function Folder(wow: bool, c: Class): string {
    Key(wow, c) + "\\\\ShellFolder"
  }

  function Path(wow: bool, c: Class): string {
    (if wow then "\"C:\\\\windows\\\\syswow64\\\\" else "\"C:\\\\windows\\\\system32\\\\") + c.dll + "\""
  }

  function Quoted(s: string): string { "\"" + s + "\"" }

  // ----- One class -----

  /** What one class adds to a file's lines. */
  function Registered(lines: seq<string>, wow: bool, c: Class): (r: seq<string>)
    requires lines != []
    ensures r != []
  {
    var served := Added(lines, Server(wow, c), "@", Path(wow, c));
    var threaded :=
      if Lookup(lines, Server(wow, c), "@") == None
      then Added(served, Server(wow, c), THREADING, Quoted(c.model)) else served;
    if c.folder then Added(threaded, Folder(wow, c), PARSING, "\"\"") else threaded
  }

  predicate Satisfied(lines: seq<string>, wow: bool, c: Class) {
    && Lookup(lines, Server(wow, c), "@").Some?
    && (c.folder ==> Lookup(lines, Folder(wow, c), PARSING).Some?)
  }

  ghost predicate Sound(c: Class) {
    Plain(c.id) && Free(c.dll, '\n') && Free(c.model, '\n')
  }

  lemma {:induction false} FreeSum(a: string, b: string, c: char)
    requires Free(a, c) && Free(b, c)
    ensures Free(a + b, c)
  {
  }

  lemma {:induction false} PlainSum(a: string, b: string)
    requires Plain(a) && Plain(b)
    ensures Plain(a + b)
  {
  }

  lemma {:induction false} PlainKey(wow: bool, c: Class)
    requires Plain(c.id)
    ensures Plain(Key(wow, c))
  {
    var a, b := "Software\\\\Classes\\\\", if wow then "Wow6432Node\\\\" else "";
    PlainSum(a, b);
    PlainSum(a + b, "CLSID\\\\{");
    PlainSum(a + b + "CLSID\\\\{", c.id);
    PlainSum(a + b + "CLSID\\\\{" + c.id, "}");
  }

  lemma {:induction false} FreePath(wow: bool, c: Class)
    requires Free(c.dll, '\n')
    ensures Free(Path(wow, c), '\n')
  {
    var a := if wow then "\"C:\\\\windows\\\\syswow64\\\\" else "\"C:\\\\windows\\\\system32\\\\";
    FreeSum(a, c.dll, '\n');
    FreeSum(a + c.dll, "\"", '\n');
  }

  lemma {:induction false} SoundNames(wow: bool, c: Class)
    requires Sound(c)
    ensures Clean(Server(wow, c), "@", Path(wow, c))
    ensures Clean(Server(wow, c), THREADING, Quoted(c.model))
    ensures Clean(Folder(wow, c), PARSING, "\"\"")
  {
    PlainKey(wow, c);
    FreePath(wow, c);
    PlainSum(Key(wow, c), "\\\\InprocServer32");
    PlainSum(Key(wow, c), "\\\\ShellFolder");
  }

  /** No insertion loses or changes a value that is there. */
  lemma {:induction false} KeepsFound(lines: seq<string>, section: string, name: string, text: string,
                                      section2: string, name2: string)
    requires lines != [] && Clean(section, name, text) && Plain(section2) && Lookup(lines, section2, name2).Some?
    ensures Lookup(Added(lines, section, name, text), section2, name2) == Lookup(lines, section2, name2)
  {
    OthersUnchanged(lines, section, name, text, section2, name2);
  }

  lemma {:induction false} RegisteredKeeps(lines: seq<string>, wow: bool, c: Class, section2: string, name2: string)
    requires lines != [] && Sound(c) && Plain(section2) && Lookup(lines, section2, name2).Some?
    ensures Lookup(Registered(lines, wow, c), section2, name2) == Lookup(lines, section2, name2)
  {
    SoundNames(wow, c);
    var served := Added(lines, Server(wow, c), "@", Path(wow, c));
    KeepsFound(lines, Server(wow, c), "@", Path(wow, c), section2, name2);
    var threaded := Added(served, Server(wow, c), THREADING, Quoted(c.model));
    KeepsFound(served, Server(wow, c), THREADING, Quoted(c.model), section2, name2);
    KeepsFound(served, Folder(wow, c), PARSING, "\"\"", section2, name2);
    KeepsFound(threaded, Folder(wow, c), PARSING, "\"\"", section2, name2);
  }

  lemma {:induction false} RegisteredSatisfies(lines: seq<string>, wow: bool, c: Class)
    requires lines != [] && Sound(c)
    ensures Satisfied(Registered(lines, wow, c), wow, c)
    ensures Satisfied(lines, wow, c) ==> Registered(lines, wow, c) == lines
  {
    SoundNames(wow, c);
    var server, folder := Server(wow, c), Folder(wow, c);
    var served := Added(lines, server, "@", Path(wow, c));
    FoundAfterwards(lines, server, "@", Path(wow, c));
    var threaded := Added(served, server, THREADING, Quoted(c.model));
    KeepsFound(served, server, THREADING, Quoted(c.model), server, "@");
    KeepsFound(served, folder, PARSING, "\"\"", server, "@");
    KeepsFound(threaded, folder, PARSING, "\"\"", server, "@");
    FoundAfterwards(served, folder, PARSING, "\"\"");
    FoundAfterwards(threaded, folder, PARSING, "\"\"");
  }

  // ----- All of them -----

  function RegisteredAll(lines: seq<string>, wow: bool, classes: seq<Class>): (r: seq<string>)
    requires lines != []
    ensures r != []
  {
    if classes == [] then lines
    else Registered(RegisteredAll(lines, wow, classes[..|classes| - 1]), wow, classes[|classes| - 1])
  }

  /** A whole repair, for the widths whose module is projected. */
  function Repaired(lines: seq<string>, pe64: bool, pe32: bool, classes: seq<Class>): (r: seq<string>)
    requires lines != []
    ensures r != []
  {
    var wide := if pe64 then RegisteredAll(lines, false, classes) else lines;
    if pe32 then RegisteredAll(wide, true, classes) else wide
  }

  ghost predicate AllSound(classes: seq<Class>) {
    forall i :: 0 <= i < |classes| ==> Sound(classes[i])
  }

  ghost predicate AllSatisfied(lines: seq<string>, wow: bool, classes: seq<Class>) {
    forall i :: 0 <= i < |classes| ==> Satisfied(lines, wow, classes[i])
  }

  lemma {:induction false} StaysSatisfied(lines: seq<string>, wow: bool, c: Class, wow2: bool, c2: Class)
    requires lines != [] && Sound(c) && Sound(c2) && Satisfied(lines, wow2, c2)
    ensures Satisfied(Registered(lines, wow, c), wow2, c2)
  {
    SoundNames(wow2, c2);
    RegisteredKeeps(lines, wow, c, Server(wow2, c2), "@");
    if c2.folder { RegisteredKeeps(lines, wow, c, Folder(wow2, c2), PARSING); }
  }

  lemma {:induction false} AllStaySatisfied(lines: seq<string>, wow: bool, classes: seq<Class>, wow2: bool, c2: Class)
    requires lines != [] && AllSound(classes) && Sound(c2) && Satisfied(lines, wow2, c2)
    ensures Satisfied(RegisteredAll(lines, wow, classes), wow2, c2)
  {
    if classes != [] {
      var n := |classes| - 1;
      AllStaySatisfied(lines, wow, classes[..n], wow2, c2);
      StaysSatisfied(RegisteredAll(lines, wow, classes[..n]), wow, classes[n], wow2, c2);
    }
  }

  lemma {:induction false} AllRegistered(lines: seq<string>, wow: bool, classes: seq<Class>)
    requires lines != [] && AllSound(classes)
    ensures AllSatisfied(RegisteredAll(lines, wow, classes), wow, classes)
  {
    if classes != [] {
      var n := |classes| - 1;
      var before := RegisteredAll(lines, wow, classes[..n]);
      AllRegistered(lines, wow, classes[..n]);
      RegisteredSatisfies(before, wow, classes[n]);
      forall i | 0 <= i < n ensures Satisfied(Registered(before, wow, classes[n]), wow, classes[..n][i]) {
        StaysSatisfied(before, wow, classes[n], wow, classes[..n][i]);
      }
      AllButLast(Registered(before, wow, classes[n]), wow, classes);
    }
  }

  lemma {:induction false} NothingToDo(lines: seq<string>, wow: bool, classes: seq<Class>)
    requires lines != [] && AllSound(classes) && AllSatisfied(lines, wow, classes)
    ensures RegisteredAll(lines, wow, classes) == lines
  {
    if classes != [] {
      AllButLast(lines, wow, classes);
      NothingToDo(lines, wow, classes[..|classes| - 1]);
      RegisteredSatisfies(lines, wow, classes[|classes| - 1]);
    }
  }

  lemma {:induction false} AllButLast(lines: seq<string>, wow: bool, classes: seq<Class>)
    requires classes != []
    ensures AllSatisfied(lines, wow, classes) <==>
      AllSatisfied(lines, wow, classes[..|classes| - 1]) && Satisfied(lines, wow, classes[|classes| - 1])
  {
    if AllSatisfied(lines, wow, classes[..|classes| - 1]) && Satisfied(lines, wow, classes[|classes| - 1]) {
      forall i | 0 <= i < |classes| ensures Satisfied(lines, wow, classes[i]) {
        if i < |classes| - 1 { assert Satisfied(lines, wow, classes[..|classes| - 1][i]); }
      }
    }
  }

  /** A repair done twice is a repair done once. */
  lemma {:induction false} RepairedOnce(lines: seq<string>, pe64: bool, pe32: bool, classes: seq<Class>)
    requires lines != [] && AllSound(classes)
    ensures var r := Repaired(lines, pe64, pe32, classes);
      && (pe64 ==> AllSatisfied(r, false, classes)) && (pe32 ==> AllSatisfied(r, true, classes))
      && Repaired(r, pe64, pe32, classes) == r
  {
    var r := Repaired(lines, pe64, pe32, classes);
    var wide := if pe64 then RegisteredAll(lines, false, classes) else lines;
    AllRegistered(lines, false, classes);
    AllRegistered(wide, true, classes);
    forall i | 0 <= i < |classes| && pe64 ensures Satisfied(r, false, classes[i]) {
      AllStaySatisfied(wide, true, classes, false, classes[i]);
    }
    if pe64 { NothingToDo(r, false, classes); }
    if pe32 { NothingToDo(r, true, classes); }
  }

  lemma {:induction false} WidthKeepsFound(lines: seq<string>, wow: bool, classes: seq<Class>, section2: string,
                                           name2: string)
    requires lines != [] && AllSound(classes) && Plain(section2) && Lookup(lines, section2, name2).Some?
    ensures Lookup(RegisteredAll(lines, wow, classes), section2, name2) == Lookup(lines, section2, name2)
  {
    if classes != [] {
      var n := |classes| - 1;
      WidthKeepsFound(lines, wow, classes[..n], section2, name2);
      RegisteredKeeps(RegisteredAll(lines, wow, classes[..n]), wow, classes[n], section2, name2);
    }
  }

  /** And it changes no value the file already has. */
  lemma {:induction false} RepairedKeeps(lines: seq<string>, pe64: bool, pe32: bool, classes: seq<Class>,
                                         section2: string, name2: string)
    requires lines != [] && AllSound(classes) && Plain(section2) && Lookup(lines, section2, name2).Some?
    ensures Lookup(Repaired(lines, pe64, pe32, classes), section2, name2) == Lookup(lines, section2, name2)
  {
    var wide := if pe64 then RegisteredAll(lines, false, classes) else lines;
    WidthKeepsFound(lines, false, classes, section2, name2);
    WidthKeepsFound(wide, true, classes, section2, name2);
  }

  // ----- The repairs -----

  /** Registering the server does not touch the class's folder. */
  lemma {:induction false} FolderUntouched(lines: seq<string>, wow: bool, c: Class)
    requires lines != [] && Sound(c)
    ensures var served := Added(lines, Server(wow, c), "@", Path(wow, c));
      && Lookup(served, Folder(wow, c), PARSING) == Lookup(lines, Folder(wow, c), PARSING)
      && Lookup(Added(served, Server(wow, c), THREADING, Quoted(c.model)), Folder(wow, c), PARSING)
         == Lookup(lines, Folder(wow, c), PARSING)
  {
    SoundNames(wow, c);
    var served := Added(lines, Server(wow, c), "@", Path(wow, c));
    assert |Lower(Server(wow, c))| != |Lower(Folder(wow, c))|;
    OthersUnchanged(lines, Server(wow, c), "@", Path(wow, c), Folder(wow, c), PARSING);
    OthersUnchanged(served, Server(wow, c), THREADING, Quoted(c.model), Folder(wow, c), PARSING);
  }

  /** Registers one class when its server is missing. */
  method Register(file: RegistryFile, wow: bool, c: Class) returns (changed: bool)
    requires Sound(c)
    modifies file
    ensures Lines(file.contents) == Registered(Lines(old(file.contents)), wow, c)
    ensures changed == !Satisfied(Lines(old(file.contents)), wow, c)
    ensures !changed ==> file.contents == old(file.contents)
  {
    SoundNames(wow, c);
    ghost var was := Lines(file.contents);
    var added := file.InsertMissing(Server(wow, c), "@", Path(wow, c));
    ghost var served := Lines(file.contents);
    if added {
      var threading := file.InsertMissing(Server(wow, c), THREADING, Quoted(c.model));
    }
    changed := added;
    FolderUntouched(was, wow, c);
    if c.folder {
      var parsing := file.InsertMissing(Folder(wow, c), PARSING, "\"\"");
      changed := changed || parsing;
    }
  }

  method RegisterWidth(file: RegistryFile, wow: bool, classes: seq<Class>) returns (changed: bool)
    requires AllSound(classes)
    modifies file
    ensures Lines(file.contents) == RegisteredAll(Lines(old(file.contents)), wow, classes)
    ensures !changed ==> file.contents == old(file.contents)
    ensures !changed <==> AllSatisfied(Lines(old(file.contents)), wow, classes)
  {
    changed := false;
    ghost var was := Lines(file.contents);
    for k := 0 to |classes|
      invariant Lines(file.contents) == RegisteredAll(was, wow, classes[..k])
      invariant !changed ==> file.contents == old(file.contents)
      invariant !changed <==> AllSatisfied(was, wow, classes[..k])
    {
      ghost var upto := classes[..k + 1];
      assert upto[..k] == classes[..k];
      if Satisfied(was, wow, classes[k]) { AllStaySatisfied(was, wow, classes[..k], wow, classes[k]); }
      var added := Register(file, wow, classes[k]);
      AllButLast(was, wow, upto);
      changed := changed || added;
    }
    assert classes[..|classes|] == classes;
  }

  /** A repair over a list of classes: reports a change exactly when one of them
      was not yet registered. */
  method Repair(file: RegistryFile, pe64: bool, pe32: bool, classes: seq<Class>) returns (changed: bool)
    requires AllSound(classes)
    modifies file
    ensures Lines(file.contents) == Repaired(Lines(old(file.contents)), pe64, pe32, classes)
    ensures !changed ==> file.contents == old(file.contents)
    ensures var lines := Lines(old(file.contents));
      !changed <==> (pe64 ==> AllSatisfied(lines, false, classes)) && (pe32 ==> AllSatisfied(lines, true, classes))
  {
    ghost var was := Lines(file.contents);
    changed := false;
    if pe64 {
      changed := RegisterWidth(file, false, classes);
    }
    ghost var wide := Lines(file.contents);
    if pe32 {
      if pe64 { WidthKeeps(was, classes); }
      var added := RegisterWidth(file, true, classes);
      changed := changed || added;
    }
  }

  lemma {:induction false} WidthKeeps(lines: seq<string>, classes: seq<Class>)
    requires lines != [] && AllSound(classes)
    ensures AllSatisfied(lines, true, classes) ==> AllSatisfied(RegisteredAll(lines, false, classes), true, classes)
  {
    if AllSatisfied(lines, true, classes) {
      forall i | 0 <= i < |classes| ensures Satisfied(RegisteredAll(lines, false, classes), true, classes[i]) {
        AllStaySatisfied(lines, false, classes, true, classes[i]);
      }
    }
  }
}
