/** The five repairs of Wine's registry, and the texts they leave in it. */
module WineRepairs {
  import opened Options
  import opened Texts
  import opened RegistryLines
  import opened Registry
  import opened RegistryRepairs
  import opened RegistryTexts

  // ----- What is written, spelled out -----

  function Section(wow: bool, id: string, folder: bool): string {
    (if wow then "Software\\\\Classes\\\\Wow6432Node\\\\CLSID\\\\{" else "Software\\\\Classes\\\\CLSID\\\\{") + id
      + (if folder then "}\\\\ShellFolder" else "}\\\\InprocServer32")
  }

  /** The class `id` is served in one width: by the builtin module of that width and with
      its threading model where no server was there, and as before where one was. */
  ghost predicate Serves(before: seq<string>, after: seq<string>, wow: bool, id: string, dll: string, model: string) {
    var s := Section(wow, id, false);
    var path := (if wow then "\"C:\\\\windows\\\\syswow64\\\\" else "\"C:\\\\windows\\\\system32\\\\") + dll + "\"";
    var server, threading := Lookup(before, s, "@"), Lookup(before, s, "\"ThreadingModel\"");
    && Lookup(after, s, "@") == (if server == None then Some(path) else server)
    && Lookup(after, s, "\"ThreadingModel\"")
       == if server == None && threading == None then Some("\"" + model + "\"") else threading
  }

  /** The class is left alone in a width that is not projected. */
  ghost predicate LeavesAlone(before: seq<string>, after: seq<string>, wow: bool, id: string) {
    var s := Section(wow, id, false);
    && Lookup(after, s, "@") == Lookup(before, s, "@")
    && Lookup(after, s, "\"ThreadingModel\"") == Lookup(before, s, "\"ThreadingModel\"")
  }

  /** Serves the projected widths and leaves the others alone. */
  ghost predicate Provides(before: seq<string>, after: seq<string>, pe64: bool, pe32: bool, id: string, dll: string,
                           model: string) {
    && (if pe64 then Serves(before, after, false, id, dll, model) else LeavesAlone(before, after, false, id))
    && (if pe32 then Serves(before, after, true, id, dll, model) else LeavesAlone(before, after, true, id))
  }

  /** The shell folder's parsing flag, in a projected width with an empty text where there was none. */
  ghost predicate Parses(before: seq<string>, after: seq<string>, projected: bool, wow: bool, id: string) {
    var s := Section(wow, id, true);
    var parsing := Lookup(before, s, "\"WantsForParsing\"");
    Lookup(after, s, "\"WantsForParsing\"") == if projected && parsing == None then Some("\"\"") else parsing
  }

  lemma {:induction false} SpelledOut(wow: bool, c: Class)
    ensures Server(wow, c) == Section(wow, c.id, false) && Folder(wow, c) == Section(wow, c.id, true)
    ensures Path(wow, c) == (if wow then "\"C:\\\\windows\\\\syswow64\\\\" else "\"C:\\\\windows\\\\system32\\\\") + c.dll + "\""
    ensures THREADING == "\"ThreadingModel\"" && PARSING == "\"WantsForParsing\"" && Quoted(c.model) == "\"" + c.model + "\""
  {
    SectionShape(wow, c);
    assert KeyStart(wow) == if wow then "Software\\\\Classes\\\\Wow6432Node\\\\CLSID\\\\{" else "Software\\\\Classes\\\\CLSID\\\\{";
  }

  lemma {:induction false} ProvidesEach(lines: seq<string>, pe64: bool, pe32: bool, classes: seq<Class>, k: nat)
    requires lines != [] && AllSound(classes) && Different(classes) && k < |classes|
    ensures var r, c := Repaired(lines, pe64, pe32, classes), classes[k];
      && Provides(lines, r, pe64, pe32, c.id, c.dll, c.model)
      && Parses(lines, r, pe64 && c.folder, false, c.id) && Parses(lines, r, pe32 && c.folder, true, c.id)
  {
    RepairedServes(lines, pe64, pe32, classes, k);
    SpelledOut(false, classes[k]);
    SpelledOut(true, classes[k]);
  }

  // ----- The repairs -----

  /** Only digits, small letters and dashes. */
  predicate Written(id: string) {
    forall i :: 0 <= i < |id| ==> id[i] == '-' || '0' <= id[i] <= '9' || 'a' <= id[i] <= 'z'
  }

  lemma {:induction false} WrittenIsSound(c: Class)
    requires Written(c.id) && Free(c.dll, '\n') && Free(c.model, '\n')
    ensures Sound(c)
  {
  }

  lemma {:induction false} EnumeratorIsSound() ensures Sound(ENUMERATOR) { WrittenIsSound(ENUMERATOR); }
  lemma {:induction false} ProviderIsSound() ensures Sound(PROVIDER) { WrittenIsSound(PROVIDER); }
  lemma {:induction false} FolderIsSound() ensures Sound(FOLDER) { WrittenIsSound(FOLDER); }
  lemma {:induction false} Locator1IsSound() ensures Sound(LOCATOR1) { WrittenIsSound(LOCATOR1); }
  lemma {:induction false} Locator2IsSound() ensures Sound(LOCATOR2) { WrittenIsSound(LOCATOR2); }
  lemma {:induction false} Locator3IsSound() ensures Sound(LOCATOR3) { WrittenIsSound(LOCATOR3); }
  lemma {:induction false} DeviceIsSound() ensures Sound(DEVICE) { WrittenIsSound(DEVICE); }
  lemma {:induction false} MonikerIsSound() ensures Sound(MONIKER) { WrittenIsSound(MONIKER); }

  lemma {:induction false} ShippedAreSound()
    ensures AllSound(AudioEnumerator()) && AllSound(DxDiagProvider()) && AllSound(DocumentsFolder())
    ensures AllSound(WbemLocator()) && AllSound(MediaDevices())
  {
    EnumeratorIsSound();
    ProviderIsSound();
    FolderIsSound();
    Locator1IsSound();
    Locator2IsSound();
    Locator3IsSound();
    DeviceIsSound();
    MonikerIsSound();
  }

  lemma {:induction false} LocatorsDiffer()
    ensures Different(WbemLocator())
  {
    assert Lower(LOCATOR1.id)[0] == '4' && Lower(LOCATOR2.id)[0] == '6' && Lower(LOCATOR3.id)[0] == 'c';
  }

  lemma {:induction false} DevicesDiffer()
    ensures Different(MediaDevices())
  {
    assert Lower(DEVICE.id)[0] == '6' && Lower(MONIKER.id)[0] == '4';
  }

  method RegisterWineAudioEnumerator(file: RegistryFile, pe64: bool, pe32: bool) returns (changed: bool)
    modifies file
    ensures Lines(file.contents) == Repaired(Lines(old(file.contents)), pe64, pe32, AudioEnumerator())
    ensures !changed ==> file.contents == old(file.contents)
    ensures Provides(Lines(old(file.contents)), Lines(file.contents), pe64, pe32,
                     "bcde0395-e52f-467c-8e3d-c4579291692e", "mmdevapi.dll", "Both")
  {
    ShippedAreSound();
    ProvidesEach(Lines(file.contents), pe64, pe32, AudioEnumerator(), 0);
    changed := Repair(file, pe64, pe32, AudioEnumerator());
  }

  method RegisterWineDxDiagProvider(file: RegistryFile, pe64: bool, pe32: bool) returns (changed: bool)
    modifies file
    ensures Lines(file.contents) == Repaired(Lines(old(file.contents)), pe64, pe32, DxDiagProvider())
    ensures !changed ==> file.contents == old(file.contents)
    ensures Provides(Lines(old(file.contents)), Lines(file.contents), pe64, pe32,
                     "a65b8071-3bfe-4213-9a5b-491da4461ca7", "dxdiagn.dll", "Apartment")
  {
    ShippedAreSound();
    ProvidesEach(Lines(file.contents), pe64, pe32, DxDiagProvider(), 0);
    changed := Repair(file, pe64, pe32, DxDiagProvider());
  }

  method RegisterWineDocumentsFolder(file: RegistryFile, pe64: bool, pe32: bool) returns (changed: bool)
    modifies file
    ensures Lines(file.contents) == Repaired(Lines(old(file.contents)), pe64, pe32, DocumentsFolder())
    ensures !changed ==> file.contents == old(file.contents)
    ensures Provides(Lines(old(file.contents)), Lines(file.contents), pe64, pe32,
                     "450d8fba-ad25-11d0-98a8-0800361b1103", "shell32.dll", "Apartment")
    ensures Parses(Lines(old(file.contents)), Lines(file.contents), pe64, false, "450d8fba-ad25-11d0-98a8-0800361b1103")
    ensures Parses(Lines(old(file.contents)), Lines(file.contents), pe32, true, "450d8fba-ad25-11d0-98a8-0800361b1103")
  {
    ShippedAreSound();
    ProvidesEach(Lines(file.contents), pe64, pe32, DocumentsFolder(), 0);
    changed := Repair(file, pe64, pe32, DocumentsFolder());
  }

  method RegisterWineWbemLocator(file: RegistryFile, pe64: bool, pe32: bool) returns (changed: bool)
    modifies file
    ensures Lines(file.contents) == Repaired(Lines(old(file.contents)), pe64, pe32, WbemLocator())
    ensures !changed ==> file.contents == old(file.contents)
    ensures Provides(Lines(old(file.contents)), Lines(file.contents), pe64, pe32,
                     "4590f811-1d3a-11d0-891f-00aa004b2e24", "wbemprox.dll", "Both")
    ensures Provides(Lines(old(file.contents)), Lines(file.contents), pe64, pe32,
                     "674b6698-ee92-11d0-ad71-00c04fd8fdff", "wbemprox.dll", "Both")
    ensures Provides(Lines(old(file.contents)), Lines(file.contents), pe64, pe32,
                     "cb8555cc-9128-11d1-ad9b-00c04fd8fdff", "wbemprox.dll", "Both")
  {
    ShippedAreSound();
    LocatorsDiffer();
    ProvidesEach(Lines(file.contents), pe64, pe32, WbemLocator(), 0);
    ProvidesEach(Lines(file.contents), pe64, pe32, WbemLocator(), 1);
    ProvidesEach(Lines(file.contents), pe64, pe32, WbemLocator(), 2);
    changed := Repair(file, pe64, pe32, WbemLocator());
  }

  method RegisterWineMediaDeviceEnumerator(file: RegistryFile, pe64: bool, pe32: bool) returns (changed: bool)
    modifies file
    ensures Lines(file.contents) == Repaired(Lines(old(file.contents)), pe64, pe32, MediaDevices())
    ensures !changed ==> file.contents == old(file.contents)
    ensures Provides(Lines(old(file.contents)), Lines(file.contents), pe64, pe32,
                     "62be5d10-60eb-11d0-bd3b-00a0c911ce86", "devenum.dll", "Both")
    ensures Provides(Lines(old(file.contents)), Lines(file.contents), pe64, pe32,
                     "4315d437-5b8c-11d0-bd3b-00a0c911ce86", "devenum.dll", "Both")
  {
    ShippedAreSound();
    DevicesDiffer();
    ProvidesEach(Lines(file.contents), pe64, pe32, MediaDevices(), 0);
    ProvidesEach(Lines(file.contents), pe64, pe32, MediaDevices(), 1);
    changed := Repair(file, pe64, pe32, MediaDevices());
  }

  /** Each of the five repairs, run again, leaves the file as the first run did and
      reports no change. */
  method RunAgain(file: RegistryFile, pe64: bool, pe32: bool, classes: seq<Class>) returns (first: bool, second: bool)
    requires classes in {AudioEnumerator(), DxDiagProvider(), DocumentsFolder(), WbemLocator(), MediaDevices()}
    modifies file
    ensures Lines(file.contents) == Repaired(Lines(old(file.contents)), pe64, pe32, classes)
    ensures !second
  {
    ShippedAreSound();
    first := Repair(file, pe64, pe32, classes);
    RepairedOnce(Lines(old(file.contents)), pe64, pe32, classes);
    second := Repair(file, pe64, pe32, classes);
  }
}
