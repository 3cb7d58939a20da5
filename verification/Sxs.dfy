/** Side-by-side assemblies: the file name a manifest is staged under, the parser
    that reads it back, and the queue of reports. */
module Sxs {
  import opened Options
  import opened Texts

  const NAME_MAX := 96
  const VERSION_MAX := 32
  const ARCH_MAX := 16
  const STEM_MAX := NAME_MAX + VERSION_MAX + ARCH_MAX + 64
  const SLOTS := 8
  const SUFFIX := ".manifest"
  const TRAILER := "deadbeef"

  datatype Report = Report(assembly: string, version: string, arch: string, source: string, status: string)

  predicate OneComponent(s: string) {
    forall i :: 0 <= i < |s| ==> !Separator(s[i])
  }

  // ----- The staging script's name -----

  function Joined(arch: string, name: string, key: string, version: string, language: string, trailer: string): string {
    arch + "_" + name + "_" + key + "_" + version + "_" + language + "_" + trailer
  }

  function AssemblyBase(arch: string, name: string, key: string, version: string, language: string): string {
    Lower(Joined(arch, name, key, version, language, TRAILER))
  }

  // ----- The stem of a manifest path -----

  predicate EndsWith(path: string, suffix: string) {
    suffix != "" && |suffix| <= |path| && Lower(path[|path| - |suffix|..]) == Lower(suffix)
  }

  /** What fits a buffer with its terminator. */
  function Fitting(s: string, capacity: nat): string
    requires 0 < capacity
  {
    if |s| < capacity then s else s[..capacity - 1]
  }

  function Stem(path: string): Option<string> {
    if !EndsWith(path, SUFFIX) then None
    else
      var length := |path| - |SUFFIX|;
      var start := LastStart(path, length);
      if start == length then None else Some(Fitting(path[start..length], STEM_MAX))
  }

  method ReadStem(path: string) returns (stem: Option<string>)
    ensures stem == Stem(path)
  {
    if !EndsWith(path, SUFFIX) {
      return None;
    }
    var length := |path| - |SUFFIX|;
    var start := length;
    while start > 0 && !Separator(path[start - 1])
      invariant 0 <= start <= length && LastStart(path, start) == LastStart(path, length)
    {
      start := start - 1;
    }
    if start == length {
      return None;
    }
    var copied := Copy(path[start..length], STEM_MAX);
    return Some(copied);
  }

  method Copy(s: string, capacity: nat) returns (out: string)
    requires 0 < capacity
    ensures out == Fitting(s, capacity)
  {
    out := "";
    while |out| < |s| && |out| + 1 < capacity
      invariant |out| <= |s| && |out| < capacity && out == s[..|out|]
      decreases |s| - |out|
    {
      out := out + [s[|out|]];
    }
  }

  /** A path to a file of that name gives the name back. */
  lemma {:induction false} StemOfPath(dir: string, base: string)
    requires OneComponent(base) && 0 < |base| < STEM_MAX
    requires dir == "" || Separator(dir[|dir| - 1])
    ensures Stem(dir + base + SUFFIX) == Some(base)
  {
    var path := dir + base + SUFFIX;
    assert path[|path| - |SUFFIX|..] == SUFFIX;
    var length := |path| - |SUFFIX|;
    var start := LastStart(path, length);
    assert forall i :: |dir| <= i < length ==> path[i] == base[i - |dir|];
    assert path[|dir|..length] == base;
  }

  // ----- Parsing a stem -----

  /** The last underscore before `n`, or -1. */
  function LastMark(s: string, n: nat): (i: int)
    requires n <= |s|
    ensures -1 <= i < n && (0 <= i ==> s[i] == '_') && forall j :: i < j < n ==> s[j] != '_'
  {
    if n == 0 then -1 else if s[n - 1] == '_' then n - 1 else LastMark(s, n - 1)
  }

  /** Underscore number `k` from the right, counted from zero, or -1. */
  function Mark(s: string, k: nat): (i: int)
    ensures -1 <= i < |s|
  {
    if k == 0 then LastMark(s, |s|)
    else if Mark(s, k - 1) < 0 then -1 else LastMark(s, Mark(s, k - 1))
  }

  /** The first underscore, or the end. */
  function FirstMark(s: string): (i: nat)
    ensures i <= |s| && (i < |s| ==> s[i] == '_') && forall j :: 0 <= j < i ==> s[j] != '_'
  {
    if s == "" || s[0] == '_' then 0 else 1 + FirstMark(s[1..])
  }

  lemma {:induction false} MarksFall(s: string)
    requires 0 <= Mark(s, 4)
    ensures 0 <= Mark(s, 3) < Mark(s, 2) < Mark(s, 1) < Mark(s, 0) < |s| && Mark(s, 4) < Mark(s, 3)
  {
    MarkFalls(s, 3);
    MarkFalls(s, 2);
    MarkFalls(s, 1);
    MarkFalls(s, 0);
  }

  lemma {:induction false} MarkFalls(s: string, k: nat)
    requires 0 <= Mark(s, k + 1)
    ensures Mark(s, k + 1) < Mark(s, k)
  {
  }

  function Parse(stem: string): Option<Report> {
    if Mark(stem, 4) < 0 then None
    else
      MarksFall(stem);
      ParseAt(stem, FirstMark(stem), Mark(stem, 1), Mark(stem, 2), Mark(stem, 3))
  }

  /** The report, given where the architecture ends and three of the marks. */
  function ParseAt(stem: string, archEnd: nat, m1: nat, m2: nat, m3: nat): Option<Report>
    requires archEnd <= |stem| && m3 < m2 < m1 < |stem|
  {
    if archEnd == 0 || archEnd >= m3 then None
    else
      var arch := Fitting(stem[..archEnd], ARCH_MAX);
      var name := Fitting(stem[archEnd + 1..m3], NAME_MAX);
      var version := Fitting(stem[m2 + 1..m1], VERSION_MAX);
      if name == "" || version == "" then None
      else Some(Report(name, version, arch, "none", "not-found"))
  }

  /** Underscores from the right, up to five. */
  method FindMarks(stem: string) returns (marks: seq<nat>)
    ensures |marks| <= 5 && forall k :: 0 <= k < |marks| ==> marks[k] == Mark(stem, k)
    ensures if |marks| < 5 then Mark(stem, 4) < 0 else 0 <= Mark(stem, 4)
  {
    marks := [];
    var at := |stem|;
    while at > 0 && |marks| < 5
      invariant 0 <= at <= |stem| && |marks| <= 5
      invariant forall k :: 0 <= k < |marks| ==> marks[k] == Mark(stem, k)
      invariant |marks| < 5 ==> Mark(stem, |marks|) == LastMark(stem, at)
      decreases at
    {
      at := at - 1;
      if stem[at] == '_' {
        marks := marks + [at];
      }
    }
    if |marks| < 5 { NoMoreMarks(stem, |marks|, 4); }
  }

  method FindArchEnd(stem: string) returns (archEnd: nat)
    ensures archEnd == FirstMark(stem)
  {
    archEnd := 0;
    while archEnd < |stem| && stem[archEnd] != '_'
      invariant archEnd <= |stem| && forall j :: 0 <= j < archEnd ==> stem[j] != '_'
    {
      archEnd := archEnd + 1;
    }
  }

  method ParseManifestStem(stem: string) returns (report: Option<Report>)
    ensures report == Parse(stem)
  {
    var length := |stem|;
    if length == 0 {
      return None;
    }
    var marks := FindMarks(stem);
    if |marks| < 5 {
      return None;
    }
    MarksFall(stem);
    var archEnd := FindArchEnd(stem);
    report := ReadFields(stem, archEnd, marks[1], marks[2], marks[3]);
  }

  method ReadFields(stem: string, archEnd: nat, m1: nat, m2: nat, m3: nat) returns (report: Option<Report>)
    requires archEnd <= |stem| && m3 < m2 < m1 < |stem|
    ensures report == ParseAt(stem, archEnd, m1, m2, m3)
  {
    if archEnd == 0 || archEnd >= m3 {
      return None;
    }
    var arch := Copy(stem[..archEnd], ARCH_MAX);
    var name := Copy(stem[archEnd + 1..m3], NAME_MAX);
    var version := Copy(stem[m2 + 1..m1], VERSION_MAX);
    return if name == "" || version == "" then None else Some(Report(name, version, arch, "none", "not-found"));
  }

  lemma {:induction false} NoMoreMarks(s: string, k: nat, n: nat)
    requires k <= n && Mark(s, k) < 0
    ensures Mark(s, n) < 0
  {
    if k < n { NoMoreMarks(s, k, n - 1); }
  }

  lemma {:induction false} LastMarkIs(s: string, n: nat, i: nat)
    requires i < n <= |s| && s[i] == '_' && forall j :: i < j < n ==> s[j] != '_'
    ensures LastMark(s, n) == i
  {
    var k := LastMark(s, n);
  }

  /** Where the fields of a printed name meet. */
  lemma {:induction false} MarksOf(arch: string, name: string, key: string, version: string, language: string,
                                   trailer: string)
    requires Free(arch, '_') && Free(key, '_') && Free(version, '_') && Free(language, '_') && Free(trailer, '_')
    ensures var s := Joined(arch, name, key, version, language, trailer);
      && FirstMark(s) == |arch| && 0 <= Mark(s, 4)
      && Mark(s, 3) == |arch| + 1 + |name|
      && Mark(s, 2) == Mark(s, 3) + 1 + |key|
      && Mark(s, 1) == Mark(s, 2) + 1 + |version|
  {
    var s := Joined(arch, name, key, version, language, trailer);
    var a1 := arch + "_" + name;
    var a2 := a1 + "_" + key;
    var a3 := a2 + "_" + version;
    var a4 := a3 + "_" + language;
    assert s == a4 + "_" + trailer + "" == a3 + "_" + language + ("_" + trailer);
    NextMark(s, 0, a4, trailer, "");
    NextMark(s, 1, a3, language, "_" + trailer);
    assert s == a2 + "_" + version + ("_" + language + "_" + trailer);
    NextMark(s, 2, a2, version, "_" + language + "_" + trailer);
    assert s == a1 + "_" + key + ("_" + version + "_" + language + "_" + trailer);
    NextMark(s, 3, a1, key, "_" + version + "_" + language + "_" + trailer);
    assert arch + "_" <= s;
    FirstField(s, arch);
    assert s[|arch|] == '_';
  }

  /** The mark before the field that ends at the mark before. */
  lemma {:induction false} NextMark(s: string, k: nat, left: string, field: string, right: string)
    requires Free(field, '_') && s == left + "_" + field + right
    requires if k == 0 then right == "" else Mark(s, k - 1) == |left| + 1 + |field|
    ensures Mark(s, k) == |left|
  {
    FieldIn(s, left, field, right);
  }

  lemma {:induction false} FirstField(s: string, arch: string)
    requires arch + "_" <= s && Free(arch, '_')
    ensures FirstMark(s) == |arch|
  {
    assert s[|arch|] == (arch + "_")[|arch|];
    assert forall i :: 0 <= i < |arch| ==> s[i] == (arch + "_")[i] == arch[i];
    var i := FirstMark(s);
  }

  lemma {:induction false} FieldIn(s: string, left: string, field: string, right: string)
    requires Free(field, '_') && s == left + "_" + field + right
    ensures LastMark(s, |left| + 1 + |field|) == |left|
  {
    Field(left, field, right);
  }

  lemma {:induction false} Field(left: string, field: string, right: string)
    requires Free(field, '_')
    ensures LastMark(left + "_" + field + right, |left| + 1 + |field|) == |left|
  {
    var s := left + "_" + field + right;
    assert forall j :: |left| < j < |left| + 1 + |field| ==> s[j] == field[j - |left| - 1];
    LastMarkIs(s, |left| + 1 + |field|, |left|);
  }

  /** Parsing a printed name gives back its fields, whatever underscores the
      assembly's own name holds. */
  lemma {:induction false} ParseJoined(arch: string, name: string, key: string, version: string, language: string,
                                       trailer: string)
    requires Free(arch, '_') && Free(key, '_') && Free(version, '_') && Free(language, '_') && Free(trailer, '_')
    ensures Parse(Joined(arch, name, key, version, language, trailer)) ==
      if arch == "" || name == "" || version == "" then None
      else Some(Report(Fitting(name, NAME_MAX), Fitting(version, VERSION_MAX), Fitting(arch, ARCH_MAX),
                       "none", "not-found"))
  {
    var s := Joined(arch, name, key, version, language, trailer);
    var m3 := |arch| + 1 + |name|;
    var m2 := m3 + 1 + |key|;
    MarksOf(arch, name, key, version, language, trailer);
    ParseWith(s, |arch|, m2 + 1 + |version|, m2, m3);
    FieldsAt(arch, name, key, version, language, trailer);
    ReportOf(s, arch, name, version, m2 + 1 + |version|, m2, m3);
  }

  lemma {:induction false} ReportOf(s: string, arch: string, name: string, version: string, m1: nat, m2: nat, m3: nat)
    requires |arch| < m3 < m2 < m1 < |s|
    requires s[..|arch|] == arch && s[|arch| + 1..m3] == name && s[m2 + 1..m1] == version
    ensures ParseAt(s, |arch|, m1, m2, m3) ==
      if arch == "" || name == "" || version == "" then None
      else Some(Report(Fitting(name, NAME_MAX), Fitting(version, VERSION_MAX), Fitting(arch, ARCH_MAX),
                       "none", "not-found"))
  {
  }

  lemma {:induction false} ParseWith(s: string, archEnd: nat, m1: nat, m2: nat, m3: nat)
    requires 0 <= Mark(s, 4) && FirstMark(s) == archEnd && Mark(s, 1) == m1 && Mark(s, 2) == m2 && Mark(s, 3) == m3
    ensures m3 < m2 < m1 < |s| && Parse(s) == ParseAt(s, archEnd, m1, m2, m3)
  {
    MarksFall(s);
  }

  lemma {:induction false} FieldsAt(arch: string, name: string, key: string, version: string, language: string,
                                    trailer: string)
    ensures var s := Joined(arch, name, key, version, language, trailer);
      var m3 := |arch| + 1 + |name|;
      var m2 := m3 + 1 + |key|;
      && s[..|arch|] == arch && s[|arch| + 1..m3] == name
      && m2 + 1 + |version| < |s| && s[m2 + 1..m2 + 1 + |version|] == version
  {
  }

  /** Only printed names parse. */
  lemma {:induction false} ParsedIsJoined(stem: string) returns (name: string, key: string, version: string,
                                                                 language: string, trailer: string, arch: string)
    requires Parse(stem).Some?
    ensures stem == Joined(arch, name, key, version, language, trailer)
    ensures Free(arch, '_') && Free(key, '_') && Free(version, '_') && Free(language, '_') && Free(trailer, '_')
    ensures arch != "" && name != "" && version != ""
  {
    MarksFall(stem);
    var m0, m1, m2, m3 := Mark(stem, 0), Mark(stem, 1), Mark(stem, 2), Mark(stem, 3);
    arch := stem[..FirstMark(stem)];
    name := stem[FirstMark(stem) + 1..m3];
    key := stem[m3 + 1..m2];
    version := stem[m2 + 1..m1];
    language := stem[m1 + 1..m0];
    trailer := stem[m0 + 1..];
    assert stem[..|stem|] == stem && stem[..m3] == arch + "_" + name;
    Piece(stem, m3, m2);
    Piece(stem, m2, m1);
    Piece(stem, m1, m0);
    Piece(stem, m0, |stem|);
  }

  lemma {:induction false} Piece(s: string, a: int, b: nat)
    requires b <= |s| && 0 <= a && a == LastMark(s, b)
    ensures Free(s[a + 1..b], '_') && s[..b] == s[..a] + "_" + s[a + 1..b]
  {
  }

  lemma {:induction false} LowerJoined(arch: string, name: string, key: string, version: string, language: string,
                                       trailer: string)
    ensures Lower(Joined(arch, name, key, version, language, trailer))
      == Joined(Lower(arch), Lower(name), Lower(key), Lower(version), Lower(language), Lower(trailer))
  {
  }

  /** The manifest staged for an assembly is read back as that assembly, lowercased
      and cut to the report's buffers. */
  lemma {:induction false} StagedIsRead(dir: string, arch: string, name: string, key: string, version: string,
                                        language: string)
    requires Free(arch, '_') && Free(key, '_') && Free(version, '_') && Free(language, '_')
    requires arch != "" && name != "" && version != ""
    requires var base := AssemblyBase(arch, name, key, version, language);
      OneComponent(base) && |base| < STEM_MAX
    requires dir == "" || Separator(dir[|dir| - 1])
    ensures var base := AssemblyBase(arch, name, key, version, language);
      && Stem(dir + base + SUFFIX) == Some(base)
      && Parse(base) == Some(Report(Fitting(Lower(name), NAME_MAX), Fitting(Lower(version), VERSION_MAX),
                                    Fitting(Lower(arch), ARCH_MAX), "none", "not-found"))
  {
    StemOfPath(dir, AssemblyBase(arch, name, key, version, language));
    BaseParses(arch, name, key, version, language);
  }

  lemma {:induction false} LowerMarkFree(s: string)
    requires Free(s, '_')
    ensures Free(Lower(s), '_')
  {
  }

  lemma {:induction false} BaseParses(arch: string, name: string, key: string, version: string, language: string)
    requires Free(arch, '_') && Free(key, '_') && Free(version, '_') && Free(language, '_')
    requires arch != "" && name != "" && version != ""
    ensures Parse(AssemblyBase(arch, name, key, version, language))
      == Some(Report(Fitting(Lower(name), NAME_MAX), Fitting(Lower(version), VERSION_MAX),
                     Fitting(Lower(arch), ARCH_MAX), "none", "not-found"))
  {
    LowerMarkFree(arch);
    LowerMarkFree(key);
    LowerMarkFree(version);
    LowerMarkFree(language);
    LowerMarkFree(TRAILER);
    LowerJoined(arch, name, key, version, language, TRAILER);
    ParseJoined(Lower(arch), Lower(name), Lower(key), Lower(version), Lower(language), Lower(TRAILER));
  }
}
