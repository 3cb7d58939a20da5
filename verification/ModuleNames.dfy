/** Which paths name a module, and which name the same one. */
module ModuleNames {
  import opened Options
  import opened Texts
  import opened Letters
  import opened DllSearch

  /** Of a folder and a last component: the component in small letters, when it ends in
      .dll in any case and has from 4 to 63 characters. */
  lemma {:induction false} NameIs(path: string, dir: string, base: string)
    requires Parts(path, dir, base)
    ensures ModuleName(path) ==
      if 4 <= |base| < 64 && SameLetters(base[|base| - 4..], ".dll") then Some(Lower(base)) else None
  {
    assert path[..|path|] == path;
    LastStartIs(path, |path|, dir, base);
    if 4 <= |base| {
      LongBase(path, dir, base);
    } else if 4 <= |path| {
      ShortBase(path, dir, base);
    }
  }

  lemma {:induction false} LongBase(path: string, dir: string, base: string)
    requires path == dir + base && LastStart(path, |path|) == |dir| && 4 <= |base|
    ensures ModuleName(path) == if |base| < 64 && SameLetters(base[|base| - 4..], ".dll") then Some(Lower(base)) else None
  {
    assert path[|dir|..] == base && path[|path| - 4..] == base[|base| - 4..];
    EndsAlike(base[|base| - 4..]);
  }

  lemma {:induction false} EndsAlike(s: string)
    ensures SameLetters(s, ".dll") <==> Lower(s) == ".dll"
  {
    FoldedAlike(s, ".dll");
    assert Lower(".dll") == ".dll";
  }

  lemma {:induction false} ShortBase(path: string, dir: string, base: string)
    requires Parts(path, dir, base) && |base| < 4 <= |path|
    ensures Lower(path[|path| - 4..]) != ".dll"
  {
    var i := |dir| - 1;
    assert path[|path| - 4..][i - (|path| - 4)] == dir[i];
    assert Lower(path[|path| - 4..])[i - (|path| - 4)] == dir[i];
  }

  /** Paths that differ in the case of letters only name the same module, if any. */
  lemma {:induction false} SameModule(p: string, q: string)
    requires SameLetters(p, q)
    ensures ModuleName(p) == ModuleName(q)
  {
    var s := LastStart(p, |p|);
    var base, base' := p[s..], q[s..];
    SameStart(p, q, s);
    NameIs(p, p[..s], base);
    NameIs(q, q[..s], base');
    TailAlike(p, q, s);
    FoldedAlike(base, base');
    if 4 <= |base| { SameEnding(base, base'); }
  }

  lemma {:induction false} SameEnding(s: string, t: string)
    requires SameLetters(s, t) && 4 <= |s|
    ensures SameLetters(s[|s| - 4..], ".dll") <==> SameLetters(t[|t| - 4..], ".dll")
  {
    TailAlike(s, t, |s| - 4);
    AlikeToo(s[|s| - 4..], t[|t| - 4..], ".dll");
  }

  lemma {:induction false} SameStart(p: string, q: string, s: nat)
    requires SameLetters(p, q) && s == LastStart(p, |p|)
    ensures Parts(p, p[..s], p[s..]) && Parts(q, q[..s], q[s..])
  {
    forall i | 0 <= i < |p| ensures Separator(p[i]) <==> Separator(q[i]) { SeparatesAlike(p[i], q[i]); }
    PartsAt(p, s);
    PartsAt(q, s);
  }

  lemma {:induction false} PartsAt(path: string, s: nat)
    requires s <= |path| && (s == 0 || Separator(path[s - 1]))
    requires forall i :: s <= i < |path| ==> !Separator(path[i])
    ensures Parts(path, path[..s], path[s..])
  {
  }
}
