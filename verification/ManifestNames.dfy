/** Which paths have a manifest stem, and what it is. */
module ManifestNames {
  import opened Options
  import opened Texts
  import opened Letters
  import opened Sxs

  /** Of a folder and a last component: what comes before .manifest in any case, if there
      is anything, cut to 207 characters. */
  lemma {:induction false} StemIs(path: string, dir: string, base: string)
    requires Parts(path, dir, base)
    ensures Stem(path) ==
      if 9 < |base| && SameLetters(base[|base| - 9..], ".manifest")
      then Some(if |base| - 9 <= 207 then base[..|base| - 9] else base[..207]) else None
  {
    if 9 <= |base| {
      LongBase(path, dir, base);
    } else if 9 <= |path| {
      ShortBase(path, dir, base);
    }
  }

  lemma {:induction false} LongBase(path: string, dir: string, base: string)
    requires Parts(path, dir, base) && 9 <= |base|
    ensures Stem(path) ==
      if 9 < |base| && SameLetters(base[|base| - 9..], ".manifest")
      then Some(if |base| - 9 <= 207 then base[..|base| - 9] else base[..207]) else None
  {
    var length, stem := |path| - 9, base[..|base| - 9];
    assert path[length..] == base[|base| - 9..];
    EndsAlike(base[|base| - 9..]);
    assert path[..length] == dir + stem;
    assert Parts(path[..length], dir, stem);
    LastStartIs(path, length, dir, stem);
    assert path[|dir|..length] == stem;
    if |stem| > 207 { assert stem[..207] == base[..207]; }
  }

  lemma {:induction false} EndsAlike(s: string)
    ensures SameLetters(s, ".manifest") <==> Lower(s) == Lower(SUFFIX)
  {
    FoldedAlike(s, ".manifest");
  }

  lemma {:induction false} ShortBase(path: string, dir: string, base: string)
    requires Parts(path, dir, base) && |base| < 9 <= |path|
    ensures Stem(path) == None
  {
    var n, i := |path| - 9, |dir| - 1;
    assert path[n..][i - n] == dir[i];
    assert Lower(path[n..])[i - n] == dir[i];
    assert Lower(SUFFIX) == ".manifest";
  }

  /** A buffer of `capacity` holds as much of the beginning as leaves a terminator. */
  lemma {:induction false} FittingIs(s: string, capacity: nat)
    requires 0 < capacity
    ensures Fitting(s, capacity) <= s
    ensures |Fitting(s, capacity)| == if |s| <= capacity - 1 then |s| else capacity - 1
  {
  }
}
