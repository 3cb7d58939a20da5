/** Text as the trace and registry code sees it: case folding of ASCII letters,
    path components, and names free of a character. */
module Texts {
  function LowerChar(c: char): char {
    if 'A' <= c <= 'Z' then c - 'A' + 'a' else c
  }

  function Lower(s: string): (l: string)
    ensures |l| == |s| && forall i :: 0 <= i < |s| ==> l[i] == LowerChar(s[i])
  {
    seq(|s|, i requires 0 <= i < |s| => LowerChar(s[i]))
  }

  predicate Free(s: string, c: char) {
    forall i :: 0 <= i < |s| ==> s[i] != c
  }

  predicate Separator(c: char) { c == '/' || c == '\\' }

  /** The start of the last component of the first `n` characters. */
  function LastStart(path: string, n: nat): (s: nat)
    requires n <= |path|
    ensures s <= n && (0 < s ==> Separator(path[s - 1]))
    ensures forall i :: s <= i < n ==> !Separator(path[i])
  {
    if 0 < n && !Separator(path[n - 1]) then LastStart(path, n - 1) else n
  }

  /** A path as a folder, which is empty or ends in a slash or backslash, and a last
      component with neither. */
  ghost predicate Parts(path: string, dir: string, base: string) {
    && path == dir + base && (dir == "" || dir[|dir| - 1] == '/' || dir[|dir| - 1] == '\\')
    && forall i :: 0 <= i < |base| ==> base[i] != '/' && base[i] != '\\'
  }

  /** The last component starts there, and at no other place. */
  lemma {:induction false} LastStartIs(path: string, n: nat, dir: string, base: string)
    requires n <= |path| && Parts(path[..n], dir, base)
    ensures LastStart(path, n) == |dir|
  {
    var s := LastStart(path, n);
    assert forall i :: 0 <= i < |dir| ==> path[i] == path[..n][i] == dir[i];
    assert forall i :: |dir| <= i < n ==> path[i] == path[..n][i] == base[i - |dir|];
  }
}
