/** `indexOf`, `split`, `join` and `trim`, on strings and on bytes. */
module Text {

  predicate OccursAt<T(==)>(s: seq<T>, p: seq<T>, i: int) {
    0 <= i <= |s| - |p| && s[i..i + |p|] == p
  }

  ghost predicate Contains<T>(s: seq<T>, p: seq<T>) {
    exists i :: OccursAt(s, p, i)
  }

  /** The first place where `p` occurs in `s`, or -1. */
  function IndexOf<T(==)>(s: seq<T>, p: seq<T>): (r: int)
    ensures r == -1 <==> !Contains(s, p)
    ensures r != -1 ==> OccursAt(s, p, r)
    ensures forall i :: OccursAt(s, p, i) ==> r <= i
  {
    IndexFrom(s, p, 0)
  }

  function IndexFrom<T(==)>(s: seq<T>, p: seq<T>, from: nat): (r: int)
    requires forall i :: OccursAt(s, p, i) ==> from <= i
    ensures r == -1 <==> !Contains(s, p)
    ensures r != -1 ==> OccursAt(s, p, r)
    ensures forall i :: OccursAt(s, p, i) ==> r <= i
    decreases |s| - from
  {
    if OccursAt(s, p, from) then from
    else if from >= |s| then -1
    else IndexFrom(s, p, from + 1)
  }

  /** What `indexOf` finds is settled by any later place where `p` occurs. */
  lemma IndexOfInPrefix<T>(s: seq<T>, t: seq<T>, p: seq<T>)
    requires Contains(s, p)
    ensures IndexOf(s + t, p) == IndexOf(s, p)
  {
    var i := IndexOf(s, p);
    assert (s + t)[i..i + |p|] == s[i..i + |p|];
    assert OccursAt(s + t, p, i);
    var j := IndexOf(s + t, p);
    assert (s + t)[j..j + |p|] == s[j..j + |p|];
    assert OccursAt(s, p, j);
  }

  predicate IsSpace(c: char) {
    || c in " \t\n\r"
    || c in {'\U{0B}', '\U{0C}', '\U{A0}', '\U{1680}', '\U{2028}', '\U{2029}', '\U{202F}', '\U{205F}'}
    || c in {'\U{3000}', '\U{FEFF}'}
    || '\U{2000}' <= c <= '\U{200A}'
  }

  predicate IsLineBreak(c: char) {
    c in {'\n', '\r', '\U{2028}', '\U{2029}'}
  }

  function TrimStart(s: string): string {
    if s != [] && IsSpace(s[0]) then TrimStart(s[1..]) else s
  }

  function TrimEnd(s: string): string {
    if s != [] && IsSpace(s[|s| - 1]) then TrimEnd(s[..|s| - 1]) else s
  }
}
