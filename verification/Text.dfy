/** Searching in strings. */
module Text {

  /** The first position of a character, or the length without one. */
  function Find(s: string, c: char): (k: nat)
    ensures k <= |s| && c !in s[..k] && (k < |s| ==> s[k] == c)
  {
    if s == [] || s[0] == c then 0
    else
      assert s[..1 + Find(s[1..], c)] == [s[0]] + s[1..][..Find(s[1..], c)];
      1 + Find(s[1..], c)
  }

  lemma {:induction false} FindAfter(a: string, rest: string, c: char)
    requires c !in a
    ensures Find(a + [c] + rest, c) == |a|
  {
    var s := a + [c] + rest;
    if a != [] {
      assert s[0] == a[0] && s[1..] == a[1..] + [c] + rest;
      FindAfter(a[1..], rest, c);
    }
  }

  lemma {:induction false} FindNone(s: string, c: char)
    requires c !in s
    ensures Find(s, c) == |s|
  {
    if s != [] {
      FindNone(s[1..], c);
    }
  }
}
