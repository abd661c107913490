// Searching text for a character, as strstr, str::lines and str::split do.

module TextSearch {

  /** Where c first occurs in s; |s| when it does not. */
  function Find(s: string, c: char): (i: nat)
    ensures i <= |s| && c !in s[..i]
    ensures i < |s| ==> s[i] == c
  {
    if s == [] then 0
    else if s[0] == c then 0
    else
      assert forall k :: 1 <= k <= |s| ==> s[..k] == [s[0]] + s[1..][..k - 1];
      1 + Find(s[1..], c)
  }

  lemma {:induction false} FindIs(s: string, c: char, n: nat)
    requires n <= |s| && c !in s[..n] && (n < |s| ==> s[n] == c)
    ensures Find(s, c) == n
    decreases n
  {
    if n > 0 {
      assert s[..n] == [s[0]] + s[1..][..n - 1];
      FindIs(s[1..], c, n - 1);
    }
  }
}
