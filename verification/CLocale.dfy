/**
 Letter case in the "C" locale, which both the INI store and the directory walker use.
 */
module CLocale {

  function ToLower(c: char): (r: char)
    ensures ToLowerFixed(r)
    ensures c == '\0' <==> r == '\0'
  {
    if 'A' <= c <= 'Z' then c - 'A' + 'a' else c
  }

  predicate ToLowerFixed(c: char) { !('A' <= c <= 'Z') }

  const Capitals := "ABCDEFGHIJKLMNOPQRSTUVWXYZ"
  const Smalls := "abcdefghijklmnopqrstuvwxyz"

  /** Each capital becomes its own small letter. */
  lemma LowerTable(i: nat)
    requires i < 26
    ensures ToLower(Capitals[i]) == Smalls[i] && ToLower(Smalls[i]) == Smalls[i]
  {
  }

  lemma CapitalAt(c: char)
    requires 'A' <= c <= 'Z'
    ensures Capitals[(c - 'A') as nat] == c && Smalls[(c - 'A') as nat] == c - 'A' + 'a'
  {
  }

  /** And nothing else changes. */
  lemma OthersStay(c: char)
    ensures c in Capitals || ToLower(c) == c
  {
    if 'A' <= c <= 'Z' { CapitalAt(c); }
  }

  /** The same letter but for its case, or the same character. */
  ghost predicate SameLetter(a: char, b: char) {
    a == b || exists i: nat :: i < 26 && TwoForms(a, b, i)
  }

  predicate TwoForms(a: char, b: char, i: nat)
    requires i < 26
  {
    (a == Capitals[i] && b == Smalls[i]) || (a == Smalls[i] && b == Capitals[i])
  }

  /** Lower-casing makes equal exactly what differs in case only. */
  lemma LowerEqual(a: char, b: char)
    ensures ToLower(a) == ToLower(b) <==> SameLetter(a, b)
  {
    if a != b && ToLower(a) == ToLower(b) {
      if 'A' <= a <= 'Z' {
        CapitalAt(a);
        assert TwoForms(a, b, (a - 'A') as nat);
      } else {
        CapitalAt(b);
        assert TwoForms(a, b, (b - 'A') as nat);
      }
    }
    if i: nat :| i < 26 && TwoForms(a, b, i) { LowerTable(i); }
  }

  function Lower(s: string): (r: string)
    ensures |r| == |s|
    ensures forall i :: 0 <= i < |s| ==> r[i] == ToLower(s[i])
  {
    seq(|s|, i requires 0 <= i < |s| => ToLower(s[i]))
  }

  predicate IsLower(s: string) { Lower(s) == s }

  lemma LowerTwice(s: string)
    ensures IsLower(Lower(s))
  {
  }
}
