/** Strings that end at their first NUL. */
module CStrings {

  function CString(s: string): (t: string)
    ensures |t| <= |s| && t == s[..|t|] && (|t| < |s| ==> s[|t|] == '\0')
    ensures forall i :: 0 <= i < |t| ==> t[i] != '\0'
  {
    if s == "" || s[0] == '\0' then "" else [s[0]] + CString(s[1..])
  }

  lemma {:induction false} WholeCString(s: string)
    requires forall i :: 0 <= i < |s| ==> s[i] != '\0'
    ensures CString(s) == s
  {
    if s != "" {
      WholeCString(s[1..]);
    }
  }

  /** The character at a place of a string that is ended by a NUL. */
  function At(s: string, i: nat): char { if i < |s| then s[i] else '\0' }

  lemma AtCString(s: string, i: nat)
    requires i <= |CString(s)|
    ensures At(s, i) == if i < |CString(s)| then CString(s)[i] else '\0'
  {
  }
}
