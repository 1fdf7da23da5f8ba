/**
 * The two ECMAScript string routines the filter relies on, written out over
 * strings of Unicode characters: `String.prototype.trim` (every trimmable
 * character lies in the Basic Multilingual Plane, so this is exact) and the
 * substring search of `String.prototype.indexOf`, whose positions count
 * characters rather than UTF-16 code units. Diacritic stripping and upper-casing
 * are not modelled here; the filter takes them as a parameter.
 */
module Texts {

  /** ECMAScript WhiteSpace or LineTerminator: the code points `trim` removes. */
  predicate IsTrimmable(c: char) {
    || c == '\t' || c == '\U{000B}' || c == '\U{000C}' || c == ' ' || c == '\U{00A0}'
    || c == '\U{FEFF}' || c == '\U{1680}' || ('\U{2000}' <= c <= '\U{200A}')
    || c == '\U{202F}' || c == '\U{205F}' || c == '\U{3000}'
    || c == '\n' || c == '\r' || c == '\U{2028}' || c == '\U{2029}'
  }

  /** `s` with its leading trimmable characters removed. */
  function TrimStart(s: string): (r: string)
    ensures |r| <= |s| && r == s[|s| - |r|..]
    ensures forall i :: 0 <= i < |s| - |r| ==> IsTrimmable(s[i])
    ensures r == [] || !IsTrimmable(r[0])
  {
    if s != [] && IsTrimmable(s[0]) then
      var r := TrimStart(s[1..]);
      assert forall i :: 1 <= i < |s| ==> s[i] == s[1..][i - 1];
      r
    else s
  }

  /** `s` with its trailing trimmable characters removed. */
  function TrimEnd(s: string): (r: string)
    ensures |r| <= |s| && r == s[..|r|]
    ensures forall i :: |r| <= i < |s| ==> IsTrimmable(s[i])
    ensures r == [] || !IsTrimmable(r[|r| - 1])
  {
    if s != [] && IsTrimmable(s[|s| - 1]) then TrimEnd(s[..|s| - 1]) else s
  }

  /** JavaScript's `s.trim()`. */
  function Trim(s: string): (r: string) {
    TrimEnd(TrimStart(s))
  }

  /** `term.trim() === ''` holds exactly when every character of the term is trimmable. */
  lemma TrimIsEmptyIffAllTrimmable(s: string)
    ensures Trim(s) == "" <==> forall i :: 0 <= i < |s| ==> IsTrimmable(s[i])
  {
    var a := TrimStart(s);
    if !forall i :: 0 <= i < |s| ==> IsTrimmable(s[i]) {
      var i :| 0 <= i < |s| && !IsTrimmable(s[i]);
      assert a != [];
      assert !IsTrimmable(a[0]);
    }
  }

  /** `t` occurs in `s` starting at position `p`. */
  predicate OccursAt(s: string, t: string, p: nat) {
    p + |t| <= |s| && s[p..p + |t|] == t
  }

  /**
   * The search of JavaScript's `s.indexOf(t)`: the first position where `t` occurs in `s`,
   * or -1. Positions count characters, not UTF-16 code units; `> -1` agrees either way.
   */
  function IndexOf(s: string, t: string): (r: int)
    ensures -1 <= r <= |s|
    ensures r >= 0 ==> OccursAt(s, t, r) && forall p :: 0 <= p < r ==> !OccursAt(s, t, p)
    ensures r == -1 ==> forall p: nat :: !OccursAt(s, t, p)
    decreases |s|
  {
    if |t| > |s| then -1
    else if s[..|t|] == t then 0
    else
      var r := IndexOf(s[1..], t);
      assert forall q: nat :: 1 <= q ==> OccursAt(s, t, q) == OccursAt(s[1..], t, q - 1) by {
        forall q: nat | 1 <= q ensures OccursAt(s, t, q) == OccursAt(s[1..], t, q - 1) {
          if q + |t| <= |s| {
            assert s[1..][q - 1..] == s[q..];
            assert s[q..q + |t|] == s[q..][..|t|];
          }
        }
      }
      assert !OccursAt(s, t, 0);
      if r == -1 then -1 else r + 1
  }

  /** `indexOf(t) > -1` is the substring test: `t` occurs somewhere in `s`. */
  lemma IndexOfFindsIffOccurs(s: string, t: string)
    ensures IndexOf(s, t) > -1 <==> exists p: nat :: OccursAt(s, t, p)
  {
    if IndexOf(s, t) > -1 {
      assert OccursAt(s, t, IndexOf(s, t));
    }
  }
}
