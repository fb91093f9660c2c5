/**
 The two string built-ins the search filter uses, `String.prototype.toLowerCase`
 (on the ASCII letters) and `String.prototype.includes`.
 */
module JsString {

  predicate IsUpper(c: char) {
    'A' <= c <= 'Z'
  }

  /** No character of `s` is an upper-case letter. */
  predicate IsLower(s: string) {
    forall i :: 0 <= i < |s| ==> !IsUpper(s[i])
  }

  function LowerChar(c: char): char {
    if IsUpper(c) then (c as int + 32) as char else c
  }

  /** `s.toLowerCase()`: every upper-case letter replaced by its lower-case form. */
  function ToLowerCase(s: string): (r: string)
    ensures |r| == |s| && IsLower(r)
    ensures forall i :: 0 <= i < |s| ==>
      if IsUpper(s[i]) then r[i] as int == s[i] as int + 32 else r[i] == s[i]
  {
    seq(|s|, i requires 0 <= i < |s| => LowerChar(s[i]))
  }

  /** Lower-casing leaves a lower-case string alone, so it is idempotent. */
  lemma LowerCaseFixesLower(s: string)
    requires IsLower(s)
    ensures ToLowerCase(s) == s
  {
  }

  lemma LowerCaseIdempotent(s: string)
    ensures ToLowerCase(ToLowerCase(s)) == ToLowerCase(s)
  {
    LowerCaseFixesLower(ToLowerCase(s));
  }

  /** `search` occurs in `s` starting at position `i`. */
  predicate OccursAt(s: string, search: string, i: int) {
    0 <= i <= |s| - |search| && s[i..i + |search|] == search
  }

  /** `s.includes(search)`: `search` occurs in `s` at some position. */
  function Includes(s: string, search: string): (b: bool)
    ensures b <==> exists i :: OccursAt(s, search, i)
    decreases |s|
  {
    if |search| <= |s| && s[..|search|] == search then
      assert OccursAt(s, search, 0);
      true
    else if s == [] then
      false
    else
      var b := Includes(s[1..], search);
      assert b ==> exists i :: OccursAt(s, search, i) by {
        if b {
          var i :| OccursAt(s[1..], search, i);
          assert s[i + 1..i + 1 + |search|] == s[1..][i..i + |search|];
          assert OccursAt(s, search, i + 1);
        }
      }
      assert (exists i :: OccursAt(s, search, i)) ==> b by {
        if exists i :: OccursAt(s, search, i) {
          var i :| OccursAt(s, search, i);
          assert i != 0;
          assert s[1..][i - 1..i - 1 + |search|] == s[i..i + |search|];
          assert OccursAt(s[1..], search, i - 1);
        }
      }
      b
  }

  /** The empty string occurs in every string. */
  lemma IncludesEmpty(s: string)
    ensures Includes(s, "")
  {
    assert OccursAt(s, "", 0);
  }
}
