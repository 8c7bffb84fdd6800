/**
 * String helpers shared by the model. Case mapping and character classes are
 * the ASCII ones (see README, "Left out").
 */
module Strings {

  function LowerChar(c: char): char {
    if 'A' <= c <= 'Z' then (c as int + 32) as char else c
  }

  /** Python's str.lower() restricted to ASCII letters. */
  function Lower(s: string): (r: string)
    ensures |r| == |s|
    ensures forall i :: 0 <= i < |s| ==> r[i] == LowerChar(s[i])
    ensures forall i :: 0 <= i < |r| ==> !('A' <= r[i] <= 'Z')
  {
    seq(|s|, i requires 0 <= i < |s| => LowerChar(s[i]))
  }

  lemma LowerIdempotent(s: string)
    ensures Lower(Lower(s)) == Lower(s)
  {
    assert forall i :: 0 <= i < |s| ==> LowerChar(LowerChar(s[i])) == LowerChar(s[i]);
  }

  /** Python's str.startswith. */
  predicate StartsWith(s: string, prefix: string) {
    prefix <= s
  }

  /** `sub in s` for Python strings: some window of s equals sub. */
  predicate ContainsAt(s: string, sub: string, i: int) {
    0 <= i && i + |sub| <= |s| && s[i..i + |sub|] == sub
  }

  /** Substring search, scanning left to right. */
  function Contains(s: string, sub: string): (b: bool)
    ensures b <==> exists i :: ContainsAt(s, sub, i)
    decreases |s|
  {
    if sub <= s then
      assert ContainsAt(s, sub, 0);
      true
    else if |s| == 0 then
      assert forall i :: !ContainsAt(s, sub, i);
      false
    else
      var rest := Contains(s[1..], sub);
      assert forall i :: ContainsAt(s[1..], sub, i) <==> ContainsAt(s, sub, i + 1) by {
        forall i
          ensures ContainsAt(s[1..], sub, i) <==> ContainsAt(s, sub, i + 1)
        {
          if 0 <= i && i + |sub| <= |s| - 1 {
            assert s[1..][i..i + |sub|] == s[i + 1..i + 1 + |sub|];
          }
        }
      }
      assert !ContainsAt(s, sub, 0);
      assert (exists i :: ContainsAt(s, sub, i)) ==> exists i :: ContainsAt(s[1..], sub, i) by {
        if exists i :: ContainsAt(s, sub, i) {
          var i :| ContainsAt(s, sub, i);
          assert i != 0;
          assert ContainsAt(s[1..], sub, i - 1);
        }
      }
      rest
  }

  /** Python's slice s[:n] for n >= 0: the first n characters, or all of s when shorter. */
  function Take(s: string, n: nat): (r: string)
    ensures |r| == if |s| < n then |s| else n
    ensures r <= s
  {
    if |s| <= n then s else s[..n]
  }

  /** The characters Python's str.strip() removes that are ASCII. */
  predicate IsSpace(c: char) {
    c == ' ' || c == '\t' || c == '\n' || c == '\r' || c == '\U{B}' || c == '\U{C}'
    || c == '\U{1C}' || c == '\U{1D}' || c == '\U{1E}' || c == '\U{1F}'
  }

  function TrimStart(s: string): (r: string)
    ensures |r| <= |s| && r == s[|s| - |r|..]
    ensures r == [] || !IsSpace(r[0])
    ensures forall i :: 0 <= i < |s| - |r| ==> IsSpace(s[i])
  {
    if s != [] && IsSpace(s[0]) then TrimStart(s[1..]) else s
  }

  function TrimEnd(s: string): (r: string)
    ensures |r| <= |s| && r == s[..|r|]
    ensures r == [] || !IsSpace(r[|r| - 1])
    ensures forall i :: |r| <= i < |s| ==> IsSpace(s[i])
  {
    if s != [] && IsSpace(s[|s| - 1]) then TrimEnd(s[..|s| - 1]) else s
  }

  /** r is the slice of s starting at k, and everything of s around that slice is white space. */
  predicate StrippedAt(s: string, r: string, k: int) {
    && 0 <= k && k + |r| <= |s|
    && r == s[k..k + |r|]
    && (forall i :: 0 <= i < k ==> IsSpace(s[i]))
    && (forall i :: k + |r| <= i < |s| ==> IsSpace(s[i]))
  }

  /** Python's str.strip(): s without its leading and trailing white space. */
  function Strip(s: string): (r: string)
    ensures r == [] || (!IsSpace(r[0]) && !IsSpace(r[|r| - 1]))
    ensures exists i :: ContainsAt(s, r, i)
  {
    var t := TrimStart(s);
    var r := TrimEnd(t);
    assert ContainsAt(s, r, |s| - |t|);
    r
  }

  /** str.strip() removes only white space: Strip(s) is a slice of s with nothing but white space around it. */
  lemma StripRemovesOnlySpace(s: string)
    ensures exists k :: StrippedAt(s, Strip(s), k)
  {
    var t := TrimStart(s);
    var r := TrimEnd(t);
    assert Strip(s) == r;
    var k := |s| - |t|;
    assert t == s[k..] && r == t[..|r|];
    forall i | k + |r| <= i < |s|
      ensures IsSpace(s[i])
    {
      assert s[i] == t[i - k];
    }
    assert r == s[k..k + |r|] by {
      assert s[k..][..|r|] == s[k..k + |r|];
    }
    assert StrippedAt(s, r, k);
  }

  /** A slice with only white space around it and none at its own ends. */
  predicate StrippedSlice(s: string, r: string, k: int) {
    StrippedAt(s, r, k) && (r == [] || (!IsSpace(r[0]) && !IsSpace(r[|r| - 1])))
  }

  /** There is at most one stripped slice of s. */
  lemma StrippedSliceUnique(s: string, r1: string, k1: int, r2: string, k2: int)
    requires StrippedSlice(s, r1, k1) && StrippedSlice(s, r2, k2)
    ensures r1 == r2
  {
    if r1 == [] {
      assert forall i :: 0 <= i < |s| ==> IsSpace(s[i]);
    } else {
      assert s[k1] == r1[0] && s[k1 + |r1| - 1] == r1[|r1| - 1];
      assert r2 != [];
      assert s[k2] == r2[0] && s[k2 + |r2| - 1] == r2[|r2| - 1];
      assert k1 == k2;
      assert |r1| == |r2|;
    }
  }

  /**
   * The ensures of Strip determine it: any slice of s with only white space
   * around it and none at its own ends is Strip(s).
   */
  lemma StripUnique(s: string, r: string, k: int)
    requires StrippedAt(s, r, k)
    requires r == [] || (!IsSpace(r[0]) && !IsSpace(r[|r| - 1]))
    ensures r == Strip(s)
  {
    StripRemovesOnlySpace(s);
    var k0 :| StrippedAt(s, Strip(s), k0);
    StrippedSliceUnique(s, r, k, Strip(s), k0);
  }

  /** ASCII letters and digits, the model's str.isalnum(). */
  predicate IsAlnum(c: char) {
    ('a' <= c <= 'z') || ('A' <= c <= 'Z') || ('0' <= c <= '9')
  }
}
