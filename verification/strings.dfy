/**
 `String.prototype.trim`: removes leading and trailing white space. A string
 is a sequence of Unicode scalar values; white space is the union of the
 ECMAScript WhiteSpace and LineTerminator code points, all of which lie in
 the Basic Multilingual Plane and none of which is a surrogate.
 */
module Strings {

  /** TAB, VT, FF, SP, NBSP, ZWNBSP, the Unicode space separators (category
      Zs), and the line terminators LF, CR, LS and PS. */
  predicate IsWhitespace(c: char) {
    var n := c as int;
    || n == 0x09 || n == 0x0B || n == 0x0C || n == 0x20 || n == 0xA0 || n == 0xFEFF
    || n == 0x1680 || (0x2000 <= n <= 0x200A) || n == 0x202F || n == 0x205F || n == 0x3000
    || n == 0x0A || n == 0x0D || n == 0x2028 || n == 0x2029
  }

  ghost predicate AllWhitespace(s: string) {
    forall i :: 0 <= i < |s| ==> IsWhitespace(s[i])
  }

  /** `r` is `s` with all white space at both ends removed and nothing else:
      a contiguous piece of `s`, starting at `i`, that neither starts nor ends
      with white space, with only white space around it. */
  ghost predicate TrimmedAt(r: string, s: string, i: int) {
    && 0 <= i <= |s| - |r|
    && r == s[i..i + |r|]
    && AllWhitespace(s[..i])
    && AllWhitespace(s[i + |r|..])
    && (r == [] || (!IsWhitespace(r[0]) && !IsWhitespace(r[|r| - 1])))
  }

  ghost predicate TrimmedFrom(r: string, s: string) {
    exists i :: TrimmedAt(r, s, i)
  }

  function TrimStart(s: string): (r: string)
    ensures |r| <= |s| && r == s[|s| - |r|..]
    ensures AllWhitespace(s[..|s| - |r|])
    ensures r == [] || !IsWhitespace(r[0])
  {
    if s != [] && IsWhitespace(s[0]) then TrimStart(s[1..]) else s
  }

  function TrimEnd(s: string): (r: string)
    ensures |r| <= |s| && r == s[..|r|]
    ensures AllWhitespace(s[|r|..])
    ensures r == [] || !IsWhitespace(r[|r| - 1])
  {
    if s != [] && IsWhitespace(s[|s| - 1]) then TrimEnd(s[..|s| - 1]) else s
  }

  function Trim(s: string): (r: string)
    ensures TrimmedFrom(r, s)
  {
    var t := TrimStart(s);
    var r := TrimEnd(t);
    var i := |s| - |t|;
    assert AllWhitespace(s[..i]);
    assert r == s[i..i + |r|] && s[i + |r|..] == t[|r|..];
    assert AllWhitespace(s[i + |r|..]);
    assert TrimmedAt(r, s, i);
    r
  }

  /** What `TrimmedAt` says about the characters of `s` themselves. */
  lemma TrimmedAtChars(r: string, s: string, i: int)
    requires TrimmedAt(r, s, i)
    ensures forall k :: 0 <= k < i ==> IsWhitespace(s[k])
    ensures forall k :: i + |r| <= k < |s| ==> IsWhitespace(s[k])
    ensures r != [] ==> !IsWhitespace(s[i]) && !IsWhitespace(s[i + |r| - 1])
  {
    forall k | 0 <= k < i
      ensures IsWhitespace(s[k])
    {
      assert s[..i][k] == s[k];
    }
    forall k | i + |r| <= k < |s|
      ensures IsWhitespace(s[k])
    {
      assert s[i + |r|..][k - i - |r|] == s[k];
    }
  }

  /** Only one string is trimmed from `s`, so `TrimmedFrom` pins `Trim` down. */
  lemma TrimmedFromUnique(r: string, r': string, s: string)
    requires TrimmedFrom(r, s) && TrimmedFrom(r', s)
    ensures r == r'
  {
    var i :| TrimmedAt(r, s, i);
    var i' :| TrimmedAt(r', s, i');
    TrimmedAtChars(r, s, i);
    TrimmedAtChars(r', s, i');
    if r != [] && r' != [] {
      assert i == i' && |r| == |r'|;
    }
  }

  /** Trimming an already trimmed string changes nothing. */
  lemma TrimIdempotent(s: string)
    ensures Trim(Trim(s)) == Trim(s)
  {
    var r := Trim(s);
    assert TrimmedAt(r, r, 0) by {
      assert r == r[0..0 + |r|];
      assert r[..0] == [] && r[0 + |r|..] == [];
    }
    TrimmedFromUnique(Trim(r), r, r);
  }

  /** A string of white space only trims to the empty string. */
  lemma TrimAllWhitespace(s: string)
    requires AllWhitespace(s)
    ensures Trim(s) == ""
  {
  }
}
