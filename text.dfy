/** JavaScript string primitives the schemas and services rely on. */
module Text {

  /** The characters `String.prototype.trim` strips: WhiteSpace and LineTerminator of ECMAScript. */
  const Whitespace: set<char> := {
    '\t', '\U{0B}', '\U{0C}', ' ', '\U{A0}', '\U{FEFF}', '\n', '\r', '\U{2028}', '\U{2029}',
    '\U{1680}', '\U{2000}', '\U{2001}', '\U{2002}', '\U{2003}', '\U{2004}', '\U{2005}', '\U{2006}',
    '\U{2007}', '\U{2008}', '\U{2009}', '\U{200A}', '\U{202F}', '\U{205F}', '\U{3000}'
  }

  predicate IsSpace(c: char) {
    c in Whitespace
  }

  /** No whitespace at either end. */
  predicate Trimmed(s: string) {
    s == [] || (!IsSpace(s[0]) && !IsSpace(s[|s| - 1]))
  }

  function TrimStart(s: string): (r: string)
    ensures r == [] || !IsSpace(r[0])
    ensures s == [] || !IsSpace(s[0]) ==> r == s
  {
    if s != [] && IsSpace(s[0]) then TrimStart(s[1..]) else s
  }

  function TrimEnd(s: string): (r: string)
    ensures r == [] || !IsSpace(r[|r| - 1])
    ensures s == [] || !IsSpace(s[|s| - 1]) ==> r == s
  {
    if s != [] && IsSpace(s[|s| - 1]) then TrimEnd(s[..|s| - 1]) else s
  }

  /**
   * `s.trim()`: `s` with the whitespace at both ends removed and nothing else. The result is a stretch of `s`
   * with no whitespace at either end, and everything outside that stretch is whitespace.
   */
  function Trim(s: string): (r: string)
    ensures Trimmed(r)
    ensures exists i, j :: 0 <= i <= j <= |s| && r == s[i..j] && StripsOnlySpace(s, i, j)
    ensures Trimmed(s) ==> r == s
  {
    var t := TrimStart(s);
    var r := TrimEnd(t);
    TrimEndKeepsStart(t);
    var i := LeadingSpace(s);
    var j := TrailingCut(t);
    assert r == s[i..i + j];
    assert StripsOnlySpace(s, i, i + j);
    r
  }

  /** Every character of `s` before `i` and from `j` on is whitespace. */
  predicate StripsOnlySpace(s: string, i: nat, j: nat)
    requires i <= j <= |s|
  {
    forall k :: 0 <= k < |s| && (k < i || j <= k) ==> IsSpace(s[k])
  }

  /**
   * The description of `trim` fixes its result: any stretch of `s` with no whitespace at either end, outside of
   * which `s` is all whitespace, is exactly what `Trim` returns.
   */
  lemma TrimUnique(s: string, i: nat, j: nat)
    requires i <= j <= |s| && Trimmed(s[i..j]) && StripsOnlySpace(s, i, j)
    ensures Trim(s) == s[i..j]
  {
    var t := Trim(s);
    assert Trimmed(t);
    var i2, j2 :| 0 <= i2 <= j2 <= |s| && t == s[i2..j2] && StripsOnlySpace(s, i2, j2);
    assert forall k :: 0 <= k < |s| && (k < i2 || j2 <= k) ==> IsSpace(s[k]);
    assert forall k :: 0 <= k < |s| && (k < i || j <= k) ==> IsSpace(s[k]);
    assert i < j ==> !IsSpace(s[i]) && !IsSpace(s[j - 1]) by {
      if i < j {
        assert s[i..j][0] == s[i] && s[i..j][j - i - 1] == s[j - 1];
      }
    }
    assert i2 < j2 ==> !IsSpace(s[i2]) && !IsSpace(s[j2 - 1]) by {
      if i2 < j2 {
        assert t[0] == s[i2] && t[j2 - i2 - 1] == s[j2 - 1];
      }
    }
    assert i < j <==> i2 < j2;
    assert i < j ==> i == i2 && j == j2;
  }

  /** How much `TrimStart` drops: the length of the run of leading whitespace. */
  function LeadingSpace(s: string): (i: nat)
    ensures i <= |s| && TrimStart(s) == s[i..]
    ensures forall k :: 0 <= k < i ==> IsSpace(s[k])
  {
    if s != [] && IsSpace(s[0]) then
      var i' := LeadingSpace(s[1..]);
      assert s[1..][i'..] == s[i' + 1..];
      assert forall k :: 0 < k < i' + 1 ==> s[k] == s[1..][k - 1];
      i' + 1
    else 0
  }

  /** Where `TrimEnd` cuts: the length of what is left once the run of trailing whitespace is dropped. */
  function TrailingCut(s: string): (j: nat)
    ensures j <= |s| && TrimEnd(s) == s[..j]
    ensures forall k :: j <= k < |s| ==> IsSpace(s[k])
  {
    if s != [] && IsSpace(s[|s| - 1]) then
      var s' := s[..|s| - 1];
      var j := TrailingCut(s');
      assert s'[..j] == s[..j];
      assert forall k :: j <= k < |s| - 1 ==> s[k] == s'[k];
      j
    else |s|
  }

  lemma {:induction false} TrimEndKeepsStart(s: string)
    ensures TrimEnd(s) != [] ==> TrimEnd(s)[0] == s[0]
  {
    if s != [] && IsSpace(s[|s| - 1]) {
      TrimEndKeepsStart(s[..|s| - 1]);
    }
  }

  /** JavaScript's `s.length`: UTF-16 code units, so a character beyond the Basic Multilingual Plane counts twice. */
  function JsLength(s: string): nat {
    if s == [] then 0 else (if s[0] as int > 0xFFFF then 2 else 1) + JsLength(s[1..])
  }
}
