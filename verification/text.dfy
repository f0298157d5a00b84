/** String trimming as JavaScript's `String.prototype.trim` does it: leading and
    trailing white space is dropped, where white space is the WhiteSpace and
    LineTerminator code points of ECMA-262 (sections 12.2 and 12.3). */
module Text {

  /** WhiteSpace: TAB, VT, FF, ZWNBSP and every code point of Unicode category Zs;
      LineTerminator: LF, CR, LS and PS. */
  predicate IsWhiteSpace(c: char) {
    var n := c as int;
    // WhiteSpace, outside Zs
    || n == 0x0009 || n == 0x000B || n == 0x000C || n == 0xFEFF
    // WhiteSpace, category Zs
    || n == 0x0020 || n == 0x00A0 || n == 0x1680 || (0x2000 <= n <= 0x200A)
    || n == 0x202F || n == 0x205F || n == 0x3000
    // LineTerminator
    || n == 0x000A || n == 0x000D || n == 0x2028 || n == 0x2029
  }

  predicate AllWhiteSpace(s: string) {
    forall k :: 0 <= k < |s| ==> IsWhiteSpace(s[k])
  }

  /** A string that trimming leaves alone: empty, or neither end is white space. */
  predicate IsTrimmed(s: string) {
    s == [] || (!IsWhiteSpace(s[0]) && !IsWhiteSpace(s[|s| - 1]))
  }

  /** The longest suffix of `s` that does not start with white space. */
  function TrimStart(s: string): (r: string)
    ensures |r| <= |s| && r == s[|s| - |r|..]
    ensures forall k :: 0 <= k < |s| - |r| ==> IsWhiteSpace(s[k])
    ensures r != [] ==> !IsWhiteSpace(r[0])
  {
    if s != [] && IsWhiteSpace(s[0]) then TrimStart(s[1..]) else s
  }

  /** The longest prefix of `s` that does not end with white space. */
  function TrimEnd(s: string): (r: string)
    ensures |r| <= |s| && r == s[..|r|]
    ensures forall k :: |r| <= k < |s| ==> IsWhiteSpace(s[k])
    ensures r != [] ==> !IsWhiteSpace(r[|r| - 1])
  {
    if s != [] && IsWhiteSpace(s[|s| - 1]) then TrimEnd(s[..|s| - 1]) else s
  }

  function Trim(s: string): (r: string)
    ensures IsTrimmed(r)
    ensures r == [] <==> AllWhiteSpace(s)
    ensures IsTrimmed(s) ==> r == s
  {
    TrimEnd(TrimStart(s))
  }

  /** Trimming twice is trimming once. */
  lemma TrimIdempotent(s: string)
    ensures Trim(Trim(s)) == Trim(s)
  {
  }

  /** A string is its own trim exactly when it is trimmed. */
  lemma TrimFixesExactlyTrimmed(s: string)
    ensures Trim(s) == s <==> IsTrimmed(s)
  {
  }

  /** Reference characterisation: whenever `s` splits as white space, then a
      trimmed middle `s[i..j]`, then white space, `Trim(s)` is that middle. */
  lemma TrimIsMiddle(s: string, i: nat, j: nat)
    requires i <= j <= |s|
    requires forall k :: 0 <= k < i ==> IsWhiteSpace(s[k])
    requires forall k :: j <= k < |s| ==> IsWhiteSpace(s[k])
    requires IsTrimmed(s[i..j])
    ensures Trim(s) == s[i..j]
  {
  }
}
