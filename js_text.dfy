/**
 * The string primitives the translation pass relies on, with JavaScript's meaning:
 * String.prototype.trim, the UTF-16 `length` of a string, and the test /^\d+$/.
 * Characters are Unicode scalar values; `length` counts UTF-16 code units, so a
 * character outside the Basic Multilingual Plane counts twice.
 */
module JsText {

  /** WhiteSpace and LineTerminator code points of ECMAScript: the characters trim removes. */
  predicate IsJsSpace(c: char) {
    var n := c as int;
    n == 0x09 || n == 0x0A || n == 0x0B || n == 0x0C || n == 0x0D || n == 0x20 ||
    n == 0xA0 || n == 0x1680 || (0x2000 <= n <= 0x200A) || n == 0x2028 || n == 0x2029 ||
    n == 0x202F || n == 0x205F || n == 0x3000 || n == 0xFEFF
  }

  /** Drops leading white space: the result is the suffix of s that starts at its first non-space character. */
  function TrimStart(s: string): (r: string)
    ensures |r| <= |s| && r == s[|s| - |r|..]
    ensures forall k :: 0 <= k < |s| - |r| ==> IsJsSpace(s[k])
    ensures r != [] ==> !IsJsSpace(r[0])
  {
    if s != [] && IsJsSpace(s[0]) then TrimStart(s[1..]) else s
  }

  /** Drops trailing white space: the result is the prefix of s that ends at its last non-space character. */
  function TrimEnd(s: string): (r: string)
    ensures |r| <= |s| && r == s[..|r|]
    ensures forall k :: |r| <= k < |s| ==> IsJsSpace(s[k])
    ensures r != [] ==> !IsJsSpace(r[|r| - 1])
  {
    if s != [] && IsJsSpace(s[|s| - 1]) then TrimEnd(s[..|s| - 1]) else s
  }

  /** String.prototype.trim. */
  function Trim(s: string): string {
    TrimEnd(TrimStart(s))
  }

  /** The number of leading white-space characters of s. */
  function Lead(s: string): (n: nat)
    ensures n <= |s|
  {
    |s| - |TrimStart(s)|
  }

  /** A prefix of the suffix of s from i is a slice of s. */
  lemma PrefixOfSuffix(s: string, t: string, r: string, i: nat)
    requires i <= |s| && t == s[i..] && |r| <= |t| && r == t[..|r|]
    ensures i + |r| <= |s| && r == s[i..i + |r|]
  {
  }

  /** trim's result is the slice of s that starts after the leading white space. */
  lemma TrimIsSlice(s: string)
    ensures Lead(s) + |Trim(s)| <= |s| && Trim(s) == s[Lead(s)..Lead(s) + |Trim(s)|]
  {
    PrefixOfSuffix(s, TrimStart(s), Trim(s), Lead(s));
  }

  /** trim keeps exactly the middle of s between its leading and trailing white space. */
  lemma {:induction false} TrimKeepsCore(s: string)
    ensures Lead(s) + |Trim(s)| <= |s| && Trim(s) == s[Lead(s)..Lead(s) + |Trim(s)|]
    ensures forall k :: 0 <= k < Lead(s) ==> IsJsSpace(s[k])
    ensures forall k :: Lead(s) + |Trim(s)| <= k < |s| ==> IsJsSpace(s[k])
    ensures Trim(s) != [] ==> !IsJsSpace(Trim(s)[0]) && !IsJsSpace(Trim(s)[|Trim(s)| - 1])
  {
    var t := TrimStart(s);
    var r := TrimEnd(t);
    TrimIsSlice(s);
    TrimTail(s, t, r, Lead(s));
    if r != [] {
      assert r[0] == t[0];
    }
  }

  /** What TrimEnd drops from the suffix t of s is white space of s. */
  lemma TrimTail(s: string, t: string, r: string, i: nat)
    requires i <= |s| && t == s[i..] && r == TrimEnd(t)
    ensures forall k :: i + |r| <= k < |s| ==> IsJsSpace(s[k])
  {
    forall k | i + |r| <= k < |s| ensures IsJsSpace(s[k]) {
      assert s[k] == t[k - i];
    }
  }

  /** trim is idempotent. */
  lemma {:induction false} TrimIdempotent(s: string)
    ensures Trim(Trim(s)) == Trim(s)
  {
    var r := Trim(s);
    TrimKeepsCore(s);
    if r != [] {
      assert TrimStart(r) == r;
      assert TrimEnd(r) == r;
    }
  }

  /** Number of UTF-16 code units of s, which is JavaScript's `s.length`. */
  function Utf16Length(s: string): (n: nat)
    ensures |s| <= n <= 2 * |s|
  {
    if s == [] then 0 else (if s[0] as int >= 0x10000 then 2 else 1) + Utf16Length(s[1..])
  }

  /** `s.length <= 1` holds for the empty string and for one character of the Basic Multilingual Plane only. */
  lemma {:induction false} AtMostOneCodeUnit(s: string)
    ensures Utf16Length(s) <= 1 <==> s == [] || (|s| == 1 && s[0] as int < 0x10000)
  {
    if s != [] {
      assert Utf16Length(s) >= 1 + Utf16Length(s[1..]);
      if |s| == 1 {
        assert s[1..] == [];
      }
    }
  }

  /** The regular expression /^\d+$/: one or more ASCII digits and nothing else. */
  predicate IsAsciiDigits(s: string) {
    |s| > 0 && forall k :: 0 <= k < |s| ==> '0' <= s[k] <= '9'
  }

  /**
   * The text test of the scan: an empty, one-code-unit or all-digit trimmed text is never
   * translated. What passes is two or more characters, not all digits, or a single character
   * outside the Basic Multilingual Plane.
   */
  predicate SkipText(t: string)
    ensures !SkipText(t) <==>
      (|t| >= 2 && exists k :: 0 <= k < |t| && !('0' <= t[k] <= '9')) || (|t| == 1 && t[0] as int >= 0x10000)
  {
    AtMostOneCodeUnit(t);
    t == "" || Utf16Length(t) <= 1 || IsAsciiDigits(t)
  }

  /** A text of two or more characters that is not all digits passes the text test. */
  lemma {:induction false} LongTextNotSkipped(t: string)
    requires |t| >= 2 && exists k :: 0 <= k < |t| && !('0' <= t[k] <= '9')
    ensures !SkipText(t)
  {
    AtMostOneCodeUnit(t);
  }

  /** The text test on concrete texts: "", "5" and "42" are skipped, "Hello" is not. */
  lemma SkipTextExamples()
    ensures SkipText("") && SkipText("5") && SkipText("42") && !SkipText("Hello")
  {
    assert !IsAsciiDigits("Hello") by { assert !('0' <= "Hello"[0] <= '9'); }
    LongTextNotSkipped("Hello");
    assert IsAsciiDigits("42");
  }
}
