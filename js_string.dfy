/**
 * The few JavaScript string operations the extension relies on, over Dafny
 * strings (sequences of Unicode scalar values).
 */
module JsString {

  /** ECMAScript LineTerminator: the characters a regular-expression `.` does not match. */
  predicate IsLineTerminator(c: char) {
    c == '\n' || c == '\r' || c == '\U{2028}' || c == '\U{2029}'
  }

  /** ECMAScript WhiteSpace or LineTerminator: what `String.prototype.trim` removes. */
  predicate IsWhitespace(c: char) {
    || IsLineTerminator(c)
    || c == '\t' || c == '\U{B}' || c == '\U{C}' || c == ' ' || c == '\U{A0}'
    || c == '\U{1680}' || ('\U{2000}' <= c <= '\U{200A}') || c == '\U{202F}'
    || c == '\U{205F}' || c == '\U{3000}' || c == '\U{FEFF}'
  }

  predicate AllWhitespace(s: string) {
    forall i :: 0 <= i < |s| ==> IsWhitespace(s[i])
  }

  /** Neither the first nor the last character is whitespace. */
  predicate IsTrimmed(s: string) {
    s == [] || (!IsWhitespace(s[0]) && !IsWhitespace(s[|s| - 1]))
  }

  /** Drops leading whitespace. */
  function TrimStart(s: string): (r: string)
    ensures |r| <= |s| && r == s[|s| - |r|..]
    ensures AllWhitespace(s[..|s| - |r|])
    ensures r == [] || !IsWhitespace(r[0])
    ensures r == [] <==> AllWhitespace(s)
  {
    if |s| > 0 && IsWhitespace(s[0]) then TrimStart(s[1..]) else s
  }

  /** Drops trailing whitespace. */
  function TrimEnd(s: string): (r: string)
    ensures |r| <= |s| && r == s[..|r|]
    ensures AllWhitespace(s[|r|..])
    ensures r == [] || !IsWhitespace(r[|r| - 1])
    ensures r == [] <==> AllWhitespace(s)
  {
    if |s| > 0 && IsWhitespace(s[|s| - 1]) then TrimEnd(s[..|s| - 1]) else s
  }

  /** `String.prototype.trim`. */
  function Trim(s: string): (r: string)
    ensures IsTrimmed(r)
    ensures |r| <= |s|
    ensures IsTrimmed(s) ==> r == s
    ensures r == [] <==> AllWhitespace(s)
  {
    var t := TrimStart(s);
    var r := TrimEnd(t);
    assert r != [] ==> r[0] == t[0];
    r
  }

  /** A prefix of a suffix is a middle part, and what surrounds it is white space. */
  lemma WhitespaceAroundMiddle(s: string, t: string, r: string)
    requires |t| <= |s| && t == s[|s| - |t|..] && AllWhitespace(s[..|s| - |t|])
    requires |r| <= |t| && r == t[..|r|] && AllWhitespace(t[|r|..])
    ensures var i := |s| - |t|; r == s[i..i + |r|] && AllWhitespace(s[..i]) && AllWhitespace(s[i + |r|..])
  {
    var i := |s| - |t|;
    assert s[i + |r|..] == t[|r|..];
  }

  /**
   * What `trim` keeps: a contiguous part of the input, with only white
   * space before and after it.
   */
  lemma TrimKeepsMiddle(s: string)
    ensures exists i :: 0 <= i <= |s| - |Trim(s)| && Trim(s) == s[i..i + |Trim(s)|]
                        && AllWhitespace(s[..i]) && AllWhitespace(s[i + |Trim(s)|..])
  {
    var t := TrimStart(s);
    var r := TrimEnd(t);
    assert r == Trim(s);
    WhitespaceAroundMiddle(s, t, r);
    var i := |s| - |t|;
    assert 0 <= i <= |s| - |r|;
  }

  /** Trimming twice is trimming once. */
  lemma TrimIdempotent(s: string)
    ensures Trim(Trim(s)) == Trim(s)
  {
  }

  /** `s.startsWith(p)` */
  predicate StartsWith(s: string, p: string) {
    |p| <= |s| && s[..|p|] == p
  }

  /** `s.endsWith(p)` */
  predicate EndsWith(s: string, p: string) {
    |p| <= |s| && s[|s| - |p|..] == p
  }

  /** Whether `s` is `d` itself or ends with `"." + d` (a subdomain of `d`). */
  predicate DomainOrSubdomain(s: string, d: string) {
    s == d || EndsWith(s, "." + d)
  }

  /** `EndsWith(s, "." + d)` says exactly that `s` is some name, a dot, then `d`. */
  lemma {:induction false} EndsWithDotMeaning(s: string, d: string)
    ensures EndsWith(s, "." + d) <==> exists k :: 0 <= k < |s| && s[k] == '.' && s[k + 1..] == d
  {
    if EndsWith(s, "." + d) {
      var k := |s| - |d| - 1;
      assert s[k..] == "." + d;
      assert s[k] == '.' && s[k + 1..] == d;
    }
    if exists k :: 0 <= k < |s| && s[k] == '.' && s[k + 1..] == d {
      var k :| 0 <= k < |s| && s[k] == '.' && s[k + 1..] == d;
      assert s[k..] == [s[k]] + s[k + 1..];
    }
  }

  /** `s.length`: the number of UTF-16 code units, two for a character outside the Basic Multilingual Plane. */
  function Utf16Length(s: string): (n: nat)
    ensures |s| <= n <= 2 * |s|
    ensures (forall i :: 0 <= i < |s| ==> s[i] < '\U{10000}') ==> n == |s|
  {
    if s == [] then 0 else (if s[0] < '\U{10000}' then 1 else 2) + Utf16Length(s[1..])
  }

  /** `s.includes('..')` */
  predicate HasDoubleDot(s: string) {
    exists i | 0 <= i < |s| - 1 :: s[i] == '.' && s[i + 1] == '.'
  }

  /** The decimal spelling of a natural number, as JavaScript spells an array index used as a property key. */
  function NatToString(n: nat): (r: string)
    ensures r != []
    ensures forall i :: 0 <= i < |r| ==> '0' <= r[i] <= '9'
  {
    var digit := ['0' + (n % 10) as char];
    if n < 10 then digit else NatToString(n / 10) + digit
  }

  lemma {:induction false} NatToStringShort(n: nat)
    ensures |NatToString(n)| == 1 <==> n < 10
  {
    if n >= 10 {
      assert |NatToString(n / 10)| >= 1;
    }
  }

  /** Different numbers are spelled differently. */
  lemma {:induction false} NatToStringInjective(n: nat, m: nat)
    requires NatToString(n) == NatToString(m)
    ensures n == m
    decreases n
  {
    var s := NatToString(n);
    NatToStringShort(n);
    NatToStringShort(m);
    assert s[|s| - 1] == '0' + (n % 10) as char == '0' + (m % 10) as char;
    if n >= 10 {
      assert NatToString(n / 10) == s[..|s| - 1] == NatToString(m / 10);
      NatToStringInjective(n / 10, m / 10);
    }
  }
}
