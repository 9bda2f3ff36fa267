/**
 * The JavaScript string operations the application applies to user input:
 * `String.prototype.trim` and `String.prototype.toLowerCase`.
 */
module Text {

  /** The characters `trim` removes: ECMAScript WhiteSpace and LineTerminator. */
  predicate IsWhitespace(c: char)
  {
    || c == ' ' || c == '\t' || c == '\n' || c == '\r'
    || c == '\U{000B}' || c == '\U{000C}' || c == '\U{00A0}' || c == '\U{1680}'
    || ('\U{2000}' <= c <= '\U{200A}')
    || c == '\U{2028}' || c == '\U{2029}' || c == '\U{202F}' || c == '\U{205F}'
    || c == '\U{3000}' || c == '\U{FEFF}'
  }

  predicate IsTrimmed(s: string)
  {
    s == [] || (!IsWhitespace(s[0]) && !IsWhitespace(s[|s| - 1]))
  }

  /** `s.trim()`: whitespace is dropped from both ends until neither end has any. */
  function Trim(s: string): (r: string)
    ensures |r| <= |s|
    decreases |s|
  {
    if s == [] then s
    else if IsWhitespace(s[0]) then Trim(s[1..])
    else if IsWhitespace(s[|s| - 1]) then Trim(s[..|s| - 1])
    else s
  }

  /**
   * What `trim` computes: the infix `s[i..j]` that neither starts nor ends with
   * whitespace, where everything before `i` and from `j` on is whitespace.
   */
  lemma {:induction false} TrimSpec(s: string) returns (i: nat, j: nat)
    ensures i <= j <= |s| && Trim(s) == s[i..j] && IsTrimmed(Trim(s))
    ensures forall k :: 0 <= k < i ==> IsWhitespace(s[k])
    ensures forall k :: j <= k < |s| ==> IsWhitespace(s[k])
    decreases |s|
  {
    if s == [] {
      i, j := 0, 0;
    } else if IsWhitespace(s[0]) {
      var i', j' := TrimSpec(s[1..]);
      i, j := i' + 1, j' + 1;
      assert s[1..][i'..j'] == s[i..j];
      forall k | 0 <= k < i ensures IsWhitespace(s[k]) {
        if k > 0 { assert s[k] == s[1..][k - 1]; }
      }
      forall k | j <= k < |s| ensures IsWhitespace(s[k]) {
        assert s[k] == s[1..][k - 1];
      }
    } else if IsWhitespace(s[|s| - 1]) {
      var t := s[..|s| - 1];
      i, j := TrimSpec(t);
      assert t[i..j] == s[i..j];
      forall k | j <= k < |s| ensures IsWhitespace(s[k]) {
        if k < |s| - 1 { assert s[k] == t[k]; }
      }
    } else {
      i, j := 0, |s|;
    }
  }

  lemma TrimIsTrimmed(s: string)
    ensures IsTrimmed(Trim(s))
  {
    var _, _ := TrimSpec(s);
  }

  /** A string that already neither starts nor ends with whitespace is left alone. */
  lemma TrimOfTrimmed(s: string)
    requires IsTrimmed(s)
    ensures Trim(s) == s
  {
  }

  /** Trimming twice is trimming once. */
  lemma TrimIdempotent(s: string)
    ensures Trim(Trim(s)) == Trim(s)
  {
    TrimIsTrimmed(s);
    TrimOfTrimmed(Trim(s));
  }

  /** Lower-casing of one character; only the ASCII letters A-Z are mapped. */
  function LowerChar(c: char): (d: char)
    ensures IsWhitespace(d) <==> IsWhitespace(c)
    ensures !('A' <= d <= 'Z')
    ensures !('A' <= c <= 'Z') ==> d == c
  {
    if 'A' <= c <= 'Z' then (c as int + 32) as char else c
  }

  /** `s.toLowerCase()` */
  function Lower(s: string): (r: string)
    ensures |r| == |s|
    ensures forall k :: 0 <= k < |s| ==> r[k] == LowerChar(s[k])
  {
    seq(|s|, k requires 0 <= k < |s| => LowerChar(s[k]))
  }

  lemma LowerIdempotent(s: string)
    ensures Lower(Lower(s)) == Lower(s)
  {
  }

  /** Lower-casing never creates or removes whitespace, so the two operations commute. */
  lemma {:induction false} TrimLowerCommute(s: string)
    ensures Trim(Lower(s)) == Lower(Trim(s))
    decreases |s|
  {
    var l := Lower(s);
    if s == [] {
    } else if IsWhitespace(s[0]) {
      assert l[1..] == Lower(s[1..]);
      TrimLowerCommute(s[1..]);
    } else if IsWhitespace(s[|s| - 1]) {
      assert l[..|s| - 1] == Lower(s[..|s| - 1]);
      TrimLowerCommute(s[..|s| - 1]);
    }
  }

  /** `(s || '').toLowerCase().trim()`, the email key used by signup and login. */
  function NormalizedEmail(s: string): (r: string)
    ensures IsTrimmed(r) && Lower(r) == r
    ensures |r| <= |s|
  {
    TrimIsTrimmed(Lower(s));
    TrimLowerCommute(s);
    LowerIdempotent(Trim(s));
    Trim(Lower(s))
  }

  /** Normalising an already normalised email changes nothing. */
  lemma NormalizedEmailIdempotent(s: string)
    ensures NormalizedEmail(NormalizedEmail(s)) == NormalizedEmail(s)
  {
    var n := NormalizedEmail(s);
    TrimOfTrimmed(n);
    assert NormalizedEmail(n) == Trim(Lower(n)) == Trim(n) == n;
  }
}
