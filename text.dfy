/**
 * The JavaScript string operations the extension's code uses on credentials and on
 * element attributes: `toLowerCase`, `includes`, `trim`, and the class-token
 * match behind the CSS selector `.name`.
 */
module Text {

  /** `toLowerCase` on one character; only the ASCII letters are mapped. */
  function LowerChar(c: char): (r: char)
    ensures ('A' <= c <= 'Z') ==> r as int == c as int + 32
    ensures !('A' <= c <= 'Z') ==> r == c
    ensures !('A' <= r <= 'Z')
  {
    if 'A' <= c <= 'Z' then (c as int + 32) as char else c
  }

  /** `String.prototype.toLowerCase`, restricted to ASCII letters. */
  function ToLower(s: string): (r: string)
  {
    seq(|s|, i requires 0 <= i < |s| => LowerChar(s[i]))
  }

  /** A text without upper-case ASCII letters is its own lower case. */
  lemma ToLowerOfLower(s: string)
    requires forall i :: 0 <= i < |s| ==> !('A' <= s[i] <= 'Z')
    ensures ToLower(s) == s
  {
  }

  predicate StartsWith(s: string, prefix: string) {
    |prefix| <= |s| && s[..|prefix|] == prefix
  }

  /** `String.prototype.includes`: `sub` occurs in `s` (the empty text occurs everywhere). */
  predicate Contains(s: string, sub: string)
    decreases |s|
  {
    StartsWith(s, sub) || (s != [] && Contains(s[1..], sub))
  }

  /** A text longer than `s` is not included in it. */
  lemma {:induction false} ContainsLonger(s: string, sub: string)
    requires |sub| > |s|
    ensures !Contains(s, sub)
    decreases |s|
  {
    if s != [] {
      ContainsLonger(s[1..], sub);
    }
  }

  /** The characters `String.prototype.trim` removes: ECMAScript WhiteSpace and LineTerminator. */
  predicate IsJsWhitespace(c: char) {
    var u := c as int;
    || u == 0x09 || u == 0x0B || u == 0x0C || u == 0x20 || u == 0xA0 || u == 0xFEFF  // WhiteSpace
    || u == 0x1680 || 0x2000 <= u <= 0x200A || u == 0x202F || u == 0x205F || u == 0x3000  // category Zs
    || u == 0x0A || u == 0x0D || u == 0x2028 || u == 0x2029  // LineTerminator
  }

  function TrimStart(s: string): (r: string)
    decreases |s|
  {
    if s != [] && IsJsWhitespace(s[0]) then TrimStart(s[1..]) else s
  }

  function TrimEnd(s: string): (r: string)
    decreases |s|
  {
    if s != [] && IsJsWhitespace(s[|s| - 1]) then TrimEnd(s[..|s| - 1]) else s
  }

  /** `String.prototype.trim`. */
  function Trim(s: string): string {
    TrimEnd(TrimStart(s))
  }

  /** Every character of `s` is white space. */
  predicate IsBlank(s: string) {
    forall i :: 0 <= i < |s| ==> IsJsWhitespace(s[i])
  }

  lemma {:induction false} TrimStartEmptyIffBlank(s: string)
    ensures TrimStart(s) == [] <==> IsBlank(s)
    decreases |s|
  {
    if s != [] {
      TrimStartEmptyIffBlank(s[1..]);
      if IsJsWhitespace(s[0]) {
        assert IsBlank(s) <==> IsBlank(s[1..]) by {
          assert forall i :: 1 <= i < |s| ==> s[i] == s[1..][i - 1];
        }
      }
    }
  }

  /** `TrimEnd` leaves a text that does not end in white space. */
  lemma {:induction false} TrimEndEmptyIffBlank(s: string)
    ensures TrimEnd(s) == [] <==> IsBlank(s)
    decreases |s|
  {
    if s != [] {
      var init := s[..|s| - 1];
      TrimEndEmptyIffBlank(init);
      if IsJsWhitespace(s[|s| - 1]) {
        assert IsBlank(s) <==> IsBlank(init) by {
          assert forall i :: 0 <= i < |init| ==> s[i] == init[i];
        }
      }
    }
  }

  /** `s.trim() === ''` holds exactly when `s` consists of white space only. */
  lemma TrimEmptyIffBlank(s: string)
    ensures Trim(s) == [] <==> IsBlank(s)
  {
    TrimStartEmptyIffBlank(s);
    TrimEndEmptyIffBlank(TrimStart(s));
    if TrimStart(s) != [] {
      assert !IsBlank(TrimStart(s)) by { TrimStartNotBlank(s); }
    }
  }

  lemma {:induction false} TrimStartNotBlank(s: string)
    requires TrimStart(s) != []
    ensures !IsJsWhitespace(TrimStart(s)[0])
    decreases |s|
  {
    if s != [] && IsJsWhitespace(s[0]) {
      TrimStartNotBlank(s[1..]);
    }
  }

  /** Lower-casing neither creates nor removes white space. */
  lemma BlankIffLowerBlank(s: string)
    ensures IsBlank(ToLower(s)) <==> IsBlank(s)
  {
    assert forall i :: 0 <= i < |s| ==> (IsJsWhitespace(ToLower(s)[i]) <==> IsJsWhitespace(s[i]));
  }

  /** ASCII white space, the separator of the tokens of a `class` attribute. */
  predicate IsAsciiWhitespace(c: char) {
    var u := c as int;
    u == 0x09 || u == 0x0A || u == 0x0C || u == 0x0D || u == 0x20
  }

  /** The token `t` stands at position i of the class list `cls`, delimited by white space or the ends. */
  predicate TokenAt(cls: string, t: string, i: int) {
    && 0 <= i && i + |t| <= |cls| && cls[i..i + |t|] == t
    && (i == 0 || IsAsciiWhitespace(cls[i - 1]))
    && (i + |t| == |cls| || IsAsciiWhitespace(cls[i + |t|]))
  }

  /** The CSS class selector `.t` matches an element whose class list `cls` holds the token `t`. */
  predicate HasClassToken(cls: string, t: string) {
    exists i | 0 <= i <= |cls| :: TokenAt(cls, t, i)
  }
}
