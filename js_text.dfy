/** The JavaScript string primitives the core relies on:
    `String.prototype.trim`, `toLowerCase` and `includes`. */
module JsText {

  /** A JavaScript WhiteSpace or LineTerminator code point, the set that
      `trim` removes (tab, vertical tab, form feed, space, no-break space,
      byte order mark, the Unicode space separators, and the four line
      terminators). */
  predicate IsJsWhitespace(c: char) {
    || c == '\t' || c == '\n' || c == '\U{B}' || c == '\U{C}' || c == '\r'
    || c == ' ' || c == '\U{A0}' || c == '\U{1680}'
    || ('\U{2000}' <= c <= '\U{200A}')
    || c == '\U{2028}' || c == '\U{2029}' || c == '\U{202F}' || c == '\U{205F}'
    || c == '\U{3000}' || c == '\U{FEFF}'
  }

  predicate AllWhitespace(s: string) {
    forall k :: 0 <= k < |s| ==> IsJsWhitespace(s[k])
  }

  /** Drops the leading white space: the result is the suffix of `s` that
      starts at its first non-white-space character. */
  function TrimStart(s: string): (r: string)
    ensures |r| <= |s| && r == s[|s| - |r|..]
    ensures forall k :: 0 <= k < |s| - |r| ==> IsJsWhitespace(s[k])
    ensures r == [] || !IsJsWhitespace(r[0])
  {
    if |s| > 0 && IsJsWhitespace(s[0]) then TrimStart(s[1..]) else s
  }

  /** Drops the trailing white space: the result is the prefix of `s` that
      ends at its last non-white-space character. */
  function TrimEnd(s: string): (r: string)
    ensures |r| <= |s| && r == s[..|r|]
    ensures forall k :: |r| <= k < |s| ==> IsJsWhitespace(s[k])
    ensures r == [] || !IsJsWhitespace(r[|r| - 1])
  {
    if |s| > 0 && IsJsWhitespace(s[|s| - 1]) then TrimEnd(s[..|s| - 1]) else s
  }

  /** `s.trim()`. */
  function Trim(s: string): (r: string)
    ensures |r| <= |s|
    ensures r == [] || (!IsJsWhitespace(r[0]) && !IsJsWhitespace(r[|r| - 1]))
  {
    TrimEnd(TrimStart(s))
  }

  lemma TrimStartSkip(c: char, s: string)
    requires IsJsWhitespace(c)
    ensures TrimStart([c] + s) == TrimStart(s)
  {
    assert ([c] + s)[1..] == s;
  }

  lemma TrimStartKeeps(s: string)
    requires s != [] && !IsJsWhitespace(s[0])
    ensures TrimStart(s) == s
  {
  }

  lemma TrimEndSkip(s: string, c: char)
    requires IsJsWhitespace(c)
    ensures TrimEnd(s + [c]) == TrimEnd(s)
  {
    assert (s + [c])[..|s|] == s;
  }

  lemma TrimEndKeeps(s: string)
    requires s != [] && !IsJsWhitespace(s[|s| - 1])
    ensures TrimEnd(s) == s
  {
  }

  /** One white-space character on each side of a bounded string is
      trimmed away. */
  lemma TrimPadded(c: char, t: string, d: char)
    requires IsJsWhitespace(c) && IsJsWhitespace(d)
    requires t != [] && !IsJsWhitespace(t[0]) && !IsJsWhitespace(t[|t| - 1])
    ensures Trim([c] + t + [d]) == t
  {
    assert [c] + t + [d] == [c] + (t + [d]);
    TrimStartSkip(c, t + [d]);
    TrimStartKeeps(t + [d]);
    TrimEndSkip(t, d);
    TrimEndKeeps(t);
  }

  /** Trimming leaves nothing exactly when the string is all white space. */
  lemma TrimEmptyIff(s: string)
    ensures Trim(s) == [] <==> AllWhitespace(s)
  {
    var t := TrimStart(s);
    if Trim(s) == [] {
      assert t == [];
    }
  }

  /** A string with no white space at either end is its own trim. */
  lemma TrimKeepsBoundedString(s: string)
    requires s == [] || (!IsJsWhitespace(s[0]) && !IsJsWhitespace(s[|s| - 1]))
    ensures Trim(s) == s
  {
    assert TrimStart(s) == s;
  }

  /** Trimming twice is trimming once. */
  lemma TrimIdempotent(s: string)
    ensures Trim(Trim(s)) == Trim(s)
  {
    TrimKeepsBoundedString(Trim(s));
  }

  function LowerChar(c: char): (d: char)
  {
    if 'A' <= c <= 'Z' then (c as int + 32) as char else c
  }

  /** `s.toLowerCase()` for the characters that have a case mapping in the
      Latin alphabet; other characters (the Arabic script has no case) are
      kept. Every character stays in place, no upper-case letter is left,
      an upper-case letter becomes the lower-case letter at the same place
      in the alphabet, and everything else, white space included, is
      unchanged. */
  function ToLower(s: string): (r: string)
    ensures |r| == |s|
    ensures forall k :: 0 <= k < |r| ==> !('A' <= r[k] <= 'Z')
    ensures forall k :: 0 <= k < |s| && 'A' <= s[k] <= 'Z' ==>
      'a' <= r[k] <= 'z' && r[k] as int - 'a' as int == s[k] as int - 'A' as int
    ensures forall k :: 0 <= k < |s| && !('A' <= s[k] <= 'Z') ==> r[k] == s[k]
    ensures forall k :: 0 <= k < |s| ==> (IsJsWhitespace(r[k]) <==> IsJsWhitespace(s[k]))
  {
    seq(|s|, k requires 0 <= k < |s| => LowerChar(s[k]))
  }

  /** Lower-casing leaves no upper-case letter and is idempotent. */
  lemma ToLowerIdempotent(s: string)
    ensures forall k :: 0 <= k < |s| ==> !('A' <= ToLower(s)[k] <= 'Z')
    ensures ToLower(ToLower(s)) == ToLower(s)
  {
  }

  /** A string with no upper-case letter is its own lower-case form. */
  lemma ToLowerKeepsUncased(s: string)
    requires forall k :: 0 <= k < |s| ==> !('A' <= s[k] <= 'Z')
    ensures ToLower(s) == s
  {
  }

  lemma ToLowerTail(s: string)
    requires |s| > 0
    ensures ToLower(s)[1..] == ToLower(s[1..])
  {
  }

  /** Lower-casing and trimming can be done in either order: no letter is
      white space and no white space is a letter. */
  lemma {:induction false} TrimStartOfLower(s: string)
    ensures TrimStart(ToLower(s)) == ToLower(TrimStart(s))
  {
    if |s| > 0 {
      var t := ToLower(s);
      assert t[0] == LowerChar(s[0]);
      if IsJsWhitespace(s[0]) {
        TrimStartOfLower(s[1..]);
        ToLowerTail(s);
      }
    }
  }

  lemma {:induction false} TrimEndOfLower(s: string)
    ensures TrimEnd(ToLower(s)) == ToLower(TrimEnd(s))
  {
    if |s| > 0 {
      var t := ToLower(s);
      assert t[|s| - 1] == LowerChar(s[|s| - 1]);
      if IsJsWhitespace(s[|s| - 1]) {
        TrimEndOfLower(s[..|s| - 1]);
        assert t[..|s| - 1] == ToLower(s[..|s| - 1]);
        assert TrimEnd(t) == TrimEnd(t[..|s| - 1]);
        assert TrimEnd(s) == TrimEnd(s[..|s| - 1]);
      } else {
        assert TrimEnd(t) == t;
        assert TrimEnd(s) == s;
      }
    }
  }

  lemma TrimOfLower(s: string)
    ensures Trim(ToLower(s)) == ToLower(Trim(s))
  {
    TrimStartOfLower(s);
    TrimEndOfLower(TrimStart(s));
  }

  /** `q` occurs in `s` starting at position `i`. */
  predicate OccursAt(s: string, q: string, i: int) {
    0 <= i <= |s| - |q| && s[i..i + |q|] == q
  }

  /** `s.includes(q)`: `q` occurs in `s` as a contiguous piece. The empty
      query is found in every string, and a query longer than the string
      in none. */
  function Includes(s: string, q: string): (b: bool)
    ensures q == [] ==> b
    ensures b ==> |q| <= |s|
  {
    q <= s || (|s| > 0 && Includes(s[1..], q))
  }

  /** `Includes` finds `q` exactly when some position of `s` starts a copy
      of it. */
  lemma {:induction false} IncludesIff(s: string, q: string)
    ensures Includes(s, q) <==> exists i :: OccursAt(s, q, i)
  {
    if |s| > 0 {
      IncludesIff(s[1..], q);
    }
    if Includes(s, q) {
      if q <= s {
        assert OccursAt(s, q, 0);
      } else {
        var i :| OccursAt(s[1..], q, i);
        OccursShift(s, q, i);
      }
    }
    if exists i :: OccursAt(s, q, i) {
      var i :| OccursAt(s, q, i);
      if i > 0 {
        OccursShift(s, q, i - 1);
      } else {
        assert q <= s;
      }
    }
  }

  /** Dropping the first character moves every occurrence one place left. */
  lemma OccursShift(s: string, q: string, i: int)
    requires |s| > 0 && 0 <= i
    ensures OccursAt(s[1..], q, i) <==> OccursAt(s, q, i + 1)
  {
    if i <= |s| - 1 - |q| {
      assert s[1..][i..i + |q|] == s[i + 1..i + 1 + |q|];
    }
  }

  /** A string lacking one of the query's characters does not include it. */
  lemma MissingLetterNotIncluded(s: string, q: string, c: char)
    requires c in q && c !in s
    ensures !Includes(s, q)
  {
    IncludesIff(s, q);
  }

  /** The empty query is found in every string. */
  lemma IncludesEmpty(s: string)
    ensures Includes(s, [])
  {
  }
}
