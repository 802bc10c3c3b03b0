/**
  The three string operations the help-center search relies on: lower-casing
  (`toLowerCase`, folded to ASCII here), trimming (`trim`, with the ECMAScript
  set of white-space and line-terminator characters), substring containment
  (`includes`) and JavaScript's `length`, which counts UTF-16 code units.
 */
module Text {

  predicate IsUpper(c: char) {
    'A' <= c <= 'Z'
  }

  /** ECMAScript WhiteSpace and LineTerminator code points, the ones `trim` removes. */
  predicate IsJsWhitespace(c: char) {
    var n := c as int;
    n == 0x09 || n == 0x0A || n == 0x0B || n == 0x0C || n == 0x0D || n == 0x20 ||
    n == 0xA0 || n == 0x1680 || (0x2000 <= n <= 0x200A) || n == 0x2028 || n == 0x2029 ||
    n == 0x202F || n == 0x205F || n == 0x3000 || n == 0xFEFF
  }

  function LowerChar(c: char): (d: char)
    ensures !IsUpper(d)
    ensures IsUpper(c) ==> d as int == c as int + 32
    ensures !IsUpper(c) ==> d == c
  {
    if IsUpper(c) then (c as int + 32) as char else c
  }

  /** `toLowerCase`, character by character; it keeps the length (LowerSpec says the rest). */
  function Lower(s: string): (r: string)
    ensures |r| == |s|
  {
    if s == [] then [] else [LowerChar(s[0])] + Lower(s[1..])
  }

  /** No upper-case letter is left, and each character is kept or is a letter folded in place. */
  lemma {:induction false} LowerSpec(s: string)
    ensures var r := Lower(s);
            (forall k :: 0 <= k < |s| ==> !IsUpper(r[k])) &&
            (forall k :: 0 <= k < |s| ==> r[k] == LowerChar(s[k]))
  {
    if s != [] {
      LowerSpec(s[1..]);
      var r := Lower(s);
      assert r == [LowerChar(s[0])] + Lower(s[1..]);
      forall k | 1 <= k < |s| ensures r[k] == LowerChar(s[k]) {
        assert r[k] == Lower(s[1..])[k - 1];
        assert s[1..][k - 1] == s[k];
      }
    }
  }

  /** Drops leading white space (TrimStartSpec says what is dropped). */
  function TrimStart(s: string): (r: string)
    ensures |r| <= |s|
  {
    if s != [] && IsJsWhitespace(s[0]) then TrimStart(s[1..]) else s
  }

  /** The result is a suffix of `s` that does not start with white space, and only white space was dropped. */
  lemma {:induction false} TrimStartSpec(s: string)
    ensures var r := TrimStart(s);
            r == s[|s| - |r|..] &&
            (forall k :: 0 <= k < |s| - |r| ==> IsJsWhitespace(s[k])) &&
            (r == [] || !IsJsWhitespace(r[0]))
  {
    if s != [] && IsJsWhitespace(s[0]) {
      TrimStartSpec(s[1..]);
      var r := TrimStart(s);
      assert s[1..][|s| - 1 - |r|..] == s[|s| - |r|..];
      forall k | 1 <= k < |s| - |r| ensures IsJsWhitespace(s[k]) {
        assert s[1..][k - 1] == s[k];
      }
    }
  }

  /** Drops trailing white space (TrimEndSpec says what is dropped). */
  function TrimEnd(s: string): (r: string)
    ensures |r| <= |s|
  {
    if s != [] && IsJsWhitespace(s[|s| - 1]) then TrimEnd(s[..|s| - 1]) else s
  }

  /** The result is a prefix of `s` that does not end with white space, and only white space was dropped. */
  lemma {:induction false} TrimEndSpec(s: string)
    ensures var r := TrimEnd(s);
            r == s[..|r|] &&
            (forall k :: |r| <= k < |s| ==> IsJsWhitespace(s[k])) &&
            (r == [] || !IsJsWhitespace(r[|r| - 1]))
  {
    if s != [] && IsJsWhitespace(s[|s| - 1]) {
      TrimEndSpec(s[..|s| - 1]);
      var r := TrimEnd(s);
      assert s[..|s| - 1][..|r|] == s[..|r|];
      forall k | |r| <= k < |s| - 1 ensures IsJsWhitespace(s[k]) {
        assert s[..|s| - 1][k] == s[k];
      }
    }
  }

  /** `trim`: white space goes from both ends. */
  function Trim(s: string): (r: string)
    ensures |r| <= |s|
  {
    TrimEnd(TrimStart(s))
  }

  /** Neither end of a trimmed string is white space, and the result is empty exactly for blank input. */
  lemma TrimSpec(s: string)
    ensures var r := Trim(s);
            (r == [] || (!IsJsWhitespace(r[0]) && !IsJsWhitespace(r[|r| - 1]))) &&
            (r == [] <==> forall k :: 0 <= k < |s| ==> IsJsWhitespace(s[k]))
  {
    var t := TrimStart(s);
    TrimStartSpec(s);
    TrimEndSpec(t);
    var r := TrimEnd(t);
    if r != [] {
      assert r[0] == t[0];
      assert !IsJsWhitespace(s[|s| - |t|]);
    }
  }

  /** The query as the search handler builds it: lower-cased, then trimmed; it is never longer than the input. */
  function Normalise(raw: string): (r: string)
    ensures |r| <= |raw|
  {
    Trim(Lower(raw))
  }

  /**
    JavaScript's `length`: the number of UTF-16 code units, one for a character
    of the Basic Multilingual Plane and two (a surrogate pair) for any other.
   */
  function Utf16Length(s: string): (n: nat)
    ensures |s| <= n <= 2 * |s|
  {
    if s == [] then 0 else (if s[0] as int < 0x1_0000 then 1 else 2) + Utf16Length(s[1..])
  }

  /** ASCII case folding never moves a character out of the Basic Multilingual Plane, so the code-unit count is kept. */
  lemma {:induction false} LowerKeepsUtf16Length(s: string)
    ensures Utf16Length(Lower(s)) == Utf16Length(s)
  {
    if s != [] {
      LowerKeepsUtf16Length(s[1..]);
      var r := Lower(s);
      assert r[0] == LowerChar(s[0]) && r[1..] == Lower(s[1..]);
    }
  }

  /** `s.includes(q)`: tries every start position from the left. */
  function Includes(s: string, q: string): (r: bool)
    ensures q == [] ==> r
    ensures r ==> |q| <= |s|
    decreases |s|
  {
    if |q| > |s| then false
    else if s[..|q|] == q then true
    else Includes(s[1..], q)
  }

  /** Reference definition of containment: `q` occurs in `s` starting at index `i`. */
  ghost predicate OccursAt(s: string, q: string, i: int) {
    0 <= i && i + |q| <= |s| && s[i..i + |q|] == q
  }

  ghost predicate Occurs(s: string, q: string) {
    exists i :: OccursAt(s, q, i)
  }

  lemma {:induction false} IncludesSound(s: string, q: string)
    requires Includes(s, q)
    ensures Occurs(s, q)
    decreases |s|
  {
    if s[..|q|] == q {
      assert OccursAt(s, q, 0);
    } else {
      IncludesSound(s[1..], q);
      var i :| OccursAt(s[1..], q, i);
      assert s[1..][i..i + |q|] == s[i + 1..i + 1 + |q|];
      assert OccursAt(s, q, i + 1);
    }
  }

  lemma {:induction false} IncludesComplete(s: string, q: string, i: int)
    requires OccursAt(s, q, i)
    ensures Includes(s, q)
    decreases i
  {
    if s[..|q|] != q {
      assert i != 0;
      assert s[1..][i - 1..i - 1 + |q|] == s[i..i + |q|];
      IncludesComplete(s[1..], q, i - 1);
    }
  }

  /** The left-to-right scan of `includes` finds `q` exactly when it occurs somewhere in `s`. */
  lemma IncludesIffOccurs(s: string, q: string)
    ensures Includes(s, q) <==> Occurs(s, q)
  {
    if Includes(s, q) {
      IncludesSound(s, q);
    }
    if Occurs(s, q) {
      var i :| OccursAt(s, q, i);
      IncludesComplete(s, q, i);
    }
  }

  /** Lower-casing twice is lower-casing once, so matching on lower-cased text ignores case. */
  lemma LowerIdempotent(s: string)
    ensures Lower(Lower(s)) == Lower(s)
  {
    LowerSpec(s);
    LowerSpec(Lower(s));
  }

  /** Lower-casing leaves white space alone, so a blank input stays blank. */
  lemma NormaliseBlank(raw: string)
    ensures Normalise(raw) == [] <==> forall k :: 0 <= k < |raw| ==> IsJsWhitespace(raw[k])
  {
    var l := Lower(raw);
    LowerSpec(raw);
    TrimSpec(l);
    forall k | 0 <= k < |raw| ensures IsJsWhitespace(l[k]) <==> IsJsWhitespace(raw[k]) {
      assert l[k] == LowerChar(raw[k]);
    }
  }
}
